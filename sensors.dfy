/** The rolling temperature/humidity statistics of the sensors component:
    a file-scope block of counters updated on every sensor read, two
    explicit reset operations and two read accessors.

    Temperatures and the humidity are in tenths (of a degree Celsius and
    of a percent), as the DHT driver delivers them. All fields have the
    widths of the statics of sensors.c, and every assignment converts as
    C does: a negative temperature stored into a uint16_t field wraps. */
module Sensors {
  import opened CInt

  /** Number of accepted samples after which count and sum restart. */
  const MaxReadCount: u16 := 200

  /** The statics of the component, as one value. */
  datatype Stats = Stats(
    readCount: u16,
    tempSum: u16,
    tempMin: u16,
    tempAvg: u16,
    tempMax: u16,
    humidity: i16)

  /** Every static starts at zero. */
  const Initial: Stats := Stats(0, 0, 0, 0, 0, 0)

  /** What one call of the DHT driver leaves behind. On success it returns
      ESP_OK with both values written. On failure the temperature is
      discarded, and `humidity` is whatever the driver left in the
      variable whose address it was given. The model cannot see that, so
      it is an input. */
  datatype DhtResult =
    | DhtOk(humidity: i16, temperature: i16)
    | DhtFailed(humidity: i16)

  /** The average, minimum and maximum temperature, in tenths of a degree
      (the source divides each by 10.0 into a float). */
  datatype TempData = TempData(avg: u16, min: u16, max: u16)

  /** reset_temp_sum: restart the sample window. */
  function AfterResetTempSum(s: Stats): (r: Stats)
    ensures r.readCount == 0 && r.tempSum == 0
    ensures r.tempMin == s.tempMin && r.tempAvg == s.tempAvg && r.tempMax == s.tempMax
    ensures r.humidity == s.humidity
  {
    s.(readCount := 0, tempSum := 0)
  }

  /** reset_temp_minmax: pull both extremes onto the current average. */
  function AfterResetTempMinMax(s: Stats): (r: Stats)
    ensures r.tempMin == s.tempAvg && r.tempMax == s.tempAvg && r.tempAvg == s.tempAvg
    ensures r.readCount == s.readCount && r.tempSum == s.tempSum && r.humidity == s.humidity
  {
    s.(tempMin := s.tempAvg, tempMax := s.tempAvg)
  }

  /** read_dht: the new statics after one driver call. The requires is the
      window bound that every reachable state keeps. The count therefore
      never wraps and the division is never by zero. */
  function AfterRead(s: Stats, reading: DhtResult): (r: Stats)
    requires s.readCount < MaxReadCount
    ensures r.readCount < MaxReadCount
    ensures r.humidity == reading.humidity
    // a failed read changes none of the temperature statistics
    ensures reading.DhtFailed? ==> r == s.(humidity := reading.humidity)
    ensures reading.DhtOk? ==>
      var t := reading.temperature;
      var count := s.readCount + 1;
      var sum := ToU16(s.tempSum + t);
      // the window grows by one sample, or restarts when it is full
      && (count < MaxReadCount ==> r.readCount == count && r.tempSum == sum)
      && (count == MaxReadCount ==> r.readCount == 0 && r.tempSum == 0)
      // the average is taken over the window before the window check
      // (lemma AverageTruncates says how)
      && r.tempAvg <= sum
      // the extremes: 0 stands for "no minimum yet"
      && (if s.tempMin == 0 || s.tempMin > t then r.tempMin == ToU16(t) else r.tempMin == s.tempMin)
      && (if s.tempMax < t then r.tempMax == t else r.tempMax == s.tempMax)
  {
    match reading
    case DhtFailed(h) => s.(humidity := h)
    case DhtOk(h, t) =>
      var count: u16 := s.readCount + 1;
      var sum := ToU16(s.tempSum + t);
      DivRemainder(sum, count);
      var avg: u16 := sum / count;
      var min := if s.tempMin == 0 || s.tempMin > t then ToU16(t) else s.tempMin;
      var max := if s.tempMax < t then ToU16(t) else s.tempMax;
      var updated := Stats(count, sum, min, avg, max, h);
      if count == MaxReadCount then AfterResetTempSum(updated) else updated
  }

  /** The relations between the statics that hold in every state reached
      from Initial by reads of temperatures in 1..327 (0.1 to 32.7 degrees)
      and by any resets. Such a window sums to at most 200 * 327 = 65400,
      so the 16-bit sum never wraps. A minimum of 0 means that no sample
      has been taken. */
  ghost predicate Inv(s: Stats)
  {
    && s.readCount < MaxReadCount
    && s.readCount <= s.tempSum <= 327 * s.readCount
    && s.readCount * s.tempMin <= s.tempSum
    && (s.readCount > 0 ==> s.tempSum < s.readCount * (s.tempMax + 1))
    && (s.readCount > 0 ==> s.tempAvg == s.tempSum / s.readCount)
    && s.tempMin <= s.tempAvg <= s.tempMax <= 327
    && (s.tempMin == 0 ==> s.tempMax == 0 && s.readCount == 0)
  }

  /** The statics of sensors.c, updated in place by the component's
      functions. */
  class SensorStore {
    var readCount: u16
    var tempSum: u16
    var tempMin: u16
    var tempAvg: u16
    var tempMax: u16
    var humidity: i16

    /** Between calls the window never holds MaxReadCount samples. */
    ghost predicate Valid()
      reads this
    {
      readCount < MaxReadCount
    }

    /** The statics as one value. */
    function State(): (s: Stats)
      reads this
    {
      Stats(readCount, tempSum, tempMin, tempAvg, tempMax, humidity)
    }

    constructor ()
      ensures Valid() && State() == Initial
    {
      readCount, tempSum := 0, 0;
      tempMin, tempAvg, tempMax := 0, 0, 0;
      humidity := 0;
    }

    /** read_dht. `notified` tells whether the SENSORS_READ event is
        posted. */
    method ReadDht(reading: DhtResult) returns (notified: bool)
      requires Valid()
      modifies this
      ensures Valid()
      ensures State() == AfterRead(old(State()), reading)
      ensures notified == reading.DhtOk?
    {
      humidity := reading.humidity;
      if reading.DhtOk? {
        var temperature := reading.temperature;
        readCount := ToU16(readCount + 1);
        tempSum := ToU16(tempSum + temperature);
        DivRemainder(tempSum, readCount);
        tempAvg := tempSum / readCount;
        if tempMin == 0 || tempMin > temperature {
          tempMin := ToU16(temperature);
        }
        if tempMax < temperature {
          tempMax := ToU16(temperature);
        }
        if readCount == MaxReadCount {
          ResetTempSum();
        }
        notified := true;
      } else {
        notified := false;
      }
    }

    /** reset_temp_sum. It is also called from ReadDht on the 200th
        sample, when the window bound does not hold, and restores it. */
    method ResetTempSum()
      modifies this
      ensures Valid()
      ensures State() == AfterResetTempSum(old(State()))
    {
      readCount := 0;
      tempSum := 0;
    }

    /** reset_temp_minmax */
    method ResetTempMinMax()
      requires Valid()
      modifies this
      ensures Valid()
      ensures State() == AfterResetTempMinMax(old(State()))
    {
      tempMin := tempAvg;
      tempMax := tempAvg;
    }

    /** get_temperatures, in tenths of a degree. When the statistics keep
        their invariant, the snapshot is ordered. */
    function GetTemperatures(): (d: TempData)
      reads this
      ensures d.avg == tempAvg && d.min == tempMin && d.max == tempMax
      ensures Inv(State()) ==> d.min <= d.avg <= d.max
    {
      TempData(tempAvg, tempMin, tempMax)
    }

    /** get_humidity: the humidity in whole percent, truncated toward
        zero and then cut to a byte. */
    function GetHumidity(): (p: u8)
      reads this
      ensures 0 <= humidity < 2560 ==> p * 10 <= humidity < p * 10 + 10
      ensures -10 < humidity <= 0 ==> p == 0
      ensures (p - CDiv(humidity, 10)) % U8Modulus == 0
    {
      ToU8(CDiv(humidity, 10))
    }
  }
}
