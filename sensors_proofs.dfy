/** Properties of the sensor statistics over whole runs of the component:
    the invariant kept by reads of plausible temperatures and by both
    resets, the count/sum/average of the sample window described by the
    history of accepted samples, the extremes as the minimum and maximum
    of that history, and concrete runs. */
module SensorsProofs {
  import opened CInt
  import opened Sensors

  /** One call into the component that changes the statistics. */
  datatype Op =
    | Read(result: DhtResult)
    | ResetSum
    | ResetMinMax

  function Apply(s: Stats, op: Op): (r: Stats)
    requires s.readCount < MaxReadCount
    ensures r.readCount < MaxReadCount
  {
    match op
    case Read(result) => AfterRead(s, result)
    case ResetSum => AfterResetTempSum(s)
    case ResetMinMax => AfterResetTempMinMax(s)
  }

  /** The statistics after the calls `ops`, in order, starting from `s`. */
  function Run(s: Stats, ops: seq<Op>): (r: Stats)
    requires s.readCount < MaxReadCount
    ensures r.readCount < MaxReadCount
  {
    if ops == [] then s else Apply(Run(s, ops[..|ops| - 1]), ops[|ops| - 1])
  }

  /** The temperature a call contributes to the samples: one for a
      successful read, none otherwise. */
  function AcceptedBy(op: Op): (ts: seq<int>)
  {
    if op.Read? && op.result.DhtOk? then [op.result.temperature] else []
  }

  /** The temperatures of the successful reads among `ops`, in order. */
  function Accepted(ops: seq<Op>): (ts: seq<int>)
  {
    if ops == [] then [] else Accepted(ops[..|ops| - 1]) + AcceptedBy(ops[|ops| - 1])
  }

  function Sum(xs: seq<int>): (s: int)
  {
    if xs == [] then 0 else Sum(xs[..|xs| - 1]) + xs[|xs| - 1]
  }

  function MinOf(xs: seq<int>): (m: int)
    requires xs != []
    ensures m in xs && forall x :: x in xs ==> m <= x
  {
    var pre, last := xs[..|xs| - 1], xs[|xs| - 1];
    if pre == [] then
      assert xs == [last];
      last
    else
      var m' := MinOf(pre);
      assert xs == pre + [last];
      if m' > last then last else m'
  }

  function MaxOf(xs: seq<int>): (m: int)
    requires xs != []
    ensures m in xs && forall x :: x in xs ==> x <= m
  {
    var pre, last := xs[..|xs| - 1], xs[|xs| - 1];
    if pre == [] then
      assert xs == [last];
      last
    else
      var m' := MaxOf(pre);
      assert xs == pre + [last];
      if m' < last then last else m'
  }

  /** Index of the first sample of the current window after n accepted
      samples: the window restarts after every MaxReadCount samples. */
  function WindowStart(n: nat): (k: nat)
    ensures k <= n && n - k < MaxReadCount
  {
    n - n % MaxReadCount
  }

  /** A read of a temperature in 0.1..32.7 degrees, or any other call. */
  predicate Plausible(op: Op)
  {
    op.Read? && op.result.DhtOk? ==> 1 <= op.result.temperature <= 327
  }

  predicate OnlyReads(ops: seq<Op>)
  {
    forall i :: 0 <= i < |ops| ==> ops[i].Read?
  }

  /** No call of reset_temp_minmax among `ops`. */
  predicate KeepsExtremes(ops: seq<Op>)
  {
    forall i :: 0 <= i < |ops| ==> !ops[i].ResetMinMax?
  }

  // ---------------------------------------------------------------------
  // The invariant and the ordering of the statistics

  lemma InvInitial()
    ensures Inv(Initial)
  {
  }

  /** One more plausible sample keeps the window's bounds: the sum grows
      by at most 327 and stays between count * minimum and
      count * (maximum + 1), so the new average lies between the new
      extremes `mn'` and `mx'`. */
  lemma ExtendWindow(c: nat, sum: nat, mn: int, mx: int, t: int, mn': int, mx': int)
    requires 1 <= mn <= mx <= 327 && 1 <= t <= 327
    requires mn' == (if mn > t then t else mn) && mx' == (if mx < t then t else mx)
    requires c <= sum <= 327 * c
    requires c * mn <= sum
    requires c > 0 ==> sum < c * (mx + 1)
    ensures c + 1 <= sum + t <= 327 * (c + 1)
    ensures (c + 1) * mn' <= sum + t < (c + 1) * (mx' + 1)
    ensures mn' <= (sum + t) / (c + 1) <= mx'
  {
    MulMonotone(c, mn', mn);
    assert (c + 1) * mn' == c * mn' + mn';
    MulMonotone(c, mx + 1, mx' + 1);
    assert (c + 1) * (mx' + 1) == c * (mx' + 1) + mx' + 1;
    DivBetween(sum + t, c + 1, mn', mx');
  }

  /** The first sample of a window whose extremes are unset. */
  lemma InvAfterFirstRead(s: Stats, h: i16, t: i16)
    requires Inv(s) && s.tempMin == 0
    requires 1 <= t <= 327
    ensures Inv(AfterRead(s, DhtOk(h, t)))
  {
    assert s.readCount == 0 && s.tempSum == 0;
    assert AfterRead(s, DhtOk(h, t)) == Stats(1, t, t, t, t, h);
  }

  /** The statics after a successful read, as one value. */
  lemma AfterOkRead(s: Stats, h: i16, t: i16)
    requires s.readCount < MaxReadCount
    ensures var c, sum := s.readCount + 1, ToU16(s.tempSum + t);
      var mn := if s.tempMin == 0 || s.tempMin > t then ToU16(t) else s.tempMin;
      var mx := if s.tempMax < t then ToU16(t) else s.tempMax;
      AfterRead(s, DhtOk(h, t)) ==
        if c == MaxReadCount then Stats(0, 0, mn, sum / c, mx, h) else Stats(c, sum, mn, sum / c, mx, h)
  {
  }

  /** The invariant of a window extended by a sample, in plain numbers:
      the window grows to c + 1 samples, or restarts. */
  lemma InvExtended(c: nat, sum: nat, mn: int, mx: int, t: int, mn': int, mx': int, h: i16)
    requires c < MaxReadCount
    requires 1 <= mn <= mx <= 327 && 1 <= t <= 327
    requires mn' == (if mn > t then t else mn) && mx' == (if mx < t then t else mx)
    requires c <= sum <= 327 * c
    requires c * mn <= sum
    requires c > 0 ==> sum < c * (mx + 1)
    ensures Inv(Stats(0, 0, mn', (sum + t) / (c + 1), mx', h))
    ensures c + 1 < MaxReadCount ==> Inv(Stats(c + 1, sum + t, mn', (sum + t) / (c + 1), mx', h))
  {
    ExtendWindow(c, sum, mn, mx, t, mn', mx');
    var avg := (sum + t) / (c + 1);
    assert mn' <= avg <= mx' <= 327;
  }

  /** A further sample of a window with extremes set. */
  lemma InvAfterNextRead(s: Stats, h: i16, t: i16)
    requires Inv(s) && s.tempMin != 0
    requires 1 <= t <= 327
    ensures Inv(AfterRead(s, DhtOk(h, t)))
  {
    AfterOkRead(s, h, t);
    assert ToU16(s.tempSum + t) == s.tempSum + t && ToU16(t) == t;
    var mn', mx' := if s.tempMin > t then t else s.tempMin, if s.tempMax < t then t else s.tempMax;
    InvExtended(s.readCount, s.tempSum, s.tempMin, s.tempMax, t, mn', mx', h);
  }

  lemma InvAfterRead(s: Stats, reading: DhtResult)
    requires Inv(s)
    requires reading.DhtOk? ==> 1 <= reading.temperature <= 327
    ensures Inv(AfterRead(s, reading))
  {
    match reading
    case DhtOk(h, t) =>
      if s.tempMin == 0 {
        InvAfterFirstRead(s, h, t);
      } else {
        InvAfterNextRead(s, h, t);
      }
    case DhtFailed(_) =>
  }

  lemma InvAfterResetTempSum(s: Stats)
    requires Inv(s)
    ensures Inv(AfterResetTempSum(s))
  {
  }

  lemma InvAfterResetTempMinMax(s: Stats)
    requires Inv(s)
    ensures Inv(AfterResetTempMinMax(s))
  {
    var r := AfterResetTempMinMax(s);
    if s.readCount > 0 {
      DivRemainder(s.tempSum, s.readCount);
      assert s.readCount * s.tempAvg <= s.tempSum < s.readCount * (s.tempAvg + 1);
      assert s.tempAvg >= 1;
    }
  }

  /** From the initial statics, any sequence of reads of plausible
      temperatures, failed reads and resets of either kind keeps the
      invariant: the window never overflows and the minimum, average and
      maximum stay ordered. */
  lemma {:induction false} InvAlongRun(ops: seq<Op>)
    requires forall i :: 0 <= i < |ops| ==> Plausible(ops[i])
    ensures Inv(Run(Initial, ops))
    ensures Run(Initial, ops).tempMin <= Run(Initial, ops).tempAvg <= Run(Initial, ops).tempMax
  {
    if ops == [] {
      InvInitial();
    } else {
      var prefix, last := ops[..|ops| - 1], ops[|ops| - 1];
      assert forall i :: 0 <= i < |prefix| ==> prefix[i] == ops[i];
      InvAlongRun(prefix);
      var s := Run(Initial, prefix);
      assert Plausible(last);
      match last
      case Read(result) => InvAfterRead(s, result);
      case ResetSum => InvAfterResetTempSum(s);
      case ResetMinMax => InvAfterResetTempMinMax(s);
    }
  }

  // ---------------------------------------------------------------------
  // Failed reads

  /** A run of failed reads leaves the temperature statistics as they were. */
  lemma {:induction false} FailedReadsKeepStats(s: Stats, ops: seq<Op>)
    requires s.readCount < MaxReadCount
    requires forall i :: 0 <= i < |ops| ==> ops[i].Read? && ops[i].result.DhtFailed?
    ensures var r := Run(s, ops);
      r.readCount == s.readCount && r.tempSum == s.tempSum &&
      r.tempMin == s.tempMin && r.tempAvg == s.tempAvg && r.tempMax == s.tempMax
    ensures Accepted(ops) == []
  {
    if ops != [] {
      FailedReadsKeepStats(s, ops[..|ops| - 1]);
    }
  }

  // ---------------------------------------------------------------------
  // The window, described by the history of accepted samples

  lemma SumAppend(xs: seq<int>, x: int)
    ensures Sum(xs + [x]) == Sum(xs) + x
  {
    assert (xs + [x])[..|xs|] == xs;
  }

  lemma ModAdd(a: int, t: int)
    ensures (a % U16Modulus + t) % U16Modulus == (a + t) % U16Modulus
  {
    var q := a / U16Modulus;
    assert a == q * U16Modulus + a % U16Modulus;
    assert a + t == (a % U16Modulus + t) + q * U16Modulus;
  }

  lemma WindowStep(n: nat)
    ensures n % MaxReadCount + 1 == MaxReadCount ==> (n + 1) % MaxReadCount == 0
    ensures n % MaxReadCount + 1 < MaxReadCount ==> (n + 1) % MaxReadCount == n % MaxReadCount + 1
  {
  }

  /** The number of samples in the current window after the samples `ts`. */
  ghost function WindowCount(ts: seq<int>): (c: nat)
  {
    |ts| - WindowStart(|ts|)
  }

  /** The 16-bit sum of the current window after the samples `ts`. */
  ghost function WindowSum(ts: seq<int>): (s: int)
  {
    Sum(ts[WindowStart(|ts|)..]) % U16Modulus
  }

  /** The truncated quotient of the 16-bit sum and the count of the window
      the last sample went into, taken before that window was restarted. */
  ghost function LastAverage(ts: seq<int>): (a: nat)
    requires ts != []
  {
    var w := WindowStart(|ts| - 1);
    Quotient(Sum(ts[w..]) % U16Modulus, |ts| - w)
  }

  /** The statistics `r` describe the window of the samples `ts`
      accepted so far. */
  ghost predicate DescribesWindow(r: Stats, ts: seq<int>)
  {
    && r.readCount == WindowCount(ts)
    && r.tempSum == WindowSum(ts)
    && (ts != [] ==> r.tempAvg == LastAverage(ts))
  }

  /** The statics after an accepted sample, in terms of the window's
      count and 16-bit sum just before the window check. */
  lemma AcceptedFields(s: Stats, h: i16, t: i16)
    requires s.readCount < MaxReadCount
    ensures var r, count, sum := AfterRead(s, DhtOk(h, t)), s.readCount + 1, ToU16(s.tempSum + t);
      && r.tempAvg == Quotient(sum, count)
      && (count == MaxReadCount ==> r.readCount == 0 && r.tempSum == 0)
      && (count < MaxReadCount ==> r.readCount == count && r.tempSum == sum)
  {
    QuotientIsDiv(ToU16(s.tempSum + t), s.readCount + 1);
  }

  /** The 16-bit sum of a window extended by one sample. */
  lemma WindowSumAppend(ts: seq<int>, w: nat, t: int)
    requires w <= |ts|
    ensures ToU16(Sum(ts[w..]) % U16Modulus + t) == Sum((ts + [t])[w..]) % U16Modulus
  {
    assert (ts + [t])[w..] == ts[w..] + [t];
    SumAppend(ts[w..], t);
    ModAdd(Sum(ts[w..]), t);
  }

  /** An accepted sample adds one to the window, or empties it when it
      reached MaxReadCount samples. */
  lemma CountAfterAccept(ts: seq<int>, t: int)
    ensures WindowCount(ts) + 1 == MaxReadCount ==> WindowStart(|ts + [t]|) == |ts + [t]|
    ensures WindowCount(ts) + 1 < MaxReadCount ==> WindowStart(|ts + [t]|) == WindowStart(|ts|)
    ensures WindowCount(ts + [t]) == if WindowCount(ts) + 1 == MaxReadCount then 0 else WindowCount(ts) + 1
  {
    WindowStep(|ts|);
  }

  lemma SumAfterAccept(ts: seq<int>, t: int)
    ensures WindowSum(ts + [t]) == if WindowCount(ts) + 1 == MaxReadCount then 0 else ToU16(WindowSum(ts) + t)
  {
    var ts1 := ts + [t];
    CountAfterAccept(ts, t);
    if WindowCount(ts) + 1 == MaxReadCount {
      assert ts1[|ts1|..] == [];
    } else {
      WindowSumAppend(ts, WindowStart(|ts|), t);
    }
  }

  lemma AverageAfterAccept(ts: seq<int>, t: int)
    ensures LastAverage(ts + [t]) == Quotient(ToU16(WindowSum(ts) + t), WindowCount(ts) + 1)
  {
    var ts1 := ts + [t];
    assert |ts1| - 1 == |ts|;
    WindowSumAppend(ts, WindowStart(|ts|), t);
  }

  /** Any read, successful or not, keeps the window described. */
  lemma WindowAfterRead(s: Stats, ts: seq<int>, op: Op)
    requires op.Read? && s.readCount < MaxReadCount
    requires DescribesWindow(s, ts)
    ensures DescribesWindow(Apply(s, op), ts + AcceptedBy(op))
  {
    match op.result
    case DhtOk(h, t) =>
      AcceptedFields(s, h, t);
      CountAfterAccept(ts, t);
      SumAfterAccept(ts, t);
      AverageAfterAccept(ts, t);
    case DhtFailed(_) =>
      assert ts + AcceptedBy(op) == ts;
  }

  /** After any run of reads from the initial statics, successful or not,
      the statistics describe the window of the accepted samples. */
  lemma {:induction false} WindowHistory(ops: seq<Op>)
    requires OnlyReads(ops)
    ensures DescribesWindow(Run(Initial, ops), Accepted(ops))
  {
    if ops == [] {
      assert Accepted(ops) == [];
    } else {
      var prefix := ops[..|ops| - 1];
      assert OnlyReads(prefix) by {
        assert forall i :: 0 <= i < |prefix| ==> prefix[i] == ops[i];
      }
      WindowHistory(prefix);
      WindowAfterRead(Run(Initial, prefix), Accepted(prefix), ops[|ops| - 1]);
    }
  }

  lemma {:induction false} SumBounds(xs: seq<int>, lo: int, hi: int)
    requires forall i :: 0 <= i < |xs| ==> lo <= xs[i] <= hi
    ensures lo * |xs| <= Sum(xs) <= hi * |xs|
  {
    if xs != [] {
      var k := |xs| - 1;
      SumBounds(xs[..k], lo, hi);
      MulSucc(lo, k);
      MulSucc(hi, k);
    }
  }

  /** A described window of exactly MaxReadCount plausible samples has
      just been restarted, and its average is their truncated mean. */
  lemma FullWindowDescribed(r: Stats, ts: seq<int>)
    requires |ts| == MaxReadCount
    requires forall i :: 0 <= i < |ts| ==> 1 <= ts[i] <= 327
    requires DescribesWindow(r, ts)
    ensures r.readCount == 0 && r.tempSum == 0 && r.tempAvg == Sum(ts) / MaxReadCount
  {
    SumBounds(ts, 1, 327);
    assert WindowStart(MaxReadCount) == MaxReadCount && WindowStart(MaxReadCount - 1) == 0;
    assert ts[MaxReadCount..] == [] && ts[0..] == ts;
    assert Sum(ts) % U16Modulus == Sum(ts);
    QuotientIsDiv(Sum(ts), MaxReadCount);
  }

  /** The 200th accepted sample of plausible temperatures from the initial
      statics empties the window, while the average still describes the
      200 samples of the window that has just ended. */
  lemma FullWindow(ops: seq<Op>)
    requires OnlyReads(ops)
    requires forall i :: 0 <= i < |ops| ==> Plausible(ops[i])
    requires |Accepted(ops)| == MaxReadCount
    ensures var r := Run(Initial, ops);
      r.readCount == 0 && r.tempSum == 0 && r.tempAvg == Sum(Accepted(ops)) / MaxReadCount
  {
    WindowHistory(ops);
    AcceptedPlausible(ops);
    FullWindowDescribed(Run(Initial, ops), Accepted(ops));
  }

  lemma {:induction false} AcceptedPlausible(ops: seq<Op>)
    requires forall i :: 0 <= i < |ops| ==> Plausible(ops[i])
    ensures forall i :: 0 <= i < |Accepted(ops)| ==> 1 <= Accepted(ops)[i] <= 327
  {
    if ops != [] {
      var prefix := ops[..|ops| - 1];
      assert forall i :: 0 <= i < |prefix| ==> prefix[i] == ops[i];
      AcceptedPlausible(prefix);
      assert Plausible(ops[|ops| - 1]);
    }
  }

  /** The extremes `r` are those of the samples `ts`: 0 before the first
      sample, afterwards their minimum and maximum. */
  ghost predicate DescribesExtremes(r: Stats, ts: seq<int>)
  {
    && (ts == [] ==> r.tempMin == 0 && r.tempMax == 0)
    && (ts != [] ==> r.tempMin == MinOf(ts) && r.tempMax == MaxOf(ts))
  }

  /** A read of a positive temperature, a failed read, or reset_temp_sum
      keeps the extremes described. */
  lemma ExtremesAfterCall(s: Stats, ts: seq<int>, op: Op)
    requires !op.ResetMinMax? && s.readCount < MaxReadCount
    requires forall x :: x in ts ==> x >= 1
    requires op.Read? && op.result.DhtOk? ==> op.result.temperature >= 1
    requires DescribesExtremes(s, ts)
    ensures DescribesExtremes(Apply(s, op), ts + AcceptedBy(op))
  {
    match op
    case Read(DhtOk(h, t)) =>
      var ts1 := ts + [t];
      assert ts1[..|ts1| - 1] == ts;
      if ts != [] {
        assert MinOf(ts) in ts && MaxOf(ts) in ts;
      }
    case Read(DhtFailed(_)) =>
      assert ts + AcceptedBy(op) == ts;
    case ResetSum =>
      assert ts + AcceptedBy(op) == ts;
  }

  /** With positive temperatures and without reset_temp_minmax, the
      minimum and maximum are those of every sample accepted so far (0
      before the first one). */
  lemma {:induction false} ExtremesHistory(ops: seq<Op>)
    requires KeepsExtremes(ops)
    requires forall x :: x in Accepted(ops) ==> x >= 1
    ensures DescribesExtremes(Run(Initial, ops), Accepted(ops))
  {
    if ops == [] {
      assert Accepted(ops) == [];
    } else {
      var prefix, last := ops[..|ops| - 1], ops[|ops| - 1];
      assert KeepsExtremes(prefix) by {
        assert forall i :: 0 <= i < |prefix| ==> prefix[i] == ops[i];
      }
      var ts := Accepted(prefix);
      assert Accepted(ops) == ts + AcceptedBy(last);
      assert forall x :: x in ts ==> x in Accepted(ops);
      assert last.Read? && last.result.DhtOk? ==> last.result.temperature in Accepted(ops);
      ExtremesHistory(prefix);
      ExtremesAfterCall(Run(Initial, prefix), ts, last);
    }
  }

  /** The stored average is the truncated quotient of the window's sum and
      count just before the window check. */
  lemma AverageTruncates(s: Stats, h: i16, t: i16)
    requires s.readCount < MaxReadCount
    ensures var r, count, sum := AfterRead(s, DhtOk(h, t)), s.readCount + 1, ToU16(s.tempSum + t);
      r.tempAvg * count <= sum < (r.tempAvg + 1) * count
  {
    DivRemainder(ToU16(s.tempSum + t), s.readCount + 1);
  }

  // ---------------------------------------------------------------------
  // Concrete runs

  /** k successful reads returning the same values. */
  function Repeat(k: nat, h: i16, t: i16): (ops: seq<Op>)
    ensures |ops| == k && forall i :: 0 <= i < k ==> ops[i] == Read(DhtOk(h, t))
  {
    seq(k, _ => Read(DhtOk(h, t)))
  }

  /** One more read of the same temperature in a steady window. */
  lemma SteadyStep(k: nat, h: i16, t: i16)
    requires 0 < k < MaxReadCount - 1 && 1 <= t && (k + 1) * t < U16Modulus
    ensures AfterRead(Stats(k, k * t, t, t, t, h), DhtOk(h, t)) == Stats(k + 1, (k + 1) * t, t, t, t, h)
  {
    assert k * t + t == (k + 1) * t;
    MulDivCancel(k + 1, t);
  }

  /** Reading the same temperature k times, within one window and without
      overflow, gives that temperature as average, minimum and maximum. */
  lemma {:induction false} SteadyReads(k: nat, h: i16, t: i16)
    requires 0 < k < MaxReadCount && 1 <= t && k * t < U16Modulus
    ensures Run(Initial, Repeat(k, h, t)) == Stats(k, k * t, t, t, t, h)
  {
    var prev := Repeat(k - 1, h, t);
    assert Repeat(k, h, t)[..k - 1] == prev;
    if k == 1 {
      assert Run(Initial, prev) == Initial;
    } else {
      MulMonotone(t, k - 1, k);
      assert (k - 1) * t <= k * t;
      SteadyReads(k - 1, h, t);
      SteadyStep(k - 1, h, t);
    }
  }

  /** 32.7 degrees is the largest temperature for which the ordering is
      guaranteed: with a steady 32.8 degrees the 200th sum of a window,
      65600, wraps to 64, so the window ends with an average of 0 below
      minimum and maximum 328. */
  lemma HotWindowWraps()
    ensures Run(Initial, Repeat(200, 0, 328)) == Stats(0, 0, 328, 0, 328, 0)
  {
    SteadyReads(199, 0, 328);
    assert Repeat(200, 0, 328)[..199] == Repeat(199, 0, 328);
  }

  /** A sample of exactly 0 is taken for "no minimum yet": after 0.0 and
      1.0 degrees the minimum is above the average. */
  lemma ZeroSampleBreaksOrder()
    ensures var r := Run(Initial, [Read(DhtOk(0, 0)), Read(DhtOk(0, 10))]);
      r.tempMin == 10 && r.tempAvg == 5 && r.tempMax == 10
  {
    var ops := [Read(DhtOk(0, 0)), Read(DhtOk(0, 10))];
    assert ops[..1] == [Read(DhtOk(0, 0))] && ops[..1][..0] == [];
  }

  /** A negative temperature is stored into the unsigned fields modulo
      2^16: -0.5 degrees as the first sample becomes a minimum and an
      average of 6553.1 degrees, while the maximum stays 0. */
  lemma NegativeSampleWraps()
    ensures var r := AfterRead(Initial, DhtOk(0, -5));
      r.tempSum == 65531 && r.tempMin == 65531 && r.tempAvg == 65531 && r.tempMax == 0
  {
  }

  /** Three reads of 45.0 % and 21.5, 22.0 and 20.5 degrees through the
      store, as the component's callers see them. */
  method ThreeReadsScenario() returns (temps: TempData, humidity: u8, notified: bool)
    ensures temps == TempData(213, 205, 220)
    ensures humidity == 45
    ensures notified
  {
    var store := new SensorStore();
    var n1 := store.ReadDht(DhtOk(450, 215));
    var n2 := store.ReadDht(DhtOk(450, 220));
    var n3 := store.ReadDht(DhtOk(450, 205));
    temps := store.GetTemperatures();
    humidity := store.GetHumidity();
    notified := n1 && n2 && n3;
  }

  /** Three failed reads through the store: no event and, apart from
      whatever the driver left in the humidity, unchanged statistics. */
  method ThreeFailuresScenario(h1: i16, h2: i16, h3: i16) returns (before: TempData, after: TempData, notified: bool)
    ensures after == before
    ensures !notified
  {
    var store := new SensorStore();
    var n0 := store.ReadDht(DhtOk(450, 215));
    before := store.GetTemperatures();
    var n1 := store.ReadDht(DhtFailed(h1));
    var n2 := store.ReadDht(DhtFailed(h2));
    var n3 := store.ReadDht(DhtFailed(h3));
    after := store.GetTemperatures();
    notified := n1 || n2 || n3;
  }
}
