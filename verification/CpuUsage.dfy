/** CPU consumed over a window, read off cumulative counters by linear interpolation
    (tests/perf/src/cpu.rs:22-124). Times are milliseconds; reals are exact. */
module CpuUsage {
  import opened Wrappers

  datatype CpuStat = CpuStat(
    usageUsec: nat, userUsec: nat, systemUsec: nat, nrThrottled: nat, throttledUsec: nat)

  datatype Sample = Sample(unixMs: nat, stat: CpuStat)

  type Pick = CpuStat -> nat

  ghost predicate InOrder(samples: seq<Sample>) {
    forall i, j :: 0 <= i <= j < |samples| ==> samples[i].unixMs <= samples[j].unixMs
  }

  ghost predicate Growing(samples: seq<Sample>, pick: Pick) {
    forall i, j :: 0 <= i <= j < |samples| ==> pick(samples[i].stat) <= pick(samples[j].stat)
  }

  predicate Covered(samples: seq<Sample>, at: nat) {
    samples != [] && samples[0].unixMs <= at <= samples[|samples| - 1].unixMs
  }

  /** `partition_point(|s| s.unix_ms < at)` by bisection of `[low, high]`. */
  function PartitionPoint(samples: seq<Sample>, at: nat, low: nat, high: nat): (k: nat)
    requires InOrder(samples) && low <= high <= |samples|
    requires forall i :: 0 <= i < low ==> samples[i].unixMs < at
    requires forall i :: high <= i < |samples| ==> at <= samples[i].unixMs
    ensures low <= k <= high
    ensures forall i :: 0 <= i < k ==> samples[i].unixMs < at
    ensures forall i :: k <= i < |samples| ==> at <= samples[i].unixMs
    decreases high - low
  {
    if low == high then low
    else
      var middle := (low + high) / 2;
      if samples[middle].unixMs < at then PartitionPoint(samples, at, middle + 1, high)
      else PartitionPoint(samples, at, low, middle)
  }

  /** The first sample at or after `at`. */
  function Upper(samples: seq<Sample>, at: nat): (k: nat)
    requires InOrder(samples) && Covered(samples, at)
    ensures k < |samples| && at <= samples[k].unixMs
    ensures forall i :: 0 <= i < k ==> samples[i].unixMs < at
  {
    PartitionPoint(samples, at, 0, |samples|)
  }

  /** The value `fraction` of the way from `a` to `b`. */
  function Between(a: real, b: real, passed: nat, length: nat): real
    requires 0 < length
  {
    a + (b - a) * (passed as real / length as real)
  }

  function CounterAt(samples: seq<Sample>, at: nat, pick: Pick): Option<real>
    requires InOrder(samples)
  {
    if !Covered(samples, at) then None
    else
      var k := Upper(samples, at);
      var hi := samples[k];
      if hi.unixMs == at || k == 0 then Some(pick(hi.stat) as real)
      else
        var lo := samples[k - 1];
        Some(Between(pick(lo.stat) as real, pick(hi.stat) as real,
                     at - lo.unixMs, hi.unixMs - lo.unixMs))
  }

  /** At a sampled instant the counter is what the first sample of that instant read. */
  lemma AtASample(samples: seq<Sample>, i: nat, pick: Pick)
    requires InOrder(samples) && i < |samples|
    requires forall j :: 0 <= j < i ==> samples[j].unixMs < samples[i].unixMs
    ensures CounterAt(samples, samples[i].unixMs, pick) == Some(pick(samples[i].stat) as real)
  {}

  lemma BetweenBounds(a: real, b: real, passed: nat, length: nat)
    requires passed <= length && 0 < length
    ensures a <= b ==> a <= Between(a, b, passed, length) <= b
    ensures b <= a ==> b <= Between(a, b, passed, length) <= a
  {
    var f := passed as real / length as real;
    Fraction(passed, length);
    Product(b - a, f);
  }

  lemma Fraction(passed: nat, length: nat)
    requires passed <= length && 0 < length
    ensures 0.0 <= passed as real / length as real <= 1.0
  {}

  lemma Product(d: real, f: real)
    requires 0.0 <= f <= 1.0
    ensures 0.0 <= d ==> 0.0 <= d * f <= d
    ensures d <= 0.0 ==> d <= d * f <= 0.0
  {}

  lemma BetweenGrows(a: real, b: real, passed: nat, later: nat, length: nat)
    requires a <= b && passed <= later && 0 < length
    ensures Between(a, b, passed, length) <= Between(a, b, later, length)
  {}

  /** Between two samples the value stays between theirs, whichever way the counter went. */
  lemma StaysInBracket(samples: seq<Sample>, at: nat, pick: Pick)
    requires InOrder(samples) && Covered(samples, at)
    ensures var k := Upper(samples, at);
      var v := CounterAt(samples, at, pick).value;
      var hi := pick(samples[k].stat) as real;
      var lo := if k == 0 then hi else pick(samples[k - 1].stat) as real;
      if lo <= hi then lo <= v <= hi else hi <= v <= lo
  {
    var k := Upper(samples, at);
    if k > 0 && samples[k].unixMs != at {
      BetweenBounds(pick(samples[k - 1].stat) as real, pick(samples[k].stat) as real,
                    at - samples[k - 1].unixMs, samples[k].unixMs - samples[k - 1].unixMs);
    }
  }

  /** And it moves from the one to the other in proportion to the time that has passed. */
  lemma LinearInBracket(samples: seq<Sample>, at: nat, pick: Pick)
    requires InOrder(samples) && Covered(samples, at) && Upper(samples, at) > 0
    requires at < samples[Upper(samples, at)].unixMs
    ensures var k := Upper(samples, at);
      var lo, hi := samples[k - 1], samples[k];
      (CounterAt(samples, at, pick).value - pick(lo.stat) as real) * (hi.unixMs - lo.unixMs) as real
        == (pick(hi.stat) as real - pick(lo.stat) as real) * (at - lo.unixMs) as real
  {
    var k := Upper(samples, at);
    var lo, hi := samples[k - 1], samples[k];
    var passed, length := at - lo.unixMs, hi.unixMs - lo.unixMs;
    var f := passed as real / length as real;
    var rise := pick(hi.stat) as real - pick(lo.stat) as real;
    assert f * length as real == passed as real;
    assert (rise * f) * length as real == rise * (f * length as real);
  }

  /** A counter that only grows is read as one that only grows. */
  lemma GrowsWithTime(samples: seq<Sample>, at: nat, later: nat, pick: Pick)
    requires InOrder(samples) && Growing(samples, pick)
    requires Covered(samples, at) && Covered(samples, later) && at <= later
    ensures CounterAt(samples, at, pick).value <= CounterAt(samples, later, pick).value
  {
    var k, m := Upper(samples, at), Upper(samples, later);
    StaysInBracket(samples, at, pick);
    StaysInBracket(samples, later, pick);
    UpperGrows(samples, at, later);
    if k < m {
      assert pick(samples[k].stat) <= pick(samples[m - 1].stat);
      assert pick(samples[m - 1].stat) <= pick(samples[m].stat);
      assert k > 0 ==> pick(samples[k - 1].stat) <= pick(samples[k].stat);
    } else if k > 0 && samples[k].unixMs != later {
      BetweenGrows(pick(samples[k - 1].stat) as real, pick(samples[k].stat) as real,
                   at - samples[k - 1].unixMs, later - samples[k - 1].unixMs,
                   samples[k].unixMs - samples[k - 1].unixMs);
    } else if k > 0 {
      assert pick(samples[k - 1].stat) <= pick(samples[k].stat);
    }
  }

  lemma UpperGrows(samples: seq<Sample>, at: nat, later: nat)
    requires InOrder(samples) && Covered(samples, at) && Covered(samples, later) && at <= later
    ensures Upper(samples, at) <= Upper(samples, later)
  {}

  // ---- windows ----

  datatype Usage = Usage(
    cpuS: real, userS: real, systemS: real, nrThrottled: int, throttledS: real, samples: nat)

  function NotNegative(x: real): real { if x < 0.0 then 0.0 else x }

  function Delta(samples: seq<Sample>, start: nat, end: nat, pick: Pick): Option<real>
    requires InOrder(samples)
  {
    var a, b := CounterAt(samples, start, pick), CounterAt(samples, end, pick);
    if a.None? || b.None? then None else Some(NotNegative(b.value - a.value))
  }

  /** `f64::round` */
  function Round(x: real): int {
    if x < 0.0 then -((0.5 - x).Floor) else (x + 0.5).Floor
  }

  /** The nearest whole number, and of two as near the one further from zero. */
  lemma RoundsToNearest(x: real, n: int)
    ensures -0.5 <= x - Round(x) as real <= 0.5
    ensures n as real == x + 0.5 && x >= 0.0 ==> Round(x) == n
    ensures n as real == x - 0.5 && x <= 0.0 ==> Round(x) == n
    ensures -0.5 < x - n as real < 0.5 ==> Round(x) == n
  {}

  function WindowUsage(samples: seq<Sample>, start: nat, end: nat): Option<Usage>
    requires InOrder(samples)
  {
    if end < start then None
    else
      var usage := Delta(samples, start, end, (s: CpuStat) => s.usageUsec);
      var user := Delta(samples, start, end, (s: CpuStat) => s.userUsec);
      var system := Delta(samples, start, end, (s: CpuStat) => s.systemUsec);
      var throttles := Delta(samples, start, end, (s: CpuStat) => s.nrThrottled);
      var throttled := Delta(samples, start, end, (s: CpuStat) => s.throttledUsec);
      if usage.None? || user.None? || system.None? || throttles.None? || throttled.None? then None
      else Some(Usage(
        usage.value / 1000000.0, user.value / 1000000.0, system.value / 1000000.0,
        Round(throttles.value), throttled.value / 1000000.0, |samples|))
  }

  /** A window has a usage exactly when it is not inverted and both its ends were sampled
      around; no figure of it is ever negative, even over a counter that was reset. */
  lemma UsageWhenCovered(samples: seq<Sample>, start: nat, end: nat)
    requires InOrder(samples)
    ensures var u := WindowUsage(samples, start, end);
      && (u.Some? <==> start <= end && Covered(samples, start) && Covered(samples, end))
      && (u.Some? ==>
          u.value.cpuS >= 0.0 && u.value.userS >= 0.0 && u.value.systemS >= 0.0
          && u.value.nrThrottled >= 0 && u.value.throttledS >= 0.0)
  {}

  /** Between two sampled instants each figure is the difference of its own counter, in seconds
      where the counter is in microseconds, and 0 if the counter went down. */
  lemma UsageBetweenSamples(samples: seq<Sample>, i: nat, j: nat)
    requires InOrder(samples) && i <= j < |samples|
    requires forall k :: 0 <= k < i ==> samples[k].unixMs < samples[i].unixMs
    requires forall k :: 0 <= k < j ==> samples[k].unixMs < samples[j].unixMs
    ensures var a, b := samples[i].stat, samples[j].stat;
      WindowUsage(samples, samples[i].unixMs, samples[j].unixMs) == Some(Usage(
        Grown(a.usageUsec, b.usageUsec) as real / 1000000.0,
        Grown(a.userUsec, b.userUsec) as real / 1000000.0,
        Grown(a.systemUsec, b.systemUsec) as real / 1000000.0,
        Grown(a.nrThrottled, b.nrThrottled),
        Grown(a.throttledUsec, b.throttledUsec) as real / 1000000.0,
        |samples|))
  {
    DeltaBetweenSamples(samples, i, j, (s: CpuStat) => s.usageUsec);
    DeltaBetweenSamples(samples, i, j, (s: CpuStat) => s.userUsec);
    DeltaBetweenSamples(samples, i, j, (s: CpuStat) => s.systemUsec);
    DeltaBetweenSamples(samples, i, j, (s: CpuStat) => s.nrThrottled);
    DeltaBetweenSamples(samples, i, j, (s: CpuStat) => s.throttledUsec);
    var throttles := Grown(samples[i].stat.nrThrottled, samples[j].stat.nrThrottled);
    assert Round(throttles as real) == throttles;
  }

  function Grown(before: nat, after: nat): nat { if after < before then 0 else after - before }

  lemma DeltaBetweenSamples(samples: seq<Sample>, i: nat, j: nat, pick: Pick)
    requires InOrder(samples) && i <= j < |samples|
    requires forall k :: 0 <= k < i ==> samples[k].unixMs < samples[i].unixMs
    requires forall k :: 0 <= k < j ==> samples[k].unixMs < samples[j].unixMs
    ensures Delta(samples, samples[i].unixMs, samples[j].unixMs, pick)
      == Some(Grown(pick(samples[i].stat), pick(samples[j].stat)) as real)
  {
    AtASample(samples, i, pick);
    AtASample(samples, j, pick);
  }

  // ---- windows over a counter that may drop ----

  function Up(x: real, y: real): real { NotNegative(y - x) }

  /** All the rises, and all the falls, along a list of readings. */
  function Rise(points: seq<real>): real {
    if |points| < 2 then 0.0 else Up(points[0], points[1]) + Rise(points[1..])
  }

  function Fall(points: seq<real>): real {
    if |points| < 2 then 0.0 else Up(points[1], points[0]) + Fall(points[1..])
  }

  lemma {:induction false} RiseLessFall(points: seq<real>)
    requires points != []
    ensures points[|points| - 1] - points[0] == Rise(points) - Fall(points)
    ensures Rise(points) >= 0.0 && Fall(points) >= 0.0
  {
    if |points| > 1 { RiseLessFall(points[1..]); }
  }

  lemma {:induction false} RiseJoins(p: seq<real>, q: seq<real>)
    requires p != [] && q != []
    ensures Rise(p + q) == Rise(p) + Up(p[|p| - 1], q[0]) + Rise(q)
  {
    if |p| == 1 {
      assert (p + q)[1..] == q;
    } else {
      assert (p + q)[1..] == p[1..] + q;
      RiseJoins(p[1..], q);
    }
  }

  predicate Amid(x: real, v: real, y: real) { x <= v <= y || y <= v <= x }

  /** A reading in the middle of a straight stretch splits its rises and makes no new ones. */
  lemma RiseSplits(p: seq<real>, v: real, q: seq<real>)
    requires p != [] && q != [] && Amid(p[|p| - 1], v, q[0])
    ensures Rise(p + q) == Rise(p + [v]) + Rise([v] + q)
  {
    RiseJoins(p, q);
    RiseJoins(p, [v]);
    RiseJoins([v], q);
  }

  function Values(samples: seq<Sample>, pick: Pick): (r: seq<real>)
    ensures |r| == |samples| && forall i :: 0 <= i < |r| ==> r[i] == pick(samples[i].stat) as real
  {
    seq(|samples|, i requires 0 <= i < |samples| => pick(samples[i].stat) as real)
  }

  /** The readings of a window: at its start, at the samples from there on and before its end,
      and at its end. */
  function Readings(samples: seq<Sample>, start: nat, end: nat, pick: Pick): (r: seq<real>)
    requires InOrder(samples) && start <= end && Covered(samples, start) && Covered(samples, end)
    ensures |r| >= 2 && r[0] == CounterAt(samples, start, pick).value
    ensures r[|r| - 1] == CounterAt(samples, end, pick).value
  {
    UpperGrows(samples, start, end);
    var inner := samples[Upper(samples, start)..Upper(samples, end)];
    [CounterAt(samples, start, pick).value] + Values(inner, pick) + [CounterAt(samples, end, pick).value]
  }

  /** What the counter gained within the window, and what it lost to resets. */
  function Gain(samples: seq<Sample>, start: nat, end: nat, pick: Pick): real
    requires InOrder(samples) && start <= end && Covered(samples, start) && Covered(samples, end)
  {
    Rise(Readings(samples, start, end, pick))
  }

  function Loss(samples: seq<Sample>, start: nat, end: nat, pick: Pick): real
    requires InOrder(samples) && start <= end && Covered(samples, start) && Covered(samples, end)
  {
    Fall(Readings(samples, start, end, pick))
  }

  /** The usage of a window is its gain less its loss, if that is positive: never more than what
      was gained, and all of it exactly when nothing was lost (or there was nothing to lose). */
  lemma UsageIsGainLessLoss(samples: seq<Sample>, start: nat, end: nat, pick: Pick)
    requires InOrder(samples) && start <= end && Covered(samples, start) && Covered(samples, end)
    ensures var gain, loss := Gain(samples, start, end, pick), Loss(samples, start, end, pick);
      var usage := Delta(samples, start, end, pick).value;
      && usage == NotNegative(gain - loss) <= gain
      && (usage == gain <==> loss == 0.0 || gain == 0.0)
  {
    RiseLessFall(Readings(samples, start, end, pick));
  }

  /** Within one bracket the counter moves one way. */
  lemma OneWay(samples: seq<Sample>, at: nat, later: nat, pick: Pick)
    requires InOrder(samples) && Covered(samples, at) && Covered(samples, later) && at <= later
    requires Upper(samples, at) == Upper(samples, later)
    ensures var k := Upper(samples, at);
      var va, vb := CounterAt(samples, at, pick).value, CounterAt(samples, later, pick).value;
      && Amid(va, vb, pick(samples[k].stat) as real)
      && (k > 0 ==> Amid(pick(samples[k - 1].stat) as real, va, vb))
  {
    var k := Upper(samples, at);
    StaysInBracket(samples, at, pick);
    StaysInBracket(samples, later, pick);
    if k > 0 && samples[k].unixMs != at && samples[k].unixMs != later {
      var lo, hi := samples[k - 1], samples[k];
      var a, b := pick(lo.stat) as real, pick(hi.stat) as real;
      var p, q, length := at - lo.unixMs, later - lo.unixMs, hi.unixMs - lo.unixMs;
      if a <= b { BetweenGrows(a, b, p, q, length); } else { BetweenFalls(a, b, p, q, length); }
    }
  }

  lemma BetweenFalls(a: real, b: real, passed: nat, later: nat, length: nat)
    requires b <= a && passed <= later && 0 < length
    ensures Between(a, b, later, length) <= Between(a, b, passed, length)
  {
    BetweenGrows(-a, -b, passed, later, length);
    var f, g := passed as real / length as real, later as real / length as real;
    assert (-b - -a) * f == -((b - a) * f) && (-b - -a) * g == -((b - a) * g);
  }

  /** The last reading of a window before its end, and the first after its start. */
  function LastBefore(samples: seq<Sample>, start: nat, end: nat, pick: Pick): real
    requires InOrder(samples) && start <= end && Covered(samples, start) && Covered(samples, end)
  {
    UpperGrows(samples, start, end);
    var m := Upper(samples, end);
    if Upper(samples, start) == m then CounterAt(samples, start, pick).value
    else pick(samples[m - 1].stat) as real
  }

  function FirstAfter(samples: seq<Sample>, start: nat, end: nat, pick: Pick): real
    requires InOrder(samples) && start <= end && Covered(samples, start) && Covered(samples, end)
  {
    var m := Upper(samples, start);
    if m == Upper(samples, end) then CounterAt(samples, end, pick).value
    else pick(samples[m].stat) as real
  }

  /** At an inner instant the counter stands between its neighbours among the readings, ... */
  lemma StandsAmid(samples: seq<Sample>, a: nat, b: nat, c: nat, pick: Pick)
    requires InOrder(samples) && a <= b <= c
    requires Covered(samples, a) && Covered(samples, b) && Covered(samples, c)
    ensures Amid(LastBefore(samples, a, b, pick), CounterAt(samples, b, pick).value,
                 FirstAfter(samples, b, c, pick))
  {
    var k, m, n := Upper(samples, a), Upper(samples, b), Upper(samples, c);
    UpperGrows(samples, a, b);
    StaysInBracket(samples, b, pick);
    if k == m { OneWay(samples, a, b, pick); }
    if m == n { OneWay(samples, b, c, pick); }
    if k == m && m == n { OneWayThrough(samples, a, b, c, pick); }
  }

  lemma ValuesSplit(samples: seq<Sample>, k: nat, m: nat, n: nat, pick: Pick)
    requires k <= m <= n <= |samples|
    ensures Values(samples[k..n], pick) == Values(samples[k..m], pick) + Values(samples[m..n], pick)
  {}

  lemma Regroup(x: real, u: seq<real>, w: seq<real>, y: real)
    ensures [x] + (u + w) + [y] == ([x] + u) + (w + [y])
  {}

  /** The readings of a window without the one at its end, and without the one at its start. */
  function Front(samples: seq<Sample>, start: nat, end: nat, pick: Pick): (r: seq<real>)
    requires InOrder(samples) && start <= end && Covered(samples, start) && Covered(samples, end)
    ensures r != [] && r[|r| - 1] == LastBefore(samples, start, end, pick)
    ensures Readings(samples, start, end, pick) == r + [CounterAt(samples, end, pick).value]
  {
    UpperGrows(samples, start, end);
    [CounterAt(samples, start, pick).value]
      + Values(samples[Upper(samples, start)..Upper(samples, end)], pick)
  }

  function Back(samples: seq<Sample>, start: nat, end: nat, pick: Pick): (r: seq<real>)
    requires InOrder(samples) && start <= end && Covered(samples, start) && Covered(samples, end)
    ensures r != [] && r[0] == FirstAfter(samples, start, end, pick)
    ensures Readings(samples, start, end, pick) == [CounterAt(samples, start, pick).value] + r
  {
    UpperGrows(samples, start, end);
    var inner := Values(samples[Upper(samples, start)..Upper(samples, end)], pick);
    Regroup(CounterAt(samples, start, pick).value, [], inner, CounterAt(samples, end, pick).value);
    assert [] + inner == inner;
    inner + [CounterAt(samples, end, pick).value]
  }

  /** ... and the readings of a window split into those of its two parts. */
  lemma ReadingsSplit(samples: seq<Sample>, a: nat, b: nat, c: nat, pick: Pick)
    requires InOrder(samples) && a <= b <= c
    requires Covered(samples, a) && Covered(samples, b) && Covered(samples, c)
    ensures Readings(samples, a, c, pick) == Front(samples, a, b, pick) + Back(samples, b, c, pick)
  {
    UpperGrows(samples, a, b);
    UpperGrows(samples, b, c);
    var k, m, n := Upper(samples, a), Upper(samples, b), Upper(samples, c);
    ValuesSplit(samples, k, m, n, pick);
    Regroup(CounterAt(samples, a, pick).value, Values(samples[k..m], pick), Values(samples[m..n], pick),
            CounterAt(samples, c, pick).value);
  }

  lemma OneWayThrough(samples: seq<Sample>, a: nat, b: nat, c: nat, pick: Pick)
    requires InOrder(samples) && a <= b <= c
    requires Covered(samples, a) && Covered(samples, b) && Covered(samples, c)
    requires Upper(samples, a) == Upper(samples, b) == Upper(samples, c)
    ensures Amid(CounterAt(samples, a, pick).value, CounterAt(samples, b, pick).value,
                 CounterAt(samples, c, pick).value)
  {
    OneWay(samples, a, b, pick);
    OneWay(samples, b, c, pick);
    OneWay(samples, a, c, pick);
    StaysInBracket(samples, b, pick);
  }

  /** Gains add up over adjacent windows, and so do losses, resets or not. */
  lemma GainsAdd(samples: seq<Sample>, a: nat, b: nat, c: nat, pick: Pick)
    requires InOrder(samples) && a <= b <= c
    requires Covered(samples, a) && Covered(samples, b) && Covered(samples, c)
    ensures Gain(samples, a, c, pick) == Gain(samples, a, b, pick) + Gain(samples, b, c, pick)
    ensures Loss(samples, a, c, pick) == Loss(samples, a, b, pick) + Loss(samples, b, c, pick)
  {
    ReadingsSplit(samples, a, b, c, pick);
    StandsAmid(samples, a, b, c, pick);
    RiseSplits(Front(samples, a, b, pick), CounterAt(samples, b, pick).value, Back(samples, b, c, pick));
    RiseLessFall(Readings(samples, a, b, pick));
    RiseLessFall(Readings(samples, b, c, pick));
    RiseLessFall(Readings(samples, a, c, pick));
  }

  /** Usage over adjacent windows adds up exactly when each loses no more to resets than it
      gains, or each loses at least as much. */
  lemma AdjacentWindowsExact(samples: seq<Sample>, a: nat, b: nat, c: nat, pick: Pick)
    requires InOrder(samples) && a <= b <= c
    requires Covered(samples, a) && Covered(samples, b) && Covered(samples, c)
    ensures var first, second := Gain(samples, a, b, pick) - Loss(samples, a, b, pick),
                                 Gain(samples, b, c, pick) - Loss(samples, b, c, pick);
      Delta(samples, a, c, pick).value
        == Delta(samples, a, b, pick).value + Delta(samples, b, c, pick).value
      <==> (first >= 0.0 && second >= 0.0) || (first <= 0.0 && second <= 0.0)
  {
    GainsAdd(samples, a, b, c, pick);
    UsageIsGainLessLoss(samples, a, b, pick);
    UsageIsGainLessLoss(samples, b, c, pick);
    UsageIsGainLessLoss(samples, a, c, pick);
  }

  /** Nothing is lost exactly when no reading of the window is below the one before it. */
  lemma {:induction false} NoFallExact(points: seq<real>)
    ensures Fall(points) == 0.0 <==> forall i :: 0 < i < |points| ==> points[i - 1] <= points[i]
  {
    if |points| > 1 {
      var rest := points[1..];
      NoFallExact(rest);
      RiseLessFall(rest);
      if forall i :: 0 < i < |points| ==> points[i - 1] <= points[i] {
        forall i | 0 < i < |rest| ensures rest[i - 1] <= rest[i] {
          assert rest[i - 1] == points[i] && rest[i] == points[i + 1];
        }
      }
      if points[0] <= points[1] && forall i :: 0 < i < |rest| ==> rest[i - 1] <= rest[i] {
        forall i | 0 < i < |points| ensures points[i - 1] <= points[i] {
          if i > 1 { assert rest[i - 2] <= rest[i - 1]; }
        }
      }
    }
  }

  /** CPU seconds of a container that was not restarted are additive over adjacent windows. */
  lemma AdjacentWindowsAdd(samples: seq<Sample>, a: nat, b: nat, c: nat)
    requires InOrder(samples) && Growing(samples, (s: CpuStat) => s.usageUsec)
    requires a <= b <= c && Covered(samples, a) && Covered(samples, c)
    ensures Covered(samples, b)
    ensures WindowUsage(samples, a, c).value.cpuS
      == WindowUsage(samples, a, b).value.cpuS + WindowUsage(samples, b, c).value.cpuS
  {
    var pick := (s: CpuStat) => s.usageUsec;
    GrowsWithTime(samples, a, b, pick);
    GrowsWithTime(samples, b, c, pick);
    GrowsWithTime(samples, a, c, pick);
    CpuOf(samples, a, b);
    CpuOf(samples, b, c);
    CpuOf(samples, a, c);
  }

  lemma CpuOf(samples: seq<Sample>, start: nat, end: nat)
    requires InOrder(samples) && start <= end && Covered(samples, start) && Covered(samples, end)
    ensures WindowUsage(samples, start, end).Some?
    ensures WindowUsage(samples, start, end).value.cpuS
      == Delta(samples, start, end, (s: CpuStat) => s.usageUsec).value / 1000000.0
  {}
}
