/** Response-time histograms of the perf harness: nearest-rank percentiles, merging, and the
    measured window (tests/perf/src/summary.rs:33-54, 88-103, 140-149). */
module Percentiles {
  import opened Wrappers
  import opened Ordered

  /** Response time in milliseconds to number of requests. */
  type Histogram = h: map<int, nat> | forall k :: k in h ==> 0 <= k witness map[]

  function At(h: Histogram, ms: int): nat { if ms in h then h[ms] else 0 }

  /** The number of requests faster than `ms`. */
  function Below(h: Histogram, ms: nat): nat {
    if ms == 0 then 0 else Below(h, ms - 1) + At(h, ms - 1)
  }

  function SumOver(h: Histogram, keys: seq<int>): nat {
    if keys == [] then 0 else SumOver(h, keys[..|keys| - 1]) + At(h, keys[|keys| - 1])
  }

  /** `times.values().sum()` */
  function Total(h: Histogram): nat { SumOver(h, SortedKeys(h.Keys)) }

  /** One past the slowest response time. */
  function End(h: Histogram): nat {
    var keys := SortedKeys(h.Keys);
    assert forall k :: k in keys ==> k in h;
    if keys == [] then 0 else keys[|keys| - 1] + 1
  }

  /** Every request's time, in ascending order: the list a histogram stands for. */
  function Expansion(h: Histogram, end: nat): (r: seq<int>)
    ensures |r| == Below(h, end)
  {
    if end == 0 then [] else Expansion(h, end - 1) + seq(At(h, end - 1), _ => end - 1)
  }

  lemma {:induction false} ExpansionAt(h: Histogram, end: nat, i: nat)
    requires i < Below(h, end)
    ensures var ms := Expansion(h, end)[i];
      0 <= ms < end && Below(h, ms) <= i < Below(h, ms + 1)
  {
    if i < Below(h, end - 1) { ExpansionAt(h, end - 1, i); }
  }

  /** It is sorted, and holds each time as often as the histogram counts it. */
  lemma ExpansionIsFaithful(h: Histogram, end: nat)
    ensures forall i, j :: 0 <= i <= j < |Expansion(h, end)| ==> Expansion(h, end)[i] <= Expansion(h, end)[j]
    ensures forall ms :: multiset(Expansion(h, end))[ms] == if 0 <= ms < end then At(h, ms) else 0
  {
    ExpansionSorted(h, end);
    ExpansionCounts(h, end);
  }

  lemma {:induction false} ExpansionSorted(h: Histogram, end: nat)
    ensures forall i, j :: 0 <= i <= j < |Expansion(h, end)| ==> Expansion(h, end)[i] <= Expansion(h, end)[j]
  {
    if end > 0 {
      ExpansionSorted(h, end - 1);
      var front := Expansion(h, end - 1);
      forall i | 0 <= i < |front| ensures front[i] < end - 1 { ExpansionAt(h, end - 1, i); }
    }
  }

  lemma {:induction false} ExpansionCounts(h: Histogram, end: nat)
    ensures forall ms :: multiset(Expansion(h, end))[ms] == if 0 <= ms < end then At(h, ms) else 0
  {
    if end > 0 {
      ExpansionCounts(h, end - 1);
      Repeated(end - 1, At(h, end - 1));
    }
  }

  lemma {:induction false} Repeated(v: int, n: nat)
    ensures multiset(seq(n, _ => v)) == multiset{}[v := n]
  {
    if n > 0 {
      Repeated(v, n - 1);
      assert seq(n, _ => v) == seq(n - 1, _ => v) + [v];
    }
  }

  lemma {:induction false} BelowGap(h: Histogram, a: nat, b: nat)
    requires a <= b && forall k :: a <= k < b ==> k !in h
    ensures Below(h, b) == Below(h, a)
  {
    if a < b { BelowGap(h, a, b - 1); }
  }

  lemma {:induction false} BelowMonotone(h: Histogram, a: nat, b: nat)
    requires a <= b
    ensures Below(h, a) <= Below(h, b)
  {
    if a < b { BelowMonotone(h, a, b - 1); }
  }

  /** No key lies between one key and the next. */
  lemma GapBefore(h: Histogram, keys: seq<int>, i: nat, from: nat)
    requires Enumerates(keys, h.Keys) && i < |keys|
    requires from <= keys[i] && (i > 0 ==> keys[i - 1] < from)
    ensures Below(h, keys[i]) == Below(h, from)
  {
    forall k | from <= k < keys[i] ensures k !in h { NoKeyBetween(keys, i, k); }
    BelowGap(h, from, keys[i]);
  }

  /** Walking the keys in order, what has been seen is what lies below the next key. */
  lemma {:induction false} SeenIsBelow(h: Histogram, keys: seq<int>, i: nat)
    requires Enumerates(keys, h.Keys) && i < |keys|
    ensures keys[i] in h && 0 <= keys[i]
    ensures SumOver(h, keys[..i]) == Below(h, keys[i])
    ensures SumOver(h, keys[..i + 1]) == Below(h, keys[i] + 1)
  {
    assert keys[i] in keys;
    assert keys[..i + 1][..i] == keys[..i];
    if i == 0 {
      GapBefore(h, keys, 0, 0);
    } else {
      SeenIsBelow(h, keys, i - 1);
      assert keys[i - 1] < keys[i];
      GapBefore(h, keys, i, keys[i - 1] + 1);
    }
  }

  lemma NoKeyBetween(keys: seq<int>, i: nat, k: int)
    requires Ascending(keys) && i < |keys|
    requires (i > 0 ==> keys[i - 1] < k) && k < keys[i]
    ensures k !in keys
  {}

  lemma LastSeen(h: Histogram, keys: seq<int>)
    requires Enumerates(keys, h.Keys) && keys != []
    ensures 0 <= keys[|keys| - 1] && SumOver(h, keys) == Below(h, keys[|keys| - 1] + 1)
  {
    SeenIsBelow(h, keys, |keys| - 1);
    assert keys[..|keys|] == keys;
  }

  lemma TotalIsBelowEnd(h: Histogram)
    ensures Total(h) == Below(h, End(h))
  {
    var keys := SortedKeys(h.Keys);
    if keys != [] { LastSeen(h, keys); }
  }

  lemma KeysBeforeEnd(h: Histogram, k: int)
    requires k in h
    ensures k < End(h)
  {}

  lemma BelowPastEnd(h: Histogram, ms: nat)
    requires End(h) <= ms
    ensures Below(h, ms) == Total(h)
  {
    TotalIsBelowEnd(h);
    forall k | End(h) <= k < ms ensures k !in h {
      if k in h { KeysBeforeEnd(h, k); }
    }
    BelowGap(h, End(h), ms);
  }

  // ---- percentiles ----

  function Ceil(x: real): int { -((-x).Floor) }

  /** `((q * total).ceil() as u64).clamp(1, total)`; the cast takes a negative value to 0. */
  function Rank(q: real, total: nat): (r: nat)
    requires total > 0
    ensures 1 <= r <= total
  {
    var wanted := Ceil(q * total as real);
    if wanted < 1 then 1 else if wanted > total then total else wanted
  }

  /** Nearest rank: that element of the sorted list of all times. */
  function Percentile(h: Histogram, q: real): Option<int> {
    if Total(h) == 0 then None
    else
      TotalIsBelowEnd(h);
      Some(Expansion(h, End(h))[Rank(q, Total(h)) - 1])
  }

  lemma OneTimePerRank(h: Histogram, p: nat, ms: nat, rank: nat)
    requires Below(h, p) < rank <= Below(h, p + 1) && Below(h, ms) < rank <= Below(h, ms + 1)
    ensures p == ms
  {
    if ms < p { BelowMonotone(h, ms + 1, p); }
    if p < ms { BelowMonotone(h, p + 1, ms); }
  }

  /** A time is the percentile exactly when the rank falls among its requests; it then is the
      time of at least one request. */
  lemma PercentileWhere(h: Histogram, q: real, ms: int)
    requires Total(h) > 0
    ensures Percentile(h, q) == Some(ms)
      <==> 0 <= ms && Below(h, ms) < Rank(q, Total(h)) <= Below(h, ms + 1)
    ensures Percentile(h, q) == Some(ms) ==> ms in h && h[ms] > 0
  {
    TotalIsBelowEnd(h);
    NthWhere(h, End(h), Rank(q, Total(h)), ms);
  }

  lemma NthWhere(h: Histogram, end: nat, rank: nat, ms: int)
    requires 1 <= rank <= Below(h, end)
    ensures Expansion(h, end)[rank - 1] == ms
      <==> 0 <= ms && Below(h, ms) < rank <= Below(h, ms + 1)
    ensures Expansion(h, end)[rank - 1] == ms ==> ms in h && h[ms] > 0
  {
    ExpansionAt(h, end, rank - 1);
    if 0 <= ms && Below(h, ms) < rank <= Below(h, ms + 1) {
      OneTimePerRank(h, Expansion(h, end)[rank - 1], ms, rank);
    }
  }

  lemma RankMonotone(q: real, q': real, n: nat)
    requires n > 0 && q <= q'
    ensures Rank(q, n) <= Rank(q', n)
  {
    Scale(q, q', n as real);
    CeilMonotone(q * n as real, q' * n as real);
  }

  lemma CeilMonotone(x: real, y: real)
    requires x <= y
    ensures Ceil(x) <= Ceil(y)
  {}

  lemma Scale(a: real, b: real, n: real)
    requires a <= b && 0.0 <= n
    ensures a * n <= b * n
  {}

  lemma PercentileMonotone(h: Histogram, q: real, q': real)
    requires Total(h) > 0 && q <= q'
    ensures Percentile(h, q).value <= Percentile(h, q').value
  {
    var n := Total(h);
    RankMonotone(q, q', n);
    var p, p' := Percentile(h, q).value, Percentile(h, q').value;
    PercentileWhere(h, q, p);
    PercentileWhere(h, q', p');
    if p' < p { BelowMonotone(h, p' + 1, p); }
  }

  method Sum(times: Histogram, keys: seq<int>) returns (total: nat)
    ensures total == SumOver(times, keys)
  {
    total := 0;
    for i := 0 to |keys|
      invariant total == SumOver(times, keys[..i])
    {
      assert keys[..i + 1][..i] == keys[..i];
      total := total + At(times, keys[i]);
    }
    assert keys[..|keys|] == keys;
  }

  lemma ReachedIsPercentile(h: Histogram, keys: seq<int>, q: real, at: nat)
    requires Enumerates(keys, h.Keys) && at < |keys| && Total(h) > 0
    requires SumOver(h, keys[..at]) < Rank(q, Total(h)) <= SumOver(h, keys[..at + 1])
    ensures Percentile(h, q) == Some(keys[at])
  {
    SeenIsBelow(h, keys, at);
    PercentileWhere(h, q, keys[at]);
  }

  method PercentileMs(times: Histogram, q: real) returns (found: Option<int>)
    ensures found == Percentile(times, q)
    ensures found.None? <==> Total(times) == 0
  {
    var keys := SortedKeys(times.Keys);
    var total := Sum(times, keys);
    if total == 0 { return None; }
    var at := FirstReaching(times, keys, Rank(q, total));
    ReachedIsPercentile(times, keys, q, at);
    found := Some(keys[at]);
  }

  /** The walk that stops at the first time by which `rank` requests have been seen. */
  method FirstReaching(times: Histogram, keys: seq<int>, rank: nat) returns (at: nat)
    requires 1 <= rank <= SumOver(times, keys)
    ensures at < |keys| && SumOver(times, keys[..at]) < rank <= SumOver(times, keys[..at + 1])
  {
    var seen := 0;
    at := 0;
    assert keys[..|keys|] == keys;
    while at < |keys|
      invariant 0 <= at <= |keys|
      invariant seen == SumOver(times, keys[..at]) && seen < rank
    {
      assert keys[..at + 1][..at] == keys[..at];
      seen := seen + At(times, keys[at]);
      if seen >= rank { return; }
      at := at + 1;
    }
    assert false;
  }

  // ---- merging ----

  function SumAt(hs: seq<Histogram>, ms: int): nat {
    if hs == [] then 0 else SumAt(hs[..|hs| - 1], ms) + At(hs[|hs| - 1], ms)
  }

  function SumBelow(hs: seq<Histogram>, ms: nat): nat {
    if hs == [] then 0 else SumBelow(hs[..|hs| - 1], ms) + Below(hs[|hs| - 1], ms)
  }

  function SumTotal(hs: seq<Histogram>): nat {
    if hs == [] then 0 else SumTotal(hs[..|hs| - 1]) + Total(hs[|hs| - 1])
  }

  ghost predicate MergeOf(h: Histogram, hs: seq<Histogram>) {
    forall ms :: At(h, ms) == SumAt(hs, ms)
  }

  /** `*times.entry(ms).or_default() += count` for every entry of every endpoint. */
  method Merge(endpoints: seq<Histogram>) returns (times: Histogram)
    ensures MergeOf(times, endpoints)
  {
    times := map[];
    for i := 0 to |endpoints|
      invariant MergeOf(times, endpoints[..i])
    {
      assert endpoints[..i + 1][..i] == endpoints[..i];
      times := AddAll(times, endpoints[i]);
    }
    assert endpoints[..|endpoints|] == endpoints;
  }

  method AddAll(into: Histogram, from: Histogram) returns (times: Histogram)
    ensures forall ms :: At(times, ms) == At(into, ms) + At(from, ms)
  {
    var keys := SortedKeys(from.Keys);
    assert forall i :: 0 <= i < |keys| ==> keys[i] in keys;
    times := AddAlong(into, from, keys);
    forall ms ensures At(times, ms) == At(into, ms) + At(from, ms) { PlusAt(into, from, keys, ms); }
  }

  method AddAlong(into: Histogram, from: Histogram, keys: seq<int>) returns (times: Histogram)
    requires forall i :: 0 <= i < |keys| ==> 0 <= keys[i]
    ensures times == Plus(into, from, keys)
  {
    times := into;
    for i := 0 to |keys|
      invariant times == Plus(into, from, keys[..i])
    {
      assert keys[..i + 1][..i] == keys[..i];
      times := times[keys[i] := At(times, keys[i]) + At(from, keys[i])];
    }
    assert keys[..|keys|] == keys;
  }

  function Plus(into: Histogram, from: Histogram, keys: seq<int>): Histogram
    requires forall i :: 0 <= i < |keys| ==> 0 <= keys[i]
  {
    if keys == [] then into
    else
      var sofar, k := Plus(into, from, keys[..|keys| - 1]), keys[|keys| - 1];
      sofar[k := At(sofar, k) + At(from, k)]
  }

  lemma {:induction false} PlusAt(into: Histogram, from: Histogram, keys: seq<int>, ms: int)
    requires Ascending(keys) && forall i :: 0 <= i < |keys| ==> 0 <= keys[i]
    ensures At(Plus(into, from, keys), ms) == At(into, ms) + if ms in keys then At(from, ms) else 0
  {
    if keys != [] {
      var front, last := keys[..|keys| - 1], keys[|keys| - 1];
      PlusAt(into, from, front, ms);
      assert keys == front + [last];
      assert last !in front;
    }
  }

  lemma {:induction false} SumBelowNext(hs: seq<Histogram>, ms: nat)
    ensures SumBelow(hs, ms + 1) == SumBelow(hs, ms) + SumAt(hs, ms)
  {
    if hs != [] { SumBelowNext(hs[..|hs| - 1], ms); }
  }

  lemma {:induction false} SumBelowZero(hs: seq<Histogram>)
    ensures SumBelow(hs, 0) == 0
  {
    if hs != [] { SumBelowZero(hs[..|hs| - 1]); }
  }

  lemma {:induction false} MergedBelow(h: Histogram, hs: seq<Histogram>, ms: nat)
    requires MergeOf(h, hs)
    ensures Below(h, ms) == SumBelow(hs, ms)
  {
    if ms == 0 {
      SumBelowZero(hs);
    } else {
      MergedBelow(h, hs, ms - 1);
      SumBelowNext(hs, ms - 1);
      assert At(h, ms - 1) == SumAt(hs, ms - 1);
    }
  }

  function LastEnd(hs: seq<Histogram>): nat {
    if hs == [] then 0
    else
      var rest, last := LastEnd(hs[..|hs| - 1]), End(hs[|hs| - 1]);
      if rest >= last then rest else last
  }

  lemma {:induction false} SumBelowPastEnd(hs: seq<Histogram>, ms: nat)
    requires LastEnd(hs) <= ms
    ensures SumBelow(hs, ms) == SumTotal(hs)
  {
    if hs != [] {
      SumBelowPastEnd(hs[..|hs| - 1], ms);
      BelowPastEnd(hs[|hs| - 1], ms);
    }
  }

  /** Merging neither loses nor invents a request. */
  lemma MergeConserves(h: Histogram, hs: seq<Histogram>)
    requires MergeOf(h, hs)
    ensures Total(h) == SumTotal(hs)
  {
    var ms := if End(h) >= LastEnd(hs) then End(h) else LastEnd(hs);
    MergedBelow(h, hs, ms);
    SumBelowPastEnd(hs, ms);
    BelowPastEnd(h, ms);
  }

  // ---- the percentile of a merge ----

  lemma RankBounds(q: real, n: nat)
    requires 0.0 <= q <= 1.0 && n > 0
    ensures q * n as real <= Rank(q, n) as real
    ensures q > 0.0 ==> (Rank(q, n) - 1) as real < q * n as real
    ensures q == 0.0 ==> Rank(q, n) == 1
  {}

  lemma RankLeast(q: real, n: nat, m: nat)
    requires n > 0 && 1 <= m && q * n as real <= m as real
    ensures Rank(q, n) <= m
  {}

  lemma RanksReached(q: real, n: nat, upTo: nat, n': nat, upTo': nat)
    requires 0.0 <= q <= 1.0 && n > 0 && n' > 0
    requires Rank(q, n) <= upTo && Rank(q, n') <= upTo'
    ensures Rank(q, n + n') <= upTo + upTo'
  {
    RankBounds(q, n);
    RankBounds(q, n');
    Distribute(q, n as real, n' as real);
    RankLeast(q, n + n', upTo + upTo');
  }

  lemma RanksNotReached(q: real, under: nat, n: nat, under': nat, n': nat)
    requires 0.0 <= q <= 1.0 && n > 0 && n' > 0
    requires under < Rank(q, n) && under' < Rank(q, n')
    ensures under + under' < Rank(q, n + n')
  {
    RankBounds(q, n);
    RankBounds(q, n');
    RankBounds(q, n + n');
    Distribute(q, n as real, n' as real);
  }

  /** Ranks compose: where two counts are each below (or reach) the rank in their own total,
      their sum is below (or reaches) the rank in the sum of the totals. */
  lemma RanksAdd(q: real, under: nat, n: nat, upTo: nat, under': nat, n': nat, upTo': nat)
    requires 0.0 <= q <= 1.0 && n > 0 && n' > 0
    requires under < Rank(q, n) <= upTo && under' < Rank(q, n') <= upTo'
    ensures under + under' < Rank(q, n + n') <= upTo + upTo'
  {
    RanksNotReached(q, under, n, under', n');
    RanksReached(q, n, upTo, n', upTo');
  }

  lemma Distribute(q: real, a: real, b: real)
    ensures q * (a + b) == q * a + q * b
  {}

  function Sums(ns: seq<nat>): nat {
    if ns == [] then 0 else Sums(ns[..|ns| - 1]) + ns[|ns| - 1]
  }

  lemma {:induction false} RanksAddUp(q: real, under: seq<nat>, wholes: seq<nat>, upTo: seq<nat>)
    requires 0.0 <= q <= 1.0 && |under| == |wholes| == |upTo| > 0
    requires forall i :: 0 <= i < |wholes| ==>
      wholes[i] > 0 && under[i] < Rank(q, wholes[i]) <= upTo[i]
    ensures Sums(wholes) > 0 && Sums(under) < Rank(q, Sums(wholes)) <= Sums(upTo)
  {
    var k := |wholes| - 1;
    if k > 0 {
      RanksAddUp(q, under[..k], wholes[..k], upTo[..k]);
      RanksAdd(q, Sums(under[..k]), Sums(wholes[..k]), Sums(upTo[..k]), under[k], wholes[k], upTo[k]);
    } else {
      assert under == [under[0]] && wholes == [wholes[0]] && upTo == [upTo[0]];
    }
  }

  lemma RankAround(h: Histogram, q: real, low: nat, high: nat)
    requires Total(h) > 0 && low <= Percentile(h, q).value <= high
    ensures Below(h, low) < Rank(q, Total(h)) <= Below(h, high + 1)
  {
    var p := Percentile(h, q).value;
    PercentileWhere(h, q, p);
    BelowMonotone(h, low, p);
    BelowMonotone(h, p + 1, high + 1);
  }

  /** A figure of each histogram. */
  function Each(hs: seq<Histogram>, figure: Histogram -> nat): (r: seq<nat>)
    ensures |r| == |hs| && forall i :: 0 <= i < |r| ==> r[i] == figure(hs[i])
  {
    if hs == [] then [] else Each(hs[..|hs| - 1], figure) + [figure(hs[|hs| - 1])]
  }

  lemma {:induction false} EachTotal(hs: seq<Histogram>)
    ensures Sums(Each(hs, Total)) == SumTotal(hs)
  {
    if hs != [] { EachTotal(hs[..|hs| - 1]); }
  }

  function CountBelow(ms: nat): Histogram -> nat { (h: Histogram) => Below(h, ms) }

  lemma {:induction false} EachBelow(hs: seq<Histogram>, ms: nat)
    ensures Sums(Each(hs, CountBelow(ms))) == SumBelow(hs, ms)
  {
    if hs != [] { EachBelow(hs[..|hs| - 1], ms); }
  }

  /** Below a time that no percentile is under lies less than the rank of the merge, and up to
      one that none is over at least that rank. */
  lemma MergedShares(hs: seq<Histogram>, q: real, low: nat, high: nat)
    requires hs != [] && 0.0 <= q <= 1.0
    requires forall x :: x in hs ==> Total(x) > 0 && low <= Percentile(x, q).value <= high
    ensures SumTotal(hs) > 0
    ensures SumBelow(hs, low) < Rank(q, SumTotal(hs)) <= SumBelow(hs, high + 1)
  {
    var wholes := Each(hs, Total);
    var under, upTo := Each(hs, CountBelow(low)), Each(hs, CountBelow(high + 1));
    EachTotal(hs);
    EachBelow(hs, low);
    EachBelow(hs, high + 1);
    forall i | 0 <= i < |hs| ensures wholes[i] > 0 && under[i] < Rank(q, wholes[i]) <= upTo[i] {
      assert hs[i] in hs;
      RankAround(hs[i], q, low, high);
    }
    RanksAddUp(q, under, wholes, upTo);
  }

  /** The percentile of merged histograms lies between the smallest and the largest of theirs:
      it respects every common lower and every common upper bound. */
  lemma MergedPercentileBetween(h: Histogram, hs: seq<Histogram>, q: real, low: nat, high: nat)
    requires MergeOf(h, hs) && hs != [] && 0.0 <= q <= 1.0
    requires forall x :: x in hs ==> Total(x) > 0 && low <= Percentile(x, q).value <= high
    ensures Total(h) > 0 && low <= Percentile(h, q).value <= high
  {
    MergeConserves(h, hs);
    MergedShares(hs, q, low, high);
    MergedBelow(h, hs, low);
    MergedBelow(h, hs, high + 1);
    RankBetween(h, q, low, high);
  }

  lemma RankBetween(h: Histogram, q: real, low: nat, high: nat)
    requires Total(h) > 0 && Below(h, low) < Rank(q, Total(h)) <= Below(h, high + 1)
    ensures low <= Percentile(h, q).value <= high
  {
    var p := Percentile(h, q).value;
    PercentileWhere(h, q, p);
    if p < low { BelowMonotone(h, p + 1, low); }
    if high < p { BelowMonotone(h, high + 1, p); }
  }

  // ---- the measured window ----

  datatype Phase = Increasing | Maintaining | Other

  datatype Window = Window(startMs: nat, endMs: nat, warmupMs: nat)

  function FirstMaintaining(history: seq<(Phase, nat)>): Option<nat> {
    if history == [] then None
    else if history[0].0 == Maintaining then Some(history[0].1)
    else FirstMaintaining(history[1..])
  }

  function FromHistory(history: seq<(Phase, nat)>): Option<Window> {
    if history == [] then None
    else
      var first, last := history[0].1, history[|history| - 1].1;
      var found := FirstMaintaining(history);
      var start := if found.Some? then found.value else first;
      Some(Window(if start < last then start else last, last, if start < first then 0 else start - first))
  }

  lemma {:induction false} FirstMaintainingWithin(history: seq<(Phase, nat)>, low: nat, high: nat)
    requires forall i :: 0 <= i < |history| ==> low <= history[i].1 <= high
    ensures FirstMaintaining(history).Some? ==> low <= FirstMaintaining(history).value <= high
  {
    if history != [] {
      forall i | 0 <= i < |history[1..]| ensures low <= history[1..][i].1 <= high {
        assert history[1..][i] == history[i + 1];
      }
      FirstMaintainingWithin(history[1..], low, high);
    }
  }

  /** The window's duration is never negative, and of a run in order the warm-up and the
      window are the whole. */
  lemma WindowAndWarmupAreTheRun(history: seq<(Phase, nat)>)
    requires history != []
    ensures var w := FromHistory(history).value;
      && w.startMs <= w.endMs
      && ((forall i, j :: 0 <= i <= j < |history| ==> history[i].1 <= history[j].1) ==>
          w.warmupMs + (w.endMs - w.startMs) == history[|history| - 1].1 - history[0].1)
  {
    if forall i, j :: 0 <= i <= j < |history| ==> history[i].1 <= history[j].1 {
      FirstMaintainingWithin(history, history[0].1, history[|history| - 1].1);
    }
  }

  /** The window ends with the last step and starts with the first maintaining one, the warm-up
      being the time until then; without one the whole run counts, and there is no warm-up.
      Neither figure goes below zero, should the steps be out of order. */
  lemma WindowStartsWhenSteady(history: seq<(Phase, nat)>, i: nat)
    requires i < |history| && forall j :: 0 <= j < i ==> history[j].0 != Maintaining
    ensures var w, first, last := FromHistory(history).value, history[0].1, history[|history| - 1].1;
      var steady := history[i].1;
      && w.endMs == last
      && (history[i].0 == Maintaining ==>
          && w.startMs == (if steady < last then steady else last)
          && w.warmupMs == (if steady > first then steady - first else 0))
      && (history[i].0 != Maintaining && i == |history| - 1 ==>
          w.startMs == (if first < last then first else last) && w.warmupMs == 0)
  {
    FirstMaintainingIs(history, i);
  }

  lemma {:induction false} FirstMaintainingIs(history: seq<(Phase, nat)>, i: nat)
    requires i < |history| && forall j :: 0 <= j < i ==> history[j].0 != Maintaining
    ensures history[i].0 == Maintaining ==> FirstMaintaining(history) == Some(history[i].1)
    ensures history[i].0 != Maintaining && i == |history| - 1 ==> FirstMaintaining(history) == None
  {
    if i > 0 {
      forall j | 0 <= j < i - 1 ensures history[1..][j].0 != Maintaining {
        assert history[1..][j] == history[j + 1];
      }
      FirstMaintainingIs(history[1..], i - 1);
    }
  }
}
