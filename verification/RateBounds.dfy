/** What a limit means, over either backend: which checks are refused, and how many can succeed
    in any stretch of time (src/rate_limit.rs:48-54, 90-131). */
module RateBounds {
  import opened Wrappers
  import opened Heroes
  import opened RateLimit

  // ---- the pace of a key ----

  /** A window of a key: the checks it has seen, and when it ends. */
  datatype Open = Open(count: nat, ends: Time)

  function Opened(o: Option<Open>, now: Time, span: nat): Open {
    if o.Some? && now < o.value.ends then Open(o.value.count + 1, o.value.ends)
    else Open(1, now + span)
  }

  /** The window of a key after checks at these times. */
  function Paced(o: Option<Open>, times: seq<Time>, span: nat): Option<Open>
    decreases |times|
  {
    if times == [] then o else Paced(Some(Opened(o, times[0], span)), times[1..], span)
  }

  lemma {:induction false} PacedLast(o: Option<Open>, times: seq<Time>, t: Time, span: nat)
    ensures Paced(o, times + [t], span) == Some(Opened(Paced(o, times, span), t, span))
    decreases |times|
  {
    if times == [] {
      assert times + [t] == [t] && [t][1..] == [];
    } else {
      assert (times + [t])[1..] == times[1..] + [t];
      PacedLast(Some(Opened(o, times[0], span)), times[1..], t, span);
    }
  }

  /** Which check opened the window that check `i` falls into: the times alone decide, not the
      limit and not what was refused. */
  function Opener(times: seq<Time>, span: nat, i: nat): (o: nat)
    requires i < |times|
    ensures o <= i
  {
    if i == 0 then 0
    else
      var previous := Opener(times, span, i - 1);
      if times[i] - times[previous] >= span then i else previous
  }

  /** A window has seen every check since its opener, refused ones included, and ends one window
      length after it: refusals never extend it. */
  lemma {:induction false} WindowCounts(times: seq<Time>, span: nat, i: nat)
    requires i < |times|
    ensures var o := Opener(times, span, i);
      Paced(None, times[..i + 1], span) == Some(Open(i - o + 1, times[o] + span))
  {
    assert times[..i + 1] == times[..i] + [times[i]];
    PacedLast(None, times[..i], times[i], span);
    if i > 0 { WindowCounts(times, span, i - 1); }
  }

  // ---- both backends keep it ----

  /** Which checks on `key` the pace lets pass; what it says of others does not matter. */
  function Verdicts(o: Option<Open>, hits: seq<Hit>, key: string): (r: seq<bool>)
    ensures |r| == |hits|
    decreases |hits|
  {
    if hits == [] then []
    else
      var next := Opened(o, hits[0].now, hits[0].span);
      if hits[0].key == key then [next.count <= hits[0].limit] + Verdicts(Some(next), hits[1..], key)
      else [false] + Verdicts(o, hits[1..], key)
  }

  /** Time does not go back, and `key` keeps one limit and one window length. */
  ghost predicate Regular(hits: seq<Hit>, key: string, limit: U32, span: nat, from: Time) {
    forall i :: 0 <= i < |hits| ==>
      && from <= hits[i].now
      && (forall j :: i < j < |hits| ==> hits[i].now <= hits[j].now)
      && (hits[i].key == key ==> hits[i].limit == limit && hits[i].span == span)
  }

  lemma RegularTail(hits: seq<Hit>, key: string, limit: U32, span: nat, from: Time)
    requires hits != [] && Regular(hits, key, limit, span, from)
    ensures from <= hits[0].now
    ensures hits[0].key == key ==> hits[0].limit == limit && hits[0].span == span
    ensures Regular(hits[1..], key, limit, span, hits[0].now)
  {}

  predicate MemoryTracks(w: Option<Window>, o: Option<Open>, span: nat) {
    match o
    case None => w == None
    case Some(Open(count, ends)) => w.Some? && w.value.count == count && w.value.start + span == ends
  }

  predicate RedisTracks(c: Option<Counter>, o: Option<Open>, now: Time) {
    if o.Some? && now < o.value.ends then
      o.value.count > 0 && c == Some(Counter(o.value.count, Some(o.value.ends)))
    else Live(c, now) == None
  }

  /** No window of `key` in memory wraps its counter. */
  predicate NoWrap(store: map<string, Window>, hits: seq<Hit>, key: string)
    decreases |hits|
  {
    hits != [] ==>
      && (hits[0].key == key ==> MemoryNext(store, hits[0])[key].count > 0)
      && NoWrap(MemoryNext(store, hits[0]), hits[1..], key)
  }

  function Allows(answers: seq<Answer>): (r: seq<bool>)
    ensures |r| == |answers| && forall i :: 0 <= i < |r| ==> r[i] == (answers[i] == Allowed)
  {
    seq(|answers|, i requires 0 <= i < |answers| => answers[i] == Allowed)
  }

  /** The map lets a check pass exactly when the pace does, as long as no counter wraps. */
  lemma {:induction false} MemoryKeepsPace(store: map<string, Window>, o: Option<Open>, hits: seq<Hit>,
                                           key: string, limit: U32, span: nat, from: Time)
    requires Regular(hits, key, limit, span, from) && NoWrap(store, hits, key)
    requires MemoryTracks(Find(store, key), o, span)
    ensures forall i :: 0 <= i < |hits| && hits[i].key == key ==>
      MemoryAnswers(store, hits)[i] == if Verdicts(o, hits, key)[i] then Allowed else TooManyRequests
    decreases |hits|
  {
    if hits != [] {
      var h := hits[0];
      var next := if h.key == key then Some(Opened(o, h.now, h.span)) else o;
      RegularTail(hits, key, limit, span, from);
      assert h.key != key ==> Find(MemoryNext(store, h), key) == Find(store, key);
      MemoryKeepsPace(MemoryNext(store, h), next, hits[1..], key, limit, span, h.now);
      forall i | 0 <= i < |hits| && hits[i].key == key
        ensures MemoryAnswers(store, hits)[i]
          == if Verdicts(o, hits, key)[i] then Allowed else TooManyRequests
      {
        if i > 0 { assert hits[i] == hits[1..][i - 1]; }
      }
    }
  }

  lemma RedisTracksNext(c: Option<Counter>, o: Option<Open>, from: Time, now: Time, span: nat)
    requires RedisTracks(c, o, from) && from <= now
    ensures RedisTracks(c, o, now)
    ensures RedisTracks(RedisHit(c, now, span).0, Some(Opened(o, now, span)), now)
    ensures RedisHit(c, now, span).1 == Opened(o, now, span).count
  {}

  /** The script lets a check pass exactly when the pace does, in every run. */
  lemma {:induction false} RedisKeepsPace(db: map<string, Counter>, o: Option<Open>, hits: seq<Hit>,
                                          key: string, limit: U32, span: nat, from: Time)
    requires Regular(hits, key, limit, span, from)
    requires RedisTracks(Find(db, key), o, from)
    ensures forall i :: 0 <= i < |hits| && hits[i].key == key ==>
      (RedisAnswers(db, hits)[i] == Allowed <==> Verdicts(o, hits, key)[i])
    decreases |hits|
  {
    if hits != [] {
      var h := hits[0];
      var next := if h.key == key then Some(Opened(o, h.now, h.span)) else o;
      RegularTail(hits, key, limit, span, from);
      RedisTracksNext(Find(db, key), o, from, h.now, h.span);
      assert h.key != key ==> Find(RedisNext(db, h), key) == Find(db, key);
      RedisKeepsPace(RedisNext(db, h), next, hits[1..], key, limit, span, h.now);
      forall i | 0 <= i < |hits| && hits[i].key == key
        ensures RedisAnswers(db, hits)[i] == Allowed <==> Verdicts(o, hits, key)[i]
      {
        if i > 0 { assert hits[i] == hits[1..][i - 1]; }
      }
    }
  }

  // ---- which checks are refused ----

  function TimesOn(hits: seq<Hit>, key: string): seq<Time> {
    if hits == [] then []
    else (if hits[0].key == key then [hits[0].now] else []) + TimesOn(hits[1..], key)
  }

  lemma {:induction false} VerdictAt(o: Option<Open>, hits: seq<Hit>, key: string, limit: U32, span: nat,
                                     from: Time, i: nat)
    requires Regular(hits, key, limit, span, from) && i < |hits| && hits[i].key == key
    ensures Verdicts(o, hits, key)[i]
      <==> Opened(Paced(o, TimesOn(hits[..i], key), span), hits[i].now, span).count <= limit
    decreases |hits|
  {
    var h := hits[0];
    if i > 0 {
      RegularTail(hits, key, limit, span, from);
      assert hits[..i][1..] == hits[1..][..i - 1];
      var next := if h.key == key then Some(Opened(o, h.now, span)) else o;
      VerdictAt(next, hits[1..], key, limit, span, h.now, i - 1);
      var later := TimesOn(hits[1..][..i - 1], key);
      assert hits[1..][i - 1] == hits[i] && hits[..i][0] == h;
      if h.key == key {
        assert TimesOn(hits[..i], key) == [h.now] + later;
        assert ([h.now] + later)[1..] == later;
        assert Verdicts(o, hits, key)[i] == Verdicts(next, hits[1..], key)[i - 1];
      } else {
        assert TimesOn(hits[..i], key) == later;
        assert Verdicts(o, hits, key)[i] == Verdicts(next, hits[1..], key)[i - 1];
      }
    }
  }

  /** How many earlier checks hit the window that check `i` of the run falls into: what checks on
      other keys come between does not matter. */
  function EarlierInWindow(hits: seq<Hit>, key: string, span: nat, i: nat): nat
    requires i < |hits|
  {
    var times := TimesOn(hits[..i], key) + [hits[i].now];
    var n := |times| - 1;
    n - Opener(times, span, n)
  }

  lemma VerdictExactly(hits: seq<Hit>, key: string, limit: U32, span: nat, from: Time, i: nat)
    requires Regular(hits, key, limit, span, from) && i < |hits| && hits[i].key == key
    ensures Verdicts(None, hits, key)[i] <==> EarlierInWindow(hits, key, span, i) < limit
  {
    var before := TimesOn(hits[..i], key);
    var times := before + [hits[i].now];
    VerdictAt(None, hits, key, limit, span, from, i);
    PacedLast(None, before, hits[i].now, span);
    WindowCounts(times, span, |before|);
    assert times[..|before| + 1] == times;
  }

  /** Over every run from the start, with any checks on other keys between: Redis refuses a check
      exactly when at least `limit` earlier checks hit the same window, and so does the map unless
      its counter wraps. */
  lemma RefusedExactly(hits: seq<Hit>, key: string, limit: U32, span: nat, from: Time, i: nat)
    requires Regular(hits, key, limit, span, from) && i < |hits| && hits[i].key == key
    ensures RedisAnswers(map[], hits)[i] != Allowed <==> EarlierInWindow(hits, key, span, i) >= limit
    ensures NoWrap(map[], hits, key) ==>
      (MemoryAnswers(map[], hits)[i] == TooManyRequests <==> EarlierInWindow(hits, key, span, i) >= limit)
  {
    VerdictExactly(hits, key, limit, span, from, i);
    RedisKeepsPace(map[], None, hits, key, limit, span, from);
    if NoWrap(map[], hits, key) { MemoryKeepsPace(map[], None, hits, key, limit, span, from); }
  }

  // ---- arithmetic of windows ----

  function CeilDiv(n: nat, d: nat): nat
    requires d > 0
  {
    (n + d - 1) / d
  }

  /** How many windows of length `span` can start from `at` on and before `end`. */
  function Starts(at: Time, end: Time, span: nat): nat
    requires span > 0
  {
    if at >= end then 0 else CeilDiv(end - at, span)
  }

  lemma Quotient(x: nat, d: nat, q: nat, r: nat)
    requires d > 0 && x == q * d + r && r < d
    ensures x / d == q
  {
    var p := x / d;
    assert x == p * d + x % d;
    assert p < q ==> (p + 1) * d <= q * d;
    assert q < p ==> (q + 1) * d <= p * d;
  }

  lemma StartsNext(at: Time, end: Time, span: nat)
    requires span > 0 && at < end
    ensures Starts(at, end, span) == 1 + Starts(at + span, end, span)
  {
    var n := end - at;
    if n > span {
      var m := n - 1;
      var q, r := m / span, m % span;
      assert m + span == (q + 1) * span + r;
      Quotient(m + span, span, q + 1, r);
    } else {
      Quotient(n + span - 1, span, 1, n - 1);
    }
  }

  lemma StartsMonotone(a: Time, b: Time, end: Time, span: nat)
    requires span > 0 && a <= b
    ensures Starts(b, end, span) <= Starts(a, end, span)
  {
    if b < end { DivMonotone(end - b + span - 1, end - a + span - 1, span); }
  }

  lemma DivMonotone(x: nat, y: nat, d: nat)
    requires d > 0 && x <= y
    ensures x / d <= y / d
  {
    var p, q := x / d, y / d;
    assert x == p * d + x % d && y == q * d + y % d;
    assert q < p ==> (q + 1) * d <= p * d;
  }

  lemma Times(limit: nat, a: nat, b: nat)
    requires a <= b
    ensures limit * a <= limit * b
  {}

  // ---- how many can succeed ----

  /** The checks on `key` in `[begin, end)` that pass. */
  function Successes(hits: seq<Hit>, passes: seq<bool>, key: string, begin: Time, end: Time): nat
    requires |passes| == |hits|
    decreases |hits|
  {
    if hits == [] then 0
    else
      var counts := hits[0].key == key && begin <= hits[0].now < end && passes[0];
      (if counts then 1 else 0) + Successes(hits[1..], passes[1..], key, begin, end)
  }

  lemma {:induction false} SameSuccesses(hits: seq<Hit>, a: seq<bool>, b: seq<bool>, key: string,
                                         begin: Time, end: Time)
    requires |a| == |b| == |hits|
    requires forall i :: 0 <= i < |hits| && hits[i].key == key ==> a[i] == b[i]
    ensures Successes(hits, a, key, begin, end) == Successes(hits, b, key, begin, end)
    decreases |hits|
  {
    if hits != [] {
      forall i | 0 <= i < |hits[1..]| && hits[1..][i].key == key ensures a[1..][i] == b[1..][i] {
        assert hits[1..][i] == hits[i + 1];
      }
      SameSuccesses(hits[1..], a[1..], b[1..], key, begin, end);
    }
  }

  /** What can still pass before `end`, from `now` on: the rest of the running window, if it
      still runs, and `limit` for each window that can start after it. */
  function Potential(o: Option<Open>, limit: nat, span: nat, now: Time, end: Time): nat
    requires span > 0
  {
    if o.Some? && now < o.value.ends then
      (if limit > o.value.count then limit - o.value.count else 0)
        + limit * Starts(o.value.ends, end, span)
    else limit * Starts(now, end, span)
  }

  lemma PotentialLater(o: Option<Open>, limit: nat, span: nat, now: Time, later: Time, end: Time)
    requires span > 0 && now <= later
    ensures Potential(o, limit, span, later, end) <= Potential(o, limit, span, now, end)
  {
    if o.Some? && now < o.value.ends {
      if later >= o.value.ends {
        StartsMonotone(o.value.ends, later, end, span);
        Times(limit, Starts(later, end, span), Starts(o.value.ends, end, span));
      }
    } else {
      StartsMonotone(now, later, end, span);
      Times(limit, Starts(later, end, span), Starts(now, end, span));
    }
  }

  /** A check that passes uses up one unit of the potential, and none creates any. */
  lemma PotentialPays(o: Option<Open>, limit: nat, span: nat, now: Time, end: Time)
    requires span > 0 && now < end
    ensures var next := Opened(o, now, span);
      Potential(Some(next), limit, span, now, end) + (if next.count <= limit then 1 else 0)
        <= Potential(o, limit, span, now, end)
  {
    if o.Some? && now < o.value.ends {
    } else {
      StartsNext(now, end, span);
      assert limit * Starts(now, end, span) == limit + limit * Starts(now + span, end, span) by {
        var n := Starts(now + span, end, span);
        assert limit * (1 + n) == limit + limit * n;
      }
    }
  }

  lemma {:induction false} NoneAfterEnd(hits: seq<Hit>, passes: seq<bool>, key: string,
                                        limit: U32, span: nat, from: Time, begin: Time, end: Time)
    requires |passes| == |hits| && Regular(hits, key, limit, span, from) && end <= from
    ensures Successes(hits, passes, key, begin, end) == 0
    decreases |hits|
  {
    if hits != [] {
      RegularTail(hits, key, limit, span, from);
      NoneAfterEnd(hits[1..], passes[1..], key, limit, span, hits[0].now, begin, end);
    }
  }

  lemma {:induction false} WithinPotential(o: Option<Open>, hits: seq<Hit>, key: string, limit: U32,
                                           span: nat, from: Time, begin: Time, end: Time)
    requires span > 0 && Regular(hits, key, limit, span, from)
    ensures Successes(hits, Verdicts(o, hits, key), key, begin, end) <= Potential(o, limit, span, from, end)
    decreases |hits|
  {
    if hits != [] {
      var h := hits[0];
      var next := if h.key == key then Some(Opened(o, h.now, h.span)) else o;
      var passes := Verdicts(o, hits, key);
      assert passes[1..] == Verdicts(next, hits[1..], key);
      RegularTail(hits, key, limit, span, from);
      if end <= h.now {
        NoneAfterEnd(hits[1..], passes[1..], key, limit, span, h.now, begin, end);
      } else {
        WithinPotential(next, hits[1..], key, limit, span, h.now, begin, end);
        PotentialLater(o, limit, span, from, h.now, end);
        if h.key == key { PotentialPays(o, limit, span, h.now, end); }
      }
    }
  }

  /** A window has seen the check that opened it. */
  predicate Counted(o: Option<Open>) { o.Some? ==> o.value.count > 0 }

  /** The most checks of a key that can pass within `length`: `limit` for each window that can
      open in that time; or, if that is more, what is left of a window that was open before and
      ends after the first tick, and `limit` for each that can open in the rest. */
  function MostSuccesses(limit: nat, span: nat, length: nat): nat
    requires span > 0
  {
    if limit == 0 || length == 0 then 0
    else
      var opening := limit * CeilDiv(length, span);
      var running := limit - 1 + limit * CeilDiv(length - 1, span);
      if opening < running then running else opening
  }

  lemma PotentialAtMost(o: Option<Open>, limit: nat, span: nat, begin: Time, length: nat)
    requires span > 0 && Counted(o) && length > 0
    ensures Potential(o, limit, span, begin, begin + length) <= MostSuccesses(limit, span, length)
  {
    var end := begin + length;
    if length == 1 { Quotient(span - 1, span, 0, span - 1); }
    assert Starts(begin + 1, end, span) == CeilDiv(length - 1, span);
    if o.Some? && begin < o.value.ends {
      StartsMonotone(begin + 1, o.value.ends, end, span);
      Times(limit, Starts(o.value.ends, end, span), Starts(begin + 1, end, span));
    }
  }

  /** Which is below `limit * (ceil(length / span) + 1)`. */
  lemma MostAtMost(limit: nat, span: nat, length: nat)
    requires span > 0
    ensures MostSuccesses(limit, span, length) <= limit * (CeilDiv(length, span) + 1)
  {
    var n := CeilDiv(length, span);
    assert limit * (n + 1) == limit * n + limit;
    if length > 0 {
      DivMonotone(length - 1 + span - 1, length + span - 1, span);
      Times(limit, CeilDiv(length - 1, span), n);
    }
  }

  lemma {:induction false} PaceBounded(o: Option<Open>, hits: seq<Hit>, key: string, limit: U32, span: nat,
                                       from: Time, begin: Time, length: nat)
    requires span > 0 && Counted(o) && Regular(hits, key, limit, span, from)
    ensures Successes(hits, Verdicts(o, hits, key), key, begin, begin + length)
      <= MostSuccesses(limit, span, length)
    decreases |hits|
  {
    if hits != [] && hits[0].now < begin {
      var h := hits[0];
      var next := if h.key == key then Some(Opened(o, h.now, h.span)) else o;
      assert Verdicts(o, hits, key)[1..] == Verdicts(next, hits[1..], key);
      RegularTail(hits, key, limit, span, from);
      PaceBounded(next, hits[1..], key, limit, span, h.now, begin, length);
    } else if hits != [] {
      RegularFrom(hits, key, limit, span, from, begin);
      if length == 0 {
        NoneAfterEnd(hits, Verdicts(o, hits, key), key, limit, span, begin, begin, begin);
      } else {
        WithinPotential(o, hits, key, limit, span, begin, begin, begin + length);
        PotentialAtMost(o, limit, span, begin, length);
      }
    }
  }

  lemma RegularFrom(hits: seq<Hit>, key: string, limit: U32, span: nat, from: Time, begin: Time)
    requires Regular(hits, key, limit, span, from)
    requires hits != [] ==> begin <= hits[0].now
    ensures Regular(hits, key, limit, span, begin)
  {}

  /** A counter as the script leaves it: it has counted, and it will expire. */
  predicate Scripted(c: Option<Counter>, now: Time) {
    Live(c, now).Some? ==> c.value.count > 0 && c.value.expires.Some?
  }

  function RunningCounter(c: Option<Counter>, now: Time): Option<Open> {
    if Live(c, now).Some? && c.value.expires.Some? then Some(Open(c.value.count, c.value.expires.value))
    else None
  }

  /** Over Redis: in every run and every stretch `[begin, begin + length)`, no more checks of a
      key succeed. A count beyond 32 bits is an error, not a success. */
  lemma RedisBounded(db: map<string, Counter>, hits: seq<Hit>, key: string, limit: U32, span: nat,
                     from: Time, begin: Time, length: nat)
    requires span > 0 && Regular(hits, key, limit, span, from) && Scripted(Find(db, key), from)
    ensures Successes(hits, Allows(RedisAnswers(db, hits)), key, begin, begin + length)
      <= MostSuccesses(limit, span, length) <= limit * (CeilDiv(length, span) + 1)
  {
    var o := RunningCounter(Find(db, key), from);
    RedisKeepsPace(db, o, hits, key, limit, span, from);
    SameSuccesses(hits, Allows(RedisAnswers(db, hits)), Verdicts(o, hits, key), key, begin, begin + length);
    PaceBounded(o, hits, key, limit, span, from, begin, length);
    MostAtMost(limit, span, length);
  }

  /** The same in memory, as long as no counter wraps. */
  lemma SuccessesBounded(store: map<string, Window>, hits: seq<Hit>, key: string, limit: U32, span: nat,
                         from: Time, begin: Time, length: nat)
    requires span > 0 && Regular(hits, key, limit, span, from) && NoWrap(store, hits, key)
    requires key in store ==> store[key].count > 0
    ensures Successes(hits, Allows(MemoryAnswers(store, hits)), key, begin, begin + length)
      <= MostSuccesses(limit, span, length) <= limit * (CeilDiv(length, span) + 1)
  {
    var o := if key in store then Some(Open(store[key].count, store[key].start + span)) else None;
    MemoryKeepsPace(store, o, hits, key, limit, span, from);
    SameSuccesses(hits, Allows(MemoryAnswers(store, hits)), Verdicts(o, hits, key), key, begin, begin + length);
    PaceBounded(o, hits, key, limit, span, from, begin, length);
    MostAtMost(limit, span, length);
  }

  // ---- the bound is met ----

  function Burst(h: Hit, n: nat): seq<Hit> {
    if n == 0 then [] else [h] + Burst(h, n - 1)
  }

  /** A whole limit at `at`, and again as soon as each window has run out. */
  function Bursts(key: string, limit: U32, span: nat, at: Time, end: Time): seq<Hit>
    requires span > 0
    decreases if at < end then end - at else 0
  {
    if at >= end then []
    else Burst(Hit(key, limit, span, at), limit) + Bursts(key, limit, span, at + span, end)
  }

  lemma RegularThen(h: Hit, rest: seq<Hit>, from: Time)
    requires from <= h.now && Regular(rest, h.key, h.limit, h.span, h.now)
    ensures Regular([h] + rest, h.key, h.limit, h.span, from)
  {}

  lemma {:induction false} BurstRegular(h: Hit, n: nat, rest: seq<Hit>)
    requires Regular(rest, h.key, h.limit, h.span, h.now)
    ensures Regular(Burst(h, n) + rest, h.key, h.limit, h.span, h.now)
  {
    if n == 0 {
      assert Burst(h, n) + rest == rest;
    } else {
      BurstRegular(h, n - 1, rest);
      RegularThen(h, Burst(h, n - 1) + rest, h.now);
      assert Burst(h, n) + rest == [h] + (Burst(h, n - 1) + rest);
    }
  }

  lemma RegularSooner(hits: seq<Hit>, key: string, limit: U32, span: nat, from: Time, sooner: Time)
    requires Regular(hits, key, limit, span, from) && sooner <= from
    ensures Regular(hits, key, limit, span, sooner)
  {}

  lemma {:induction false} BurstsRegular(key: string, limit: U32, span: nat, at: Time, end: Time, from: Time)
    requires span > 0 && from <= at
    ensures Regular(Bursts(key, limit, span, at, end), key, limit, span, from)
    decreases if at < end then end - at else 0
  {
    if at < end {
      BurstsRegular(key, limit, span, at + span, end, at);
      BurstRegular(Hit(key, limit, span, at), limit, Bursts(key, limit, span, at + span, end));
      RegularSooner(Bursts(key, limit, span, at, end), key, limit, span, at, from);
    }
  }

  function Score(o: Option<Open>, hits: seq<Hit>, key: string, begin: Time, end: Time): nat {
    Successes(hits, Verdicts(o, hits, key), key, begin, end)
  }

  lemma ScoreNext(o: Option<Open>, h: Hit, rest: seq<Hit>, begin: Time, end: Time)
    ensures var next := Opened(o, h.now, h.span);
      Score(o, [h] + rest, h.key, begin, end)
        == (if begin <= h.now < end && next.count <= h.limit then 1 else 0)
           + Score(Some(next), rest, h.key, begin, end)
  {
    assert ([h] + rest)[1..] == rest;
    assert Verdicts(o, [h] + rest, h.key)[1..] == Verdicts(Some(Opened(o, h.now, h.span)), rest, h.key);
  }

  /** Within a running window, as many checks pass as its limit still has room for. */
  lemma {:induction false} BurstPasses(count: nat, ends: Time, h: Hit, n: nat, rest: seq<Hit>,
                                       begin: Time, end: Time)
    requires h.now < ends && count + n <= h.limit && begin <= h.now < end
    ensures Score(Some(Open(count, ends)), Burst(h, n) + rest, h.key, begin, end)
      == n + Score(Some(Open(count + n, ends)), rest, h.key, begin, end)
    decreases n
  {
    if n == 0 {
      assert Burst(h, n) + rest == rest;
    } else {
      assert Burst(h, n) + rest == [h] + (Burst(h, n - 1) + rest);
      ScoreNext(Some(Open(count, ends)), h, Burst(h, n - 1) + rest, begin, end);
      BurstPasses(count + 1, ends, h, n - 1, rest, begin, end);
    }
  }

  lemma {:induction false} BurstsPass(o: Option<Open>, key: string, limit: U32, span: nat, at: Time,
                                      begin: Time, end: Time)
    requires span > 0 && limit > 0 && begin <= at
    requires o.Some? ==> o.value.ends <= at
    ensures Score(o, Bursts(key, limit, span, at, end), key, begin, end) == limit * Starts(at, end, span)
    decreases if at < end then end - at else 0
  {
    if at < end {
      var h := Hit(key, limit, span, at);
      var rest := Bursts(key, limit, span, at + span, end);
      assert Burst(h, limit) + rest == [h] + (Burst(h, limit - 1) + rest);
      ScoreNext(o, h, Burst(h, limit - 1) + rest, begin, end);
      BurstPasses(1, at + span, h, limit - 1, rest, begin, end);
      BurstsPass(Some(Open(limit, at + span)), key, limit, span, at + span, begin, end);
      StartsNext(at, end, span);
      var n := Starts(at + span, end, span);
      assert limit * (1 + n) == limit + limit * n;
    }
  }

  /** A window opened so as to end one tick into the stretch, what is left of it, and bursts. */
  function RunningBursts(key: string, limit: U32, span: nat, begin: Time, end: Time): seq<Hit>
    requires limit > 0 && span > 0
  {
    [Hit(key, limit, span, begin + 1 - span)]
      + (Burst(Hit(key, limit, span, begin), limit - 1) + Bursts(key, limit, span, begin + 1, end))
  }

  lemma BurstThenBursts(key: string, limit: U32, span: nat, at: Time, end: Time, n: nat, from: Time)
    requires span > 0 && from <= at
    ensures Regular(Burst(Hit(key, limit, span, at), n) + Bursts(key, limit, span, at + 1, end),
                    key, limit, span, from)
  {
    BurstsRegular(key, limit, span, at + 1, end, at);
    var h, rest := Hit(key, limit, span, at), Bursts(key, limit, span, at + 1, end);
    BurstRegular(h, n, rest);
    RegularSooner(Burst(h, n) + rest, key, limit, span, at, from);
  }

  lemma RunningBurstsRegular(key: string, limit: U32, span: nat, begin: Time, end: Time)
    requires limit > 0 && span > 1
    ensures Regular(RunningBursts(key, limit, span, begin, end), key, limit, span, begin + 1 - span)
  {
    var opener := Hit(key, limit, span, begin + 1 - span);
    BurstThenBursts(key, limit, span, begin, end, limit - 1, opener.now);
    RegularThen(opener, RunningBursts(key, limit, span, begin, end)[1..], opener.now);
  }

  lemma RunningBurstsPass(key: string, limit: U32, span: nat, begin: Time, end: Time)
    requires limit > 0 && span > 1 && begin < end
    ensures Score(None, RunningBursts(key, limit, span, begin, end), key, begin, end)
      == limit - 1 + limit * Starts(begin + 1, end, span)
  {
    var rest := Bursts(key, limit, span, begin + 1, end);
    var h := Hit(key, limit, span, begin);
    ScoreNext(None, Hit(key, limit, span, begin + 1 - span), Burst(h, limit - 1) + rest, begin, end);
    BurstPasses(1, begin + 1, h, limit - 1, rest, begin, end);
    BurstsPass(Some(Open(limit, begin + 1)), key, limit, span, begin + 1, begin, end);
  }

  lemma StartsIn(begin: Time, length: nat, span: nat)
    requires span > 0 && length > 0
    ensures Starts(begin, begin + length, span) == CeilDiv(length, span)
    ensures Starts(begin + 1, begin + length, span) == CeilDiv(length - 1, span)
  {
    if length == 1 { Quotient(span - 1, span, 0, span - 1); }
  }

  /** With windows of one tick there is none that was open before. */
  lemma OneTickWindows(limit: nat, length: nat)
    requires limit > 0 && length > 0
    ensures MostSuccesses(limit, 1, length) == limit * CeilDiv(length, 1)
  {
    assert CeilDiv(length, 1) == length && CeilDiv(length - 1, 1) == length - 1;
    assert limit * length == limit * (length - 1) + limit;
  }

  /** The bound cannot be lowered: for every limit, window and stretch, some run meets it. */
  lemma BoundIsMet(key: string, limit: U32, span: nat, begin: Time, length: nat)
    returns (hits: seq<Hit>, from: Time)
    requires limit > 0 && span > 0 && length > 0
    ensures Regular(hits, key, limit, span, from)
    ensures Successes(hits, Allows(RedisAnswers(map[], hits)), key, begin, begin + length)
      == MostSuccesses(limit, span, length)
  {
    var end := begin + length;
    StartsIn(begin, length, span);
    if span == 1 || MostSuccesses(limit, span, length) == limit * CeilDiv(length, span) {
      if span == 1 { OneTickWindows(limit, length); }
      from, hits := begin, Bursts(key, limit, span, begin, end);
      BurstsRegular(key, limit, span, begin, end, begin);
      BurstsPass(None, key, limit, span, begin, begin, end);
    } else {
      from, hits := begin + 1 - span, RunningBursts(key, limit, span, begin, end);
      RunningBurstsRegular(key, limit, span, begin, end);
      RunningBurstsPass(key, limit, span, begin, end);
    }
    RedisKeepsPace(map[], None, hits, key, limit, span, from);
    SameSuccesses(hits, Allows(RedisAnswers(map[], hits)), Verdicts(None, hits, key), key, begin, end);
  }
}
