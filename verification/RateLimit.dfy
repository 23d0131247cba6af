/** The fixed-window rate limiter, over Redis and in memory (src/rate_limit.rs:48-131). */
module RateLimit {
  import opened Wrappers
  import opened Heroes
  import opened Text

  const U32_MAX: int := 0xffff_ffff

  type U32 = n: int | 0 <= n <= 0xffff_ffff

  /** The clock ticks in milliseconds. */
  function Span(windowSecs: nat): nat { windowSecs * 1000 }

  datatype Answer = Allowed | TooManyRequests | Internal

  function Key(scope: string, clientIp: string): string { "ratelimit:" + scope + ":" + clientIp }

  function Judge(count: int, limit: U32): Answer {
    if count > limit then TooManyRequests else Allowed
  }

  /** One check: its key and limit, its window's length, and when it comes. */
  datatype Hit = Hit(key: string, limit: U32, span: nat, now: Time)

  // ---- in memory ----

  /** The hits counted since `start`; the counter is a `u32` and wraps. */
  datatype Window = Window(count: U32, start: Time)

  function Find<V>(m: map<string, V>, key: string): Option<V> {
    if key in m then Some(m[key]) else None
  }

  function MemoryHit(found: Option<Window>, now: Time, span: nat): Window {
    var entry := if found.Some? then found.value else Window(0, now);
    var current := if now - entry.start >= span then Window(0, now) else entry;
    current.(count := if current.count == U32_MAX then 0 else current.count + 1)
  }

  function MemoryNext(store: map<string, Window>, h: Hit): map<string, Window> {
    store[h.key := MemoryHit(Find(store, h.key), h.now, h.span)]
  }

  function MemoryAnswer(store: map<string, Window>, h: Hit): Answer {
    Judge(MemoryHit(Find(store, h.key), h.now, h.span).count, h.limit)
  }

  class MockLimiter {
    var store: map<string, Window>

    constructor () ensures store == map[] { store := map[]; }

    method Check(scope: string, clientIp: string, limit: U32, windowSecs: nat, now: Time)
      returns (answer: Answer)
      modifies this`store
      ensures var hit := Hit(Key(scope, clientIp), limit, Span(windowSecs), now);
        store == MemoryNext(old(store), hit) && answer == MemoryAnswer(old(store), hit)
    {
      var key := Key(scope, clientIp);
      if key !in store { store := store[key := Window(0, now)]; }
      if now - store[key].start >= Span(windowSecs) { store := store[key := Window(0, now)]; }
      var hits := store[key].count;
      hits := if hits == U32_MAX then 0 else hits + 1;
      store := store[key := Window(hits, store[key].start)];
      if hits > limit { return TooManyRequests; }
      return Allowed;
    }
  }

  // ---- in Redis ----

  /** A counter key; one that has an expiry is gone once the clock reaches it. */
  datatype Counter = Counter(count: nat, expires: Option<Time>)

  function Live(found: Option<Counter>, now: Time): Option<Counter> {
    if found.Some? && found.value.expires.Some? && found.value.expires.value <= now then None
    else found
  }

  /** EXPIRE: a timeout that is not positive deletes the key. */
  function Expire(counter: Counter, now: Time, span: nat): Option<Counter> {
    if span == 0 then None else Some(counter.(expires := Some(now + span)))
  }

  /** The script: INCR, and EXPIRE if that was the first hit. */
  function RedisHit(found: Option<Counter>, now: Time, span: nat): (Option<Counter>, nat) {
    var live := Live(found, now);
    var counter :=
      if live.Some? then live.value.(count := live.value.count + 1) else Counter(1, None);
    (if counter.count == 1 then Expire(counter, now, span) else Some(counter), counter.count)
  }

  /** The reply is read back as a `u32`; a larger one is an error. */
  function RedisJudge(count: nat, limit: U32): Answer {
    if count > U32_MAX then Internal else Judge(count, limit)
  }

  function Put<V>(m: map<string, V>, key: string, value: Option<V>): map<string, V> {
    if value.Some? then m[key := value.value] else m - {key}
  }

  function RedisNext(db: map<string, Counter>, h: Hit): map<string, Counter> {
    Put(db, h.key, RedisHit(Find(db, h.key), h.now, h.span).0)
  }

  function RedisCount(db: map<string, Counter>, h: Hit): nat {
    RedisHit(Find(db, h.key), h.now, h.span).1
  }

  function RedisAnswer(db: map<string, Counter>, h: Hit): Answer {
    RedisJudge(RedisCount(db, h), h.limit)
  }

  class RedisLimiter {
    var db: map<string, Counter>

    constructor () ensures db == map[] { db := map[]; }

    method Check(scope: string, clientIp: string, limit: U32, windowSecs: nat, now: Time)
      returns (answer: Answer)
      modifies this`db
      ensures var hit := Hit(Key(scope, clientIp), limit, Span(windowSecs), now);
        db == RedisNext(old(db), hit) && answer == RedisAnswer(old(db), hit)
    {
      var key := Key(scope, clientIp);
      var count := Invoke(key, now, Span(windowSecs));
      if count > U32_MAX { return Internal; }
      if count > limit { return TooManyRequests; }
      return Allowed;
    }

    /** `INCR_WITH_EXPIRY` */
    method Invoke(key: string, now: Time, span: nat) returns (count: nat)
      modifies this`db
      ensures var (counter, replied) := RedisHit(Find(old(db), key), now, span);
        db == Put(old(db), key, counter) && count == replied
    {
      var found := Live(Find(db, key), now);
      if found.None? {
        count := 1;
        db := db[key := Counter(1, None)];
      } else {
        count := found.value.count + 1;
        db := db[key := found.value.(count := count)];
      }
      if count == 1 {
        if span == 0 { db := db - {key}; }
        else { db := db[key := db[key].(expires := Some(now + span))]; }
      }
    }
  }

  // ---- seconds ----

  /** With a limit of one, a second check of a client is answered by whether `windowSecs` seconds
      have passed since the first: at that very moment a new window opens, and no sooner. */
  method CheckTwice(mock: MockLimiter, redis: RedisLimiter, scope: string, clientIp: string,
                    windowSecs: nat, now: Time, later: Time)
    returns (inMemory: Answer, inRedis: Answer)
    requires now <= later
    requires Key(scope, clientIp) !in mock.store && Key(scope, clientIp) !in redis.db
    modifies mock, redis
    ensures inMemory == inRedis == if later - now >= windowSecs * 1000 then Allowed else TooManyRequests
  {
    var _ := mock.Check(scope, clientIp, 1, windowSecs, now);
    inMemory := mock.Check(scope, clientIp, 1, windowSecs, later);
    var _ := redis.Check(scope, clientIp, 1, windowSecs, now);
    inRedis := redis.Check(scope, clientIp, 1, windowSecs, later);
  }

  // ---- the two answer alike ----

  function MemoryAnswers(store: map<string, Window>, hits: seq<Hit>): (r: seq<Answer>)
    ensures |r| == |hits|
    decreases |hits|
  {
    if hits == [] then []
    else [MemoryAnswer(store, hits[0])] + MemoryAnswers(MemoryNext(store, hits[0]), hits[1..])
  }

  function RedisAnswers(db: map<string, Counter>, hits: seq<Hit>): (r: seq<Answer>)
    ensures |r| == |hits|
    decreases |hits|
  {
    if hits == [] then []
    else [RedisAnswer(db, hits[0])] + RedisAnswers(RedisNext(db, hits[0]), hits[1..])
  }

  /** No window of the run sees more hits than a `u32` counts. */
  predicate Fits(db: map<string, Counter>, hits: seq<Hit>)
    decreases |hits|
  {
    hits != [] ==> RedisCount(db, hits[0]) <= U32_MAX && Fits(RedisNext(db, hits[0]), hits[1..])
  }

  /** Time does not go back, and every key keeps one window length. */
  ghost predicate Steady(hits: seq<Hit>, spans: string -> nat, from: Time) {
    forall i :: 0 <= i < |hits| ==>
      && from <= hits[i].now
      && (forall j :: i < j < |hits| ==> hits[i].now <= hits[j].now)
      && hits[i].span == spans(hits[i].key)
  }

  lemma SteadyTail(hits: seq<Hit>, spans: string -> nat, from: Time)
    requires hits != [] && Steady(hits, spans, from)
    ensures Steady(hits[1..], spans, hits[0].now)
  {}

  /** From `now` on, the two backends stand at the same point of the same window. */
  predicate Alike(w: Option<Window>, c: Option<Counter>, now: Time, span: nat) {
    if w.Some? && now - w.value.start < span then
      && Live(c, now).Some?
      && c.value.expires == Some(w.value.start + span)
      && c.value.count > 0
      && w.value.count == c.value.count % (U32_MAX + 1)
    else Live(c, now) == None
  }

  ghost predicate AllAlike(store: map<string, Window>, db: map<string, Counter>,
                           now: Time, spans: string -> nat)
  {
    forall key :: Alike(Find(store, key), Find(db, key), now, spans(key))
  }

  lemma AlikeNext(w: Option<Window>, c: Option<Counter>, from: Time, now: Time, span: nat, limit: U32)
    requires Alike(w, c, from, span) && from <= now
    ensures Alike(w, c, now, span)
    ensures Alike(Some(MemoryHit(w, now, span)), RedisHit(c, now, span).0, now, span)
    ensures RedisHit(c, now, span).1 <= U32_MAX <==>
      Judge(MemoryHit(w, now, span).count, limit) == RedisJudge(RedisHit(c, now, span).1, limit)
  {
    assert Alike(w, c, now, span);
    var live := Live(c, now);
    if live.Some? {
      var n := c.value.count;
      assert (n + 1) % (U32_MAX + 1)
        == if n % (U32_MAX + 1) == U32_MAX then 0 else n % (U32_MAX + 1) + 1;
    }
  }

  lemma AllAlikeNext(store: map<string, Window>, db: map<string, Counter>, h: Hit,
                     spans: string -> nat, from: Time)
    requires AllAlike(store, db, from, spans) && h.span == spans(h.key) && from <= h.now
    ensures AllAlike(MemoryNext(store, h), RedisNext(db, h), h.now, spans)
    ensures MemoryAnswer(store, h) == RedisAnswer(db, h) <==> RedisCount(db, h) <= U32_MAX
  {
    var store', db' := MemoryNext(store, h), RedisNext(db, h);
    forall key ensures Alike(Find(store', key), Find(db', key), h.now, spans(key)) {
      assert Alike(Find(store, key), Find(db, key), from, spans(key));
      AlikeNext(Find(store, key), Find(db, key), from, h.now, spans(key), h.limit);
    }
    AlikeNext(Find(store, h.key), Find(db, h.key), from, h.now, h.span, h.limit);
  }

  lemma SameHeadAndTail<T>(a: seq<T>, b: seq<T>)
    requires |a| == |b| > 0
    ensures a == b <==> a[0] == b[0] && a[1..] == b[1..]
  {}

  /** Over every run with steady windows, the script and the map give the same answers if and
      only if no window overflows a 32-bit count. */
  lemma {:induction false} BackendsAgreeExactly(store: map<string, Window>, db: map<string, Counter>,
                                 hits: seq<Hit>, spans: string -> nat, from: Time)
    requires AllAlike(store, db, from, spans) && Steady(hits, spans, from)
    ensures MemoryAnswers(store, hits) == RedisAnswers(db, hits) <==> Fits(db, hits)
    decreases |hits|
  {
    if hits != [] {
      var h := hits[0];
      assert h.span == spans(h.key) && from <= h.now;
      AllAlikeNext(store, db, h, spans, from);
      SteadyTail(hits, spans, from);
      BackendsAgreeExactly(MemoryNext(store, h), RedisNext(db, h), hits[1..], spans, h.now);
      SameHeadAndTail(MemoryAnswers(store, hits), RedisAnswers(db, hits));
    }
  }

  /** In particular from a start without counters. */
  lemma FreshBackendsAgree(hits: seq<Hit>, spans: string -> nat, from: Time)
    requires Steady(hits, spans, from)
    ensures MemoryAnswers(map[], hits) == RedisAnswers(map[], hits) <==> Fits(map[], hits)
  {
    BackendsAgreeExactly(map[], map[], hits, spans, from);
  }

  /** Without a constant window per key they part: the map measures with the window of the
      check at hand, Redis with that of the check that opened it. */
  lemma ChangingWindowsDiffer()
    ensures
      var hits := [Hit("k", 1, 10000, 0), Hit("k", 1, 1000, 5000)];
      MemoryAnswers(map[], hits) != RedisAnswers(map[], hits)
  {
    var a, b := Hit("k", 1, 10000, 0), Hit("k", 1, 1000, 5000);
    var hits := [a, b];
    assert hits[1..] == [b];
    assert MemoryAnswers(map[], hits)[1] == MemoryAnswers(MemoryNext(map[], a), [b])[0];
    assert RedisAnswers(map[], hits)[1] == RedisAnswers(RedisNext(map[], a), [b])[0];
  }

  // ---- keys ----

  /** Scopes without colons share no counter, whatever the addresses (IPv6 has colons). */
  lemma KeysApart(scope: string, ip: string, scope': string, ip': string)
    requires ColonFree(scope) && ColonFree(scope') && Key(scope, ip) == Key(scope', ip')
    ensures scope == scope' && ip == ip'
  {
    assert Key(scope, ip) == "ratelimit:" + (scope + ":" + ip);
    assert Key(scope', ip') == "ratelimit:" + (scope' + ":" + ip');
    assert Key(scope, ip)[10..] == scope + ":" + ip;
    assert Key(scope', ip')[10..] == scope' + ":" + ip';
    SplitAtColon(scope, ip, scope', ip');
  }

  function OnKey(hits: seq<Hit>, key: string): seq<Hit> {
    if hits == [] then []
    else (if hits[0].key == key then [hits[0]] else []) + OnKey(hits[1..], key)
  }

  function AnswersOn(hits: seq<Hit>, answers: seq<Answer>, key: string): seq<Answer>
    requires |answers| == |hits|
  {
    if hits == [] then []
    else (if hits[0].key == key then [answers[0]] else []) + AnswersOn(hits[1..], answers[1..], key)
  }

  /** A key is answered as if the checks on other keys had not been made. */
  lemma {:induction false} OtherKeysNeverMatter(store: map<string, Window>, alone: map<string, Window>,
                                 hits: seq<Hit>, key: string)
    requires Find(store, key) == Find(alone, key)
    ensures AnswersOn(hits, MemoryAnswers(store, hits), key) == MemoryAnswers(alone, OnKey(hits, key))
    decreases |hits|
  {
    if hits != [] {
      var h := hits[0];
      var store' := MemoryNext(store, h);
      assert MemoryAnswers(store, hits)[1..] == MemoryAnswers(store', hits[1..]);
      if h.key == key {
        var alone' := MemoryNext(alone, h);
        OtherKeysNeverMatter(store', alone', hits[1..], key);
        assert OnKey(hits, key)[1..] == OnKey(hits[1..], key);
      } else {
        OtherKeysNeverMatter(store', alone, hits[1..], key);
        assert OnKey(hits, key) == OnKey(hits[1..], key);
      }
    }
  }
}
