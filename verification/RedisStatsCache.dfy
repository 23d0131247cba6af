/** The Redis cache: reads and writes that degrade instead of failing, and the SCAN/UNLINK
    loop that drops every entry of a resource (src/cache.rs:66-184). */
module RedisStatsCache {
  import opened Wrappers
  import opened Heroes
  import opened RedisGlob
  import CacheProtocol

  /** What a key holds: a body that parses, or bytes that do not. */
  datatype Bytes = Json(body: string) | Garbage

  datatype Stored = Stored(bytes: Bytes, expiresAt: Time)

  type Database = map<string, Stored>

  // ---- what other clients do meanwhile, and what the server answers ----

  /** Writes, deletions and expiries that are not ours. */
  datatype Writes = Writes(gone: set<string>, put: Database)

  function Apply(db: Database, w: Writes): Database { (db - w.gone) + w.put }

  /** One round of the loop: SCAN's cursor and pattern, what others did before it was served,
      its answer (none if the command failed), what others did before our UNLINK was served,
      and whether that succeeded. */
  datatype Turn = Turn(
    cursor: nat,
    pattern: string,
    before: Writes,
    answer: Option<Batch>,
    between: Writes,
    unlinked: bool)

  datatype Batch = Batch(next: nat, keys: seq<string>)

  predicate Fails(t: Turn) { t.answer.None? || (t.answer.value.keys != [] && !t.unlinked) }

  /** The rounds of one invalidation: from cursor 0, each at the cursor the one before it gave,
      up to the first that fails or gives cursor 0. */
  predicate Session(pattern: string, turns: seq<Turn>) {
    && turns != [] && turns[0].cursor == 0
    && (forall i :: 0 <= i < |turns| ==> turns[i].pattern == pattern)
    && (forall i :: 0 <= i < |turns| - 1 ==>
         && !Fails(turns[i]) && turns[i].answer.value.next != 0
         && turns[i + 1].cursor == turns[i].answer.value.next)
    && (Fails(turns[|turns| - 1]) || turns[|turns| - 1].answer.value.next == 0)
  }

  predicate Completes(turns: seq<Turn>)
    requires turns != []
  {
    !Fails(turns[|turns| - 1])
  }

  function KeySet(keys: seq<string>): set<string> { set k | k in keys }

  function AfterTurn(db: Database, t: Turn): Database {
    var scanned := Apply(db, t.before);
    if t.answer.None? then scanned
    else
      var unlinking := Apply(scanned, t.between);
      if t.unlinked then unlinking - KeySet(t.answer.value.keys) else unlinking
  }

  function AfterTurns(db: Database, turns: seq<Turn>): Database {
    if turns == [] then db
    else AfterTurn(AfterTurns(db, turns[..|turns| - 1]), turns[|turns| - 1])
  }

  /** The same rounds with our own deletions left out. */
  function OthersOnly(db: Database, turns: seq<Turn>): Database {
    if turns == [] then db
    else
      var t := turns[|turns| - 1];
      var scanned := Apply(OthersOnly(db, turns[..|turns| - 1]), t.before);
      if t.answer.None? then scanned else Apply(scanned, t.between)
  }

  function Lookup(db: Database, key: string, now: Time): Option<Bytes> {
    if key in db && now < db[key].expiresAt then Some(db[key].bytes) else None
  }

  // ---- the cache ----

  class RedisCache {
    const ttlSeconds: nat
    const version: string
    const prefix: string
    var db: Database

    constructor (ttlSeconds: nat, version: string, prefix: string)
      ensures this.ttlSeconds == ttlSeconds && this.version == version && this.prefix == prefix
      ensures db == map[]
    {
      this.ttlSeconds, this.version, this.prefix := ttlSeconds, version, prefix;
      db := map[];
    }

    /** An unreachable server or bytes that do not parse are a miss. */
    method Get(resource: string, key: string, now: Time, reachable: bool) returns (hit: Option<string>)
      ensures hit.Some? <==>
        reachable && exists body :: Lookup(db, RedisKey(prefix, version, resource, key), now) == Some(Json(body))
      ensures hit.Some? ==>
        Lookup(db, RedisKey(prefix, version, resource, key), now) == Some(Json(hit.value))
    {
      if !reachable { return None; }
      var raw := Lookup(db, RedisKey(prefix, version, resource, key), now);
      match raw {
        case Some(Json(body)) => hit := Some(body);
        case Some(Garbage) => hit := None;
        case None => hit := None;
      }
    }

    /** `SET .. EX max(ttl, 1)`; an unreachable server leaves everything as it is. */
    method Set(resource: string, key: string, body: string, now: Time, reachable: bool)
      modifies this`db
      ensures !reachable ==> db == old(db)
      ensures reachable ==> db == old(db)[RedisKey(prefix, version, resource, key)
          := Stored(Json(body), now + CacheProtocol.Life(ttlSeconds))]
    {
      if !reachable { return; }
      var expiresAt := now + (if ttlSeconds < 1 then 1 else ttlSeconds);
      db := db[RedisKey(prefix, version, resource, key) := Stored(Json(body), expiresAt)];
    }

    method TryInvalidate(resource: string, turns: seq<Turn>) returns (ok: bool)
      requires Session(InvalidationPattern(prefix, resource), turns)
      modifies this`db
      ensures db == AfterTurns(old(db), turns)
      ensures ok <==> Completes(turns)
    {
      var escaped := GlobEscape(resource);
      var pattern := prefix + ":*:" + escaped + ":*";
      var cursor := 0;
      var i := 0;
      while true
        invariant 0 <= i < |turns| && cursor == turns[i].cursor
        invariant db == AfterTurns(old(db), turns[..i])
        decreases |turns| - i
      {
        assert turns[..i + 1][..i] == turns[..i];
        var answer := Scan(cursor, pattern, turns[i]);
        if answer.None? { assert turns[..i + 1] == turns; return false; }
        var Batch(next, keys) := answer.value;
        var unlinked := Unlink(keys, turns[i]);
        if keys != [] && !unlinked { assert turns[..i + 1] == turns; return false; }
        if next == 0 { assert turns[..i + 1] == turns; return true; }
        cursor := next;
        i := i + 1;
      }
    }

    /** `SCAN cursor MATCH .. COUNT ..` */
    method Scan(cursor: nat, pattern: string, turn: Turn) returns (answer: Option<Batch>)
      requires cursor == turn.cursor && pattern == turn.pattern
      modifies this`db
      ensures answer == turn.answer && db == Apply(old(db), turn.before)
    {
      db := Apply(db, turn.before);
      answer := turn.answer;
    }

    /** `UNLINK keys`, sent only when there are keys. */
    method Unlink(keys: seq<string>, turn: Turn) returns (ok: bool)
      requires turn.answer.Some? && keys == turn.answer.value.keys
      modifies this`db
      ensures ok == turn.unlinked
      ensures var unlinking := Apply(old(db), turn.between);
        db == if turn.unlinked then unlinking - KeySet(keys) else unlinking
    {
      db := Apply(db, turn.between);
      ok := turn.unlinked;
      if keys != [] && ok { db := db - KeySet(keys); }
    }

    /** A failed loop is logged and forgotten: the TTL is left to do its work. */
    method Invalidate(resource: string, turns: seq<Turn>)
      requires Session(InvalidationPattern(prefix, resource), turns)
      modifies this`db
      ensures db == AfterTurns(old(db), turns)
    {
      var ok := TryInvalidate(resource, turns);
    }
  }

  /** What is set is got back, and nothing but that, until `max(ttl, 1)` seconds have passed: then
      it is a miss, as it is while the server cannot be reached. */
  method SetThenGet(cache: RedisCache, resource: string, key: string, body: string, now: Time,
                    later: Time, reachable: bool)
    returns (hit: Option<string>)
    modifies cache
    ensures hit == if reachable && (later < now + 1 || later < now + cache.ttlSeconds)
      then Some(body) else None
  {
    cache.Set(resource, key, body, now, true);
    hit := cache.Get(resource, key, later, reachable);
  }

  // ---- what the loop achieves ----

  predicate PutBy(t: Turn, key: string) { key in t.before.put || key in t.between.put }

  predicate RemovedBy(t: Turn, key: string) { key in t.before.gone || key in t.between.gone }

  /** SCAN's guarantee for a full iteration (Redis command reference, SCAN): it answers with
      keys that match, and with every matching key that was there from start to end. */
  ghost predicate FullIteration(db: Database, pattern: string, turns: seq<Turn>) {
    && (forall t, key :: t in turns && t.answer.Some? && key in t.answer.value.keys ==>
         GlobMatches(pattern, key))
    && (forall key :: key in db && GlobMatches(pattern, key) ==>
         || (exists t :: t in turns && RemovedBy(t, key))
         || (exists t :: t in turns && t.answer.Some? && key in t.answer.value.keys))
  }

  /** A key nobody stores again, once gone in some round, stays gone. */
  lemma {:induction false} GoneStaysGone(db: Database, turns: seq<Turn>, key: string, i: nat)
    requires i < |turns|
    requires forall t :: t in turns ==> !PutBy(t, key) && !Fails(t)
    requires RemovedBy(turns[i], key)
      || (turns[i].answer.Some? && key in turns[i].answer.value.keys)
    ensures key !in AfterTurns(db, turns)
  {
    var last := turns[|turns| - 1];
    var front := turns[..|turns| - 1];
    assert last in turns;
    if i < |turns| - 1 {
      assert front[i] == turns[i];
      GoneStaysGone(db, front, key, i);
    }
  }

  /** A completed loop leaves no matching entry that was there when it began and that nobody
      stored again. */
  lemma CompletedLoopClears(db: Database, pattern: string, turns: seq<Turn>, key: string)
    requires Session(pattern, turns) && Completes(turns) && FullIteration(db, pattern, turns)
    requires key in db && GlobMatches(pattern, key)
    requires forall t :: t in turns ==> !PutBy(t, key)
    ensures key !in AfterTurns(db, turns)
  {
    forall t | t in turns ensures !Fails(t) {
      var i :| 0 <= i < |turns| && turns[i] == t;
      assert i < |turns| - 1 || i == |turns| - 1;
    }
    if t :| t in turns && RemovedBy(t, key) {
      var i :| 0 <= i < |turns| && turns[i] == t;
      GoneStaysGone(db, turns, key, i);
    } else {
      var t :| t in turns && t.answer.Some? && key in t.answer.value.keys;
      var i :| 0 <= i < |turns| && turns[i] == t;
      GoneStaysGone(db, turns, key, i);
    }
  }

  /** "Drop every entry of the resource": all versions, all cache keys. */
  lemma InvalidateDropsResource(db: Database, prefix: string, resource: string, turns: seq<Turn>,
                                version: string, key: string)
    requires Plain(prefix)
    requires Session(InvalidationPattern(prefix, resource), turns) && Completes(turns)
    requires FullIteration(db, InvalidationPattern(prefix, resource), turns)
    requires forall t :: t in turns ==> !PutBy(t, RedisKey(prefix, version, resource, key))
    ensures RedisKey(prefix, version, resource, key) !in AfterTurns(db, turns)
  {
    var entry := RedisKey(prefix, version, resource, key);
    OwnKeysSelected(prefix, version, resource, key);
    if entry in db {
      CompletedLoopClears(db, InvalidationPattern(prefix, resource), turns, entry);
    } else {
      NeverPut(db, turns, entry);
    }
  }

  lemma {:induction false} NeverPut(db: Database, turns: seq<Turn>, key: string)
    requires key !in db && forall t :: t in turns ==> !PutBy(t, key)
    ensures key !in AfterTurns(db, turns)
  {
    if turns != [] {
      assert turns[|turns| - 1] in turns;
      NeverPut(db, turns[..|turns| - 1], key);
    }
  }

  /** The loop, completed or not, does nothing to a key its pattern does not match. */
  lemma {:induction false} OtherKeysUntouched(db: Database, pattern: string, turns: seq<Turn>, key: string)
    requires forall t, k :: t in turns && t.answer.Some? && k in t.answer.value.keys ==>
      GlobMatches(pattern, k)
    requires !GlobMatches(pattern, key)
    ensures key in AfterTurns(db, turns) <==> key in OthersOnly(db, turns)
    ensures key in AfterTurns(db, turns) ==> AfterTurns(db, turns)[key] == OthersOnly(db, turns)[key]
  {
    if turns != [] {
      var t := turns[|turns| - 1];
      assert t in turns;
      OtherKeysUntouched(db, pattern, turns[..|turns| - 1], key);
    }
  }
}
