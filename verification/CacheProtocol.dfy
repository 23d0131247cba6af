/** The stats cache kept fresh by events: writers that commit and then publish, readers that
    miss, build and store, and the invalidation loop of one replica
    (src/cache.rs:163-254, src/hero/controllers/heroes.rs:135-145 and 393-406). */
module CacheProtocol {
  import opened Wrappers
  import opened Heroes

  /** Where the invalidation loop stands. `Subscribed` is between a subscription and the
      invalidation that follows it; `Scanning` is inside an invalidation. */
  datatype Phase = Down | Subscribed | Scanning | Listening | Stopped

  /** A stored body: the last commit before its build first read the database and, for the
      record, the last commit when it was stored. */
  datatype Entry = Entry(built: nat, storedAfter: nat, storedAt: Time, dies: Time)

  /** A reader that missed on `key` and is building its answer; once it has read the database,
      the last commit that it is sure to have seen. */
  datatype Build = Build(key: string, from: Option<nat>)

  /** Commits are numbered 1, 2, ..., `commits`. An event is named by its commit. */
  datatype State = State(
    commits: nat,
    now: Time,
    cache: map<string, Entry>,
    builds: map<nat, Build>,
    unpublished: set<nat>,
    queue: seq<nat>,
    phase: Phase,
    connected: bool,
    missed: set<nat>,      // published while no subscription could deliver them
    lost: set<nat>,        // never to be delivered, or delivered to an invalidation that failed
    inHand: set<nat>,      // what the running invalidation is to make up for
    victims: set<string>,  // stored before it began and not stored again since
    scanStart: nat)        // the last commit when it began

  datatype Event =
    | Commit
    | Publish(commit: nat)
    | PublishFails(commit: nat)
    | LoseEvent(at: nat)
    | Miss(reader: nat, key: string)
    | Read(reader: nat)
    | Store(reader: nat)
    | Abandon(reader: nat)
    | Evict(key: string)
    | Tick(seconds: nat)
    | Subscribe
    | StartInvalidate
    | TakeEvent
    | FinishInvalidate(alsoGone: set<string>)
    | FailInvalidate(gone: set<string>)
    | Disconnect(delivered: nat)
    | NoticeEnd
    | Shutdown

  /** `self.ttl.as_secs().max(1)` */
  function Life(ttlSeconds: nat): (life: nat)
    ensures life >= 1 && life >= ttlSeconds
    ensures life == 1 || life == ttlSeconds
  {
    if ttlSeconds < 1 then 1 else ttlSeconds
  }

  function Initial(now: Time): State {
    State(0, now, map[], map[], {}, [], Down, false, {}, {}, {}, {}, 0)
  }

  predicate Enabled(s: State, e: Event) {
    match e
    case Publish(c) => c in s.unpublished
    case PublishFails(c) => c in s.unpublished
    case LoseEvent(at) => at < |s.queue|
    case Miss(reader, key) => reader !in s.builds && key !in s.cache
    case Read(reader) => reader in s.builds && s.builds[reader].from.None?
    case Store(reader) => reader in s.builds && s.builds[reader].from.Some?
    case Abandon(reader) => reader in s.builds
    case Subscribe => s.phase == Down
    case StartInvalidate => s.phase == Subscribed
    case TakeEvent => s.phase == Listening && s.queue != []
    case FinishInvalidate(_) => s.phase == Scanning
    case FailInvalidate(_) => s.phase == Scanning
    case Disconnect(delivered) => s.connected && delivered <= |s.queue|
    case NoticeEnd => s.phase == Listening && !s.connected && s.queue == []
    case Shutdown => s.phase in {Down, Listening}
    case _ => true
  }

  function Events(queue: seq<nat>): set<nat> { set c | c in queue }

  /** An invalidation starts: everything owed so far is what it is to make up for. */
  function Begin(s: State, taken: set<nat>): State {
    s.(phase := Scanning, inHand := taken + s.missed + s.lost, missed := {}, lost := {},
       victims := s.cache.Keys, scanStart := s.commits)
  }

  function Next(ttl: nat, s: State, e: Event): State
    requires Enabled(s, e)
  {
    match e
    case Commit => s.(commits := s.commits + 1, unpublished := s.unpublished + {s.commits + 1})
    case Publish(c) =>
      if s.connected then s.(unpublished := s.unpublished - {c}, queue := s.queue + [c])
      else s.(unpublished := s.unpublished - {c}, missed := s.missed + {c})
    case PublishFails(c) => s.(unpublished := s.unpublished - {c}, lost := s.lost + {c})
    case LoseEvent(at) =>
      s.(queue := s.queue[..at] + s.queue[at + 1..], lost := s.lost + {s.queue[at]})
    case Miss(reader, key) => s.(builds := s.builds[reader := Build(key, None)])
    case Read(reader) => s.(builds := s.builds[reader := s.builds[reader].(from := Some(s.commits))])
    case Store(reader) =>
      var build := s.builds[reader];
      s.(builds := s.builds - {reader},
         cache := s.cache[build.key := Entry(build.from.value, s.commits, s.now, s.now + Life(ttl))],
         victims := s.victims - {build.key})
    case Abandon(reader) => s.(builds := s.builds - {reader})
    case Evict(key) => s.(cache := s.cache - {key})
    case Tick(seconds) =>
      var now := s.now + seconds;
      s.(now := now, cache := map k | k in s.cache && now < s.cache[k].dies :: s.cache[k])
    case Subscribe => s.(phase := Subscribed, connected := true)
    case StartInvalidate => Begin(s, {})
    case TakeEvent => Begin(s, {s.queue[0]}).(queue := s.queue[1..])
    case FinishInvalidate(alsoGone) =>
      s.(phase := Listening, cache := s.cache - s.victims - alsoGone, inHand := {}, victims := {})
    case FailInvalidate(gone) =>
      s.(phase := Listening, cache := s.cache - gone, lost := s.lost + s.inHand,
         inHand := {}, victims := {})
    case Disconnect(delivered) =>
      s.(connected := false, missed := s.missed + Events(s.queue[delivered..]),
         queue := s.queue[..delivered])
    case NoticeEnd => s.(phase := Down)
    case Shutdown =>
      s.(phase := Stopped, connected := false, missed := s.missed + Events(s.queue), queue := [])
  }

  /** What a step may do to an entry: it comes only from a reader that missed it and stores it
      now, and goes only by eviction, by its time, or by an invalidation. */
  lemma EntriesComeAndGo(ttl: nat, s: State, e: Event, key: string)
    requires Enabled(s, e)
    ensures var t := Next(ttl, s, e);
      && (e.Miss? ==> e.key !in s.cache)
      && (key in t.cache && !(key in s.cache && t.cache[key] == s.cache[key]) ==>
          e.Store? && s.builds[e.reader].key == key
          && t.cache[key] == Entry(s.builds[e.reader].from.value, s.commits, s.now, s.now + Life(ttl)))
      && (key in s.cache && key !in t.cache <==>
          key in s.cache &&
          match e
          case Evict(k) => k == key
          case Tick(seconds) => s.cache[key].dies <= s.now + seconds
          case FinishInvalidate(alsoGone) => key in s.victims || key in alsoGone
          case FailInvalidate(gone) => key in gone
          case _ => false)
  {}

  // ---- the accounting ----

  /** Commit `c` has still to take the entry under `key` out: it is unpublished, queued, to be
      covered by the invalidation that follows the next subscription or by the one running
      now, or it was lost. */
  predicate Owed(s: State, key: string, c: nat) {
    || c in s.unpublished
    || c in s.queue
    || c in s.missed
    || c in s.lost
    || (s.phase == Scanning && key in s.victims && c in s.inHand)
  }

  ghost predicate Accounted(s: State) {
    forall key, c :: key in s.cache && s.cache[key].storedAfter < c <= s.commits ==> Owed(s, key, c)
  }

  ghost predicate Known(s: State) {
    && (forall c :: c in s.unpublished || c in s.queue || c in s.missed || c in s.lost
         ==> c <= s.commits)
    && (forall c :: c in s.inHand ==> s.phase == Scanning && c <= s.scanStart)
    && s.scanStart <= s.commits
  }

  /** Missed events are only ever outstanding while a subscription, and the invalidation that
      follows it, is still to come. */
  predicate MissedOnlyWhileAway(s: State) {
    && (s.missed != {} ==> !s.connected || s.phase == Subscribed)
    && (s.phase in {Down, Stopped} ==> !s.connected)
  }

  ghost predicate ScanSound(s: State) {
    s.phase == Scanning ==>
      forall key :: key in s.cache && key !in s.victims ==> s.scanStart <= s.cache[key].storedAfter
  }

  ghost predicate EntriesSound(ttl: nat, s: State) {
    && (forall key :: key in s.cache ==>
         var e := s.cache[key];
         && e.built <= e.storedAfter <= s.commits
         && e.storedAt <= s.now < e.dies == e.storedAt + Life(ttl))
    && (forall reader :: reader in s.builds && s.builds[reader].from.Some? ==>
         s.builds[reader].from.value <= s.commits)
  }

  ghost predicate Inv(ttl: nat, s: State) {
    && Accounted(s) && Known(s) && MissedOnlyWhileAway(s) && ScanSound(s) && EntriesSound(ttl, s)
  }

  lemma InitialInv(ttl: nat, now: Time)
    ensures Inv(ttl, Initial(now)) && OnePlace(Initial(now))
  {}

  // ---- every step keeps it ----

  lemma AccountedNext(ttl: nat, s: State, e: Event)
    requires Inv(ttl, s) && Enabled(s, e)
    ensures Accounted(Next(ttl, s, e))
  {
    var t := Next(ttl, s, e);
    forall key, c | key in t.cache && t.cache[key].storedAfter < c <= t.commits
      ensures Owed(t, key, c)
    {
      if !e.Commit? || c <= s.commits {
        assert key in s.cache && t.cache[key] == s.cache[key];
        assert Owed(s, key, c);
        match e {
          case LoseEvent(at) => assert s.queue == s.queue[..at] + [s.queue[at]] + s.queue[at + 1..];
          case TakeEvent => assert s.queue == [s.queue[0]] + s.queue[1..];
          case Disconnect(delivered) => assert s.queue == s.queue[..delivered] + s.queue[delivered..];
          case _ =>
        }
      }
    }
  }

  lemma KnownNext(ttl: nat, s: State, e: Event)
    requires Inv(ttl, s) && Enabled(s, e)
    ensures Known(Next(ttl, s, e))
  {
    var t := Next(ttl, s, e);
    forall c | c in t.unpublished || c in t.queue || c in t.missed || c in t.lost
      ensures c <= t.commits
    {
      assert c == s.commits + 1 || c in s.unpublished || c in s.queue || c in s.missed
        || c in s.lost || c in s.inHand;
    }
  }

  lemma PhaseNext(ttl: nat, s: State, e: Event)
    requires Inv(ttl, s) && Enabled(s, e)
    ensures MissedOnlyWhileAway(Next(ttl, s, e)) && ScanSound(Next(ttl, s, e))
  {}

  lemma EntriesNext(ttl: nat, s: State, e: Event)
    requires Inv(ttl, s) && Enabled(s, e)
    ensures EntriesSound(ttl, Next(ttl, s, e))
  {}

  lemma StepKeepsInv(ttl: nat, s: State, e: Event)
    requires Inv(ttl, s) && Enabled(s, e)
    ensures Inv(ttl, Next(ttl, s, e))
  {
    AccountedNext(ttl, s, e);
    KnownNext(ttl, s, e);
    PhaseNext(ttl, s, e);
    EntriesNext(ttl, s, e);
  }

  // ---- runs ----

  ghost predicate Runs(ttl: nat, s: State, events: seq<Event>)
    decreases |events|
  {
    events != [] ==> Enabled(s, events[0]) && Runs(ttl, Next(ttl, s, events[0]), events[1..])
  }

  ghost function Run(ttl: nat, s: State, events: seq<Event>): State
    requires Runs(ttl, s, events)
    decreases |events|
  {
    if events == [] then s else Run(ttl, Next(ttl, s, events[0]), events[1..])
  }

  lemma {:induction false} RunKeepsInv(ttl: nat, s: State, events: seq<Event>)
    requires Inv(ttl, s) && Runs(ttl, s, events)
    ensures Inv(ttl, Run(ttl, s, events))
    decreases |events|
  {
    if events != [] {
      StepKeepsInv(ttl, s, events[0]);
      RunKeepsInv(ttl, Next(ttl, s, events[0]), events[1..]);
    }
  }

  // ---- no event is in two places ----

  ghost predicate NoRepeats(queue: seq<nat>) {
    forall i, j :: 0 <= i < j < |queue| ==> queue[i] != queue[j]
  }

  /** An event is unpublished, queued once, missed, lost or in hand, or it has been dealt with. */
  ghost predicate OnePlace(s: State) { NoRepeats(s.queue) && QueueApart(s) && RestApart(s) }

  ghost predicate QueueApart(s: State) {
    forall c :: c in s.queue ==> c !in s.unpublished && c !in s.missed && c !in s.lost && c !in s.inHand
  }

  ghost predicate RestApart(s: State) {
    && (forall c :: c in s.unpublished ==> c !in s.missed && c !in s.lost && c !in s.inHand)
    && (forall c :: c in s.missed ==> c !in s.lost && c !in s.inHand)
    && (forall c :: c in s.lost ==> c !in s.inHand)
  }

  lemma Without(queue: seq<nat>, at: nat)
    requires NoRepeats(queue) && at < |queue|
    ensures NoRepeats(queue[..at] + queue[at + 1..])
    ensures forall c :: c in queue[..at] + queue[at + 1..] <==> c in queue && c != queue[at]
  {
    var rest := queue[..at] + queue[at + 1..];
    forall c ensures c in rest <==> c in queue && c != queue[at] {
      assert queue == queue[..at] + [queue[at]] + queue[at + 1..];
      assert queue[at] !in queue[..at] && queue[at] !in queue[at + 1..];
    }
  }

  lemma WithoutFirst(queue: seq<nat>)
    requires NoRepeats(queue) && queue != []
    ensures NoRepeats(queue[1..])
    ensures forall c :: c in queue[1..] ==> c in queue && c != queue[0]
  {}

  lemma CutAt(queue: seq<nat>, n: nat)
    requires NoRepeats(queue) && n <= |queue|
    ensures NoRepeats(queue[..n])
    ensures forall c :: c in queue[n..] ==> c in queue && c !in queue[..n]
  {}

  lemma Appended(queue: seq<nat>, c: nat)
    requires NoRepeats(queue) && c !in queue
    ensures NoRepeats(queue + [c])
  {}

  lemma QueueAfterLoss(ttl: nat, s: State, at: nat)
    requires OnePlace(s) && at < |s.queue|
    ensures var t := Next(ttl, s, LoseEvent(at)); NoRepeats(t.queue) && QueueApart(t)
  {
    Without(s.queue, at);
  }

  lemma QueueAfterTaking(ttl: nat, s: State)
    requires OnePlace(s) && Enabled(s, TakeEvent)
    ensures var t := Next(ttl, s, TakeEvent); NoRepeats(t.queue) && QueueApart(t)
  {
    WithoutFirst(s.queue);
    var t := Next(ttl, s, TakeEvent);
    assert t.queue == s.queue[1..] && t.inHand == {s.queue[0]} + s.missed + s.lost;
    assert t.unpublished == s.unpublished && t.missed == {} && t.lost == {};
    assert s.queue[0] in s.queue;
  }

  lemma QueueAfterDisconnect(ttl: nat, s: State, delivered: nat)
    requires OnePlace(s) && Enabled(s, Disconnect(delivered))
    ensures var t := Next(ttl, s, Disconnect(delivered)); NoRepeats(t.queue) && QueueApart(t)
  {
    CutAt(s.queue, delivered);
  }

  lemma QueueNext(ttl: nat, s: State, e: Event)
    requires Known(s) && OnePlace(s) && Enabled(s, e)
    ensures NoRepeats(Next(ttl, s, e).queue) && QueueApart(Next(ttl, s, e))
  {
    match e {
      case Publish(c) => if s.connected { Appended(s.queue, c); }
      case LoseEvent(at) => QueueAfterLoss(ttl, s, at);
      case TakeEvent => QueueAfterTaking(ttl, s);
      case Disconnect(delivered) => QueueAfterDisconnect(ttl, s, delivered);
      case _ =>
    }
  }

  lemma RestApartNext(ttl: nat, s: State, e: Event)
    requires Inv(ttl, s) && OnePlace(s) && Enabled(s, e)
    ensures RestApart(Next(ttl, s, e))
  {}

  lemma OnePlaceNext(ttl: nat, s: State, e: Event)
    requires Inv(ttl, s) && OnePlace(s) && Enabled(s, e)
    ensures OnePlace(Next(ttl, s, e))
  {
    QueueNext(ttl, s, e);
    RestApartNext(ttl, s, e);
  }

  /** In every reachable state: no delivery, disconnect or failure makes two of one event. */
  lemma {:induction false} RunKeepsOnePlace(ttl: nat, s: State, events: seq<Event>)
    requires Inv(ttl, s) && OnePlace(s) && Runs(ttl, s, events)
    ensures OnePlace(Run(ttl, s, events))
    decreases |events|
  {
    if events != [] {
      StepKeepsInv(ttl, s, events[0]);
      OnePlaceNext(ttl, s, events[0]);
      RunKeepsOnePlace(ttl, Next(ttl, s, events[0]), events[1..]);
    }
  }

  // ---- what follows ----

  /** An entry's build was overtaken if a write was committed between its first reading of the
      database and its storing. A write committed after the miss but before that reading is seen. */
  predicate Overtaken(e: Entry) { e.built < e.storedAfter }

  /** In every interleaving, each commit an entry does not reflect has its cause: the entry's
      build was overtaken by that very commit, or the commit is still owed; and in any case the
      entry is younger than its life. */
  lemma StaleEntryHasCause(ttl: nat, start: Time, events: seq<Event>, key: string, c: nat)
    requires Runs(ttl, Initial(start), events)
    requires var s := Run(ttl, Initial(start), events);
      key in s.cache && s.cache[key].built < c <= s.commits
    ensures var s := Run(ttl, Initial(start), events);
      && (c <= s.cache[key].storedAfter || Owed(s, key, c))
      && s.now < s.cache[key].storedAt + Life(ttl)
  {
    InitialInv(ttl, start);
    RunKeepsInv(ttl, Initial(start), events);
  }

  /** Nothing is under way and nothing was lost. */
  predicate Quiescent(s: State) {
    s.unpublished == {} && s.queue == [] && s.lost == {} && s.phase == Listening && s.connected
  }

  /** At quiescence an entry is fresh exactly when its build was not overtaken. */
  lemma QuiescentExact(ttl: nat, start: Time, events: seq<Event>, key: string)
    requires Runs(ttl, Initial(start), events)
    requires var s := Run(ttl, Initial(start), events); Quiescent(s) && key in s.cache
    ensures var s := Run(ttl, Initial(start), events);
      s.cache[key].built == s.commits <==> !Overtaken(s.cache[key])
  {
    var s := Run(ttl, Initial(start), events);
    InitialInv(ttl, start);
    RunKeepsInv(ttl, Initial(start), events);
    var e := s.cache[key];
    assert e.storedAfter < s.commits ==> Owed(s, key, s.commits);
  }

  /** Such a build does go stale for good: from any quiescent state, a reader misses and
      reads, a write is committed, published and handled, and only then does the reader store. */
  lemma OvertakenBuildGoesStale(ttl: nat, s: State, reader: nat, key: string)
    requires Quiescent(s) && reader !in s.builds && key !in s.cache
    ensures
      var s1 := Next(ttl, Next(ttl, Next(ttl, s, Miss(reader, key)), Read(reader)), Commit);
      var s2 := Next(ttl, s1, Publish(s1.commits));
      var s3 := Next(ttl, Next(ttl, s2, TakeEvent), FinishInvalidate({}));
      var s4 := Next(ttl, s3, Store(reader));
      Quiescent(s4) && key in s4.cache && s4.cache[key].built < s4.commits
  {}

  /** The TTL is the net under everything: once an entry's life is over, what is stored under
      its key, if anything, was stored later. */
  lemma EntryDies(ttl: nat, s: State, events: seq<Event>, key: string)
    requires Inv(ttl, s) && Runs(ttl, s, events) && key in s.cache
    requires s.cache[key].storedAt + Life(ttl) <= Run(ttl, s, events).now
    ensures var t := Run(ttl, s, events);
      key in t.cache ==> s.cache[key].storedAt < t.cache[key].storedAt
  {
    RunKeepsInv(ttl, s, events);
  }

  /** A finished invalidation makes up for lost events too: what it leaves was stored after
      every commit made before it began, and owes none of them. */
  lemma InvalidationCatchesUp(ttl: nat, s: State, alsoGone: set<string>, key: string, c: nat)
    requires Inv(ttl, s) && s.phase == Scanning
    requires key in Next(ttl, s, FinishInvalidate(alsoGone)).cache
    requires c <= s.scanStart
    ensures var e := Next(ttl, s, FinishInvalidate(alsoGone)).cache[key];
      e.built < c ==> Overtaken(e) && c <= e.storedAfter
  {}

  /** How far the loop is from listening, connected. */
  function Distance(s: State): nat {
    match s.phase
    case Scanning => if s.connected then 1 else 5
    case Subscribed => if s.connected then 2 else 6
    case Listening => if s.connected then 0 else 4
    case _ => 3
  }

  /** Left alone, the loop is never stuck: from every state in which it runs and nothing was
      lost, with no further write, publishing and delivering what is there ends in quiescence. */
  lemma {:induction false} Drains(ttl: nat, s: State) returns (events: seq<Event>)
    requires Inv(ttl, s) && s.phase != Stopped && s.lost == {}
    ensures Runs(ttl, s, events)
    ensures Quiescent(Run(ttl, s, events)) && Run(ttl, s, events).commits == s.commits
    decreases |s.unpublished|, |s.queue|, Distance(s)
  {
    if Quiescent(s) { return []; }
    var e: Event;
    if s.phase == Down { e := Subscribe; }
    else if s.phase == Subscribed { e := StartInvalidate; }
    else if s.phase == Scanning { e := FinishInvalidate({}); }
    else if s.queue != [] { e := TakeEvent; }
    else if !s.connected { e := NoticeEnd; }
    else {
      NonEmpty(s.unpublished);
      var c :| c in s.unpublished;
      assert |s.unpublished - {c}| < |s.unpublished|;
      e := Publish(c);
    }
    StepKeepsInv(ttl, s, e);
    var rest := Drains(ttl, Next(ttl, s, e));
    events := [e] + rest;
    assert events[1..] == rest;
  }

  lemma NonEmpty(s: set<nat>)
    requires s != {}
    ensures exists c :: c in s
  {}

  // ---- the order of subscribing and invalidating ----

  /** The loop with the two swapped: while down it invalidates first (phase `Subscribed` then
      meaning that it has, and will subscribe next) and listens as soon as it is subscribed. */
  function NextSwapped(ttl: nat, s: State, e: Event): State
    requires Enabled(s, e) || (e.StartInvalidate? && s.phase == Down) || (e.Subscribe? && s.phase == Subscribed)
  {
    if e.StartInvalidate? && s.phase == Down then Begin(s, {})
    else if e.FinishInvalidate? && !s.connected then Next(ttl, s, e).(phase := Subscribed)
    else if e.Subscribe? && s.phase == Subscribed then s.(phase := Listening, connected := true)
    else Next(ttl, s, e)
  }

  /** An entry is built and stored after the first invalidation, before the loop subscribes. */
  function StoredInBetween(ttl: nat, start: Time, key: string): (s: State)
    ensures s == Initial(start).(
      phase := Subscribed, cache := map[key := Entry(0, 0, start, start + Life(ttl))])
  {
    var s1 := NextSwapped(ttl, Initial(start), StartInvalidate);
    var s2 := NextSwapped(ttl, s1, FinishInvalidate({}));
    var s3 := NextSwapped(ttl, NextSwapped(ttl, s2, Miss(0, key)), Read(0));
    NextSwapped(ttl, s3, Store(0))
  }

  /** Subscribing first is what the accounting rests on. Swapped, a write committed and
      published between the two leaves, at quiescence and with nothing lost, an entry that is
      stale although its build was not overtaken. */
  lemma SwappedOrderGoesStale(ttl: nat, start: Time, key: string)
    ensures
      var s1 := NextSwapped(ttl, StoredInBetween(ttl, start, key), Commit);
      var s2 := NextSwapped(ttl, s1, Publish(1));
      var s3 := NextSwapped(ttl, s2, Subscribe);
      && Quiescent(s3)
      && key in s3.cache && !Overtaken(s3.cache[key]) && s3.cache[key].built < s3.commits
  {}
}
