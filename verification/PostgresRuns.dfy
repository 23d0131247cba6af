/** Whole runs of the PostgreSQL backend, of any requests whatever: what they keep, and what the
    early reading of the clock does to the stamps
    (src/hero/repositories/hero_sea_orm.rs:179-255). */
module PostgresRuns {
  import opened Wrappers
  import opened Heroes
  import opened Filtering
  import opened HeroStore
  import opened RowHistory
  import opened SeaOrmRepository
  import opened RepositoryRuns
  import opened WriteEffects

  /** The rows that each request of a run reaches, request by request. */
  type Reach = seq<set<int>>

  ghost predicate Runs(lower: Lowercase, s: Store, requests: seq<Request>, reach: Reach)
    decreases |requests|
  {
    && |reach| == |requests|
    && s.nextId + |requests| <= I32_MAX
    && (requests != [] ==>
        && MayReach(lower, s.rows, requests[0].AsOp(), reach[0])
        && Runs(lower, SqlAfter(lower, s, requests[0].AsOp(), reach[0]), requests[1..], reach[1..]))
  }

  ghost function RunTo(lower: Lowercase, s: Store, requests: seq<Request>, reach: Reach): Store
    requires Runs(lower, s, requests, reach)
    decreases |requests|
  {
    if requests == [] then s
    else RunTo(lower, SqlAfter(lower, s, requests[0].AsOp(), reach[0]), requests[1..], reach[1..])
  }

  /** Every run of the repository is such a run. */
  method ServeAll(repo: HeroSeaOrmRepository, requests: seq<Request>)
    returns (replies: seq<Result<Reply, RepoError>>, ghost reach: Reach)
    requires repo.Valid() && repo.sequence + |requests| <= I32_MAX
    modifies repo
    decreases |requests|
    ensures repo.Valid() && |replies| == |requests|
    ensures Runs(repo.lower, old(repo.Contents()), requests, reach)
    ensures repo.Contents() == RunTo(repo.lower, old(repo.Contents()), requests, reach)
  {
    if requests == [] { return [], []; }
    var reply, reached := ServePostgres(repo, requests[0]);
    var later, laterReach := ServeAll(repo, requests[1..]);
    replies, reach := [reply] + later, [reached] + laterReach;
    assert reach[1..] == laterReach;
  }

  // ---- what every run keeps ----

  lemma StepEvolves(lower: Lowercase, s: Store, op: Op, reached: set<int>)
    requires Keyed(s) && CanStep(s, op) && MayReach(lower, s.rows, op, reached)
    ensures Keyed(SqlAfter(lower, s, op, reached)) && Evolved(s, SqlAfter(lower, s, op, reached))
  {
    if !op.Create? { RewriteEvolves(s, reached, op); }
  }

  /** No run of requests, with filters of any kind, loses a row, revives or rewrites an archived
      one, or hands an id out twice. */
  lemma {:induction false} RunEvolves(lower: Lowercase, s: Store, requests: seq<Request>, reach: Reach)
    requires Keyed(s) && Runs(lower, s, requests, reach)
    ensures var t := RunTo(lower, s, requests, reach); Keyed(t) && Evolved(s, t)
    decreases |requests|
  {
    if requests != [] {
      var t := SqlAfter(lower, s, requests[0].AsOp(), reach[0]);
      StepEvolves(lower, s, requests[0].AsOp(), reach[0]);
      RunEvolves(lower, t, requests[1..], reach[1..]);
      EvolvedOn(s, t, RunTo(lower, t, requests[1..], reach[1..]));
    }
  }

  /** The archived figure of `/stats` is never negative here either, whatever requests come
      between the two counts. */
  lemma ArchivedNeverNegative(lower: Lowercase, s: Store, requests: seq<Request>, reach: Reach)
    requires Keyed(s) && Runs(lower, s, requests, reach)
    ensures CountOf(lower, s.rows, [], false, false)
      <= CountOf(lower, RunTo(lower, s, requests, reach).rows, [], true, false)
  {
    RunEvolves(lower, s, requests, reach);
    VisibleAtMostAll(lower, s, RunTo(lower, s, requests, reach));
  }

  // ---- bulk writes with filters of any kind ----

  /** A bulk update writes the given fields of the rows it reaches and leaves the others alone. */
  lemma BulkUpdateWrites(lower: Lowercase, s: Store, filters: seq<FilterClause>, data: HeroUpdate,
                         now: Time, reached: set<int>)
    requires Keyed(s) && MayReach(lower, s.rows, UpdateMany(filters, data, Always(now)), reached)
    ensures var t := SqlAfter(lower, s, UpdateMany(filters, data, Always(now)), reached);
      && (forall id :: id in reached ==>
           id in s.rows && s.rows[id].archivedAt == None && id in t.rows
           && UpdatedTo(s.rows[id], t.rows[id], data, now))
      && t.rows.Keys == s.rows.Keys
      && (forall id :: id in s.rows && id !in reached ==> t.rows[id] == s.rows[id])
  {}

  /** A bulk delete archives the rows it reaches, leaves the others alone, and lowers the live
      count by exactly their number. */
  lemma BulkDeleteArchives(lower: Lowercase, s: Store, filters: seq<FilterClause>, now: Time,
                           reached: set<int>)
    requires Keyed(s) && MayReach(lower, s.rows, DeleteMany(filters, now), reached)
    ensures var t := SqlAfter(lower, s, DeleteMany(filters, now), reached);
      && (forall id :: id in reached ==>
           id in s.rows && s.rows[id].archivedAt == None && id in t.rows
           && ArchivedTo(s.rows[id], t.rows[id], now, now))
      && t.rows.Keys == s.rows.Keys
      && (forall id :: id in s.rows && id !in reached ==> t.rows[id] == s.rows[id])
      && CountOf(lower, t.rows, [], false, false) + |reached| == CountOf(lower, s.rows, [], false, false)
  {
    var t := SqlAfter(lower, s, DeleteMany(filters, now), reached);
    ReachedAreLive(lower, s.rows, DeleteMany(filters, now), reached);
    LiveCountFalls(lower, s.rows, t.rows, reached);
  }

  // ---- the stamps ----

  /** When a write reads the clock: before its statement, by an arbitrary time. */
  function Reading(request: Request): Option<Time> {
    match request
    case DoCreate(_, _, now) => Some(now)
    case DoUpdate(_, _, _, now) => Some(now)
    case DoUpdateMany(_, _, now) => Some(now)
    case DoDelete(_, _, now) => Some(now)
    case DoDeleteMany(_, now) => Some(now)
    case _ => None
  }

  predicate ReadBy(request: Request, clock: Time) {
    Reading(request).Some? ==> Reading(request).value <= clock
  }

  /** Every row the request reaches was created by the time it read the clock. */
  ghost predicate ReachesOlder(rows: Rows, request: Request, reached: set<int>) {
    Reading(request).Some? ==>
      forall id :: id in reached && id in rows ==> rows[id].createdAt <= Reading(request).value
  }

  lemma ChangedStamps(request: Request, id: int, row: Hero, clock: Time)
    requires row.Live() && Stamped(row, clock)
    requires Reading(request).Some? && !request.DoCreate? && ReadBy(request, clock)
    ensures Stamped(Change(request.AsOp())(id, row), clock) <==> row.createdAt <= Reading(request).value
  {
    var op := request.AsOp();
    match request {
      case DoUpdate(_, _, data, now) => assert Change(op)(id, row) == ApplyUpdate(row, data, now);
      case DoUpdateMany(_, data, now) => assert Change(op)(id, row) == ApplyUpdate(row, data, now);
      case DoDelete(_, _, now) => assert Change(op)(id, row) == Archive(row, now, now);
      case DoDeleteMany(_, now) => assert Change(op)(id, row) == Archive(row, now, now);
    }
  }

  lemma ReachedAreLive(lower: Lowercase, rows: Rows, op: Op, reached: set<int>)
    requires MayReach(lower, rows, op, reached)
    ensures AllLive(rows, reached)
  {}

  /** A request of any kind, its clock read at any time before its statement is done, keeps the
      order of the stamps if and only if no row it reaches was created after that reading. */
  lemma EarlyReadingExact(lower: Lowercase, s: Store, request: Request, reached: set<int>, clock: Time)
    requires Keyed(s) && CanStep(s, request.AsOp()) && MayReach(lower, s.rows, request.AsOp(), reached)
    requires AllStamped(s, clock) && ReadBy(request, clock)
    ensures AllStamped(SqlAfter(lower, s, request.AsOp(), reached), clock)
      <==> ReachesOlder(s.rows, request, reached)
  {
    var op := request.AsOp();
    var t := SqlAfter(lower, s, op, reached);
    ReachedAreLive(lower, s.rows, op, reached);
    if request.DoCreate? || Reading(request).None? {
      assert reached == {};
    } else {
      forall id | id in reached
        ensures Stamped(t.rows[id], clock) <==> s.rows[id].createdAt <= Reading(request).value
      {
        ChangedStamps(request, id, s.rows[id], clock);
      }
    }
  }

  /** The stamps are in order at every point of a run; `clock` gives the time at each. */
  ghost predicate StampedThroughout(lower: Lowercase, s: Store, requests: seq<Request>, reach: Reach,
                                    clock: seq<Time>)
    requires Runs(lower, s, requests, reach) && |clock| == |requests| + 1
    decreases |requests|
  {
    && AllStamped(s, clock[0])
    && (requests != [] ==>
        StampedThroughout(lower, SqlAfter(lower, s, requests[0].AsOp(), reach[0]),
                          requests[1..], reach[1..], clock[1..]))
  }

  /** No request of a run reaches a row created after its reading. */
  ghost predicate NoneTooEarly(lower: Lowercase, s: Store, requests: seq<Request>, reach: Reach)
    requires Runs(lower, s, requests, reach)
    decreases |requests|
  {
    requests != [] ==>
      && ReachesOlder(s.rows, requests[0], reach[0])
      && NoneTooEarly(lower, SqlAfter(lower, s, requests[0].AsOp(), reach[0]), requests[1..], reach[1..])
  }

  /** The clock does not go back, and each request has read it by the time it is done. */
  ghost predicate Timed(requests: seq<Request>, clock: seq<Time>) {
    && |clock| == |requests| + 1
    && (forall i :: 0 <= i < |requests| ==> clock[i] <= clock[i + 1] && ReadBy(requests[i], clock[i + 1]))
  }

  lemma TimedTail(requests: seq<Request>, clock: seq<Time>)
    requires requests != [] && Timed(requests, clock)
    ensures Timed(requests[1..], clock[1..])
  {
    forall i | 0 <= i < |requests[1..]|
      ensures clock[1..][i] <= clock[1..][i + 1] && ReadBy(requests[1..][i], clock[1..][i + 1])
    {
      assert requests[1..][i] == requests[i + 1];
    }
  }

  /** Over every run: created <= archived <= updated holds of all rows at all points if and only
      if no request reaches a row created after it read the clock. */
  lemma {:induction false} StampsExact(lower: Lowercase, s: Store, requests: seq<Request>, reach: Reach,
                                       clock: seq<Time>)
    requires Keyed(s) && Runs(lower, s, requests, reach)
    requires Timed(requests, clock) && AllStamped(s, clock[0])
    ensures StampedThroughout(lower, s, requests, reach, clock) <==> NoneTooEarly(lower, s, requests, reach)
    decreases |requests|
  {
    if requests != [] {
      var op := requests[0].AsOp();
      var t := SqlAfter(lower, s, op, reach[0]);
      assert clock[0] <= clock[1] && ReadBy(requests[0], clock[1]);
      assert AllStamped(s, clock[1]) by {
        forall id | id in s.rows ensures Stamped(s.rows[id], clock[1]) {
          assert Stamped(s.rows[id], clock[0]);
        }
      }
      EarlyReadingExact(lower, s, requests[0], reach[0], clock[1]);
      StepEvolves(lower, s, op, reach[0]);
      TimedTail(requests, clock);
      if AllStamped(t, clock[1]) { StampsExact(lower, t, requests[1..], reach[1..], clock[1..]); }
    }
  }

  /** The requests read the clock in the order in which their statements run. */
  ghost predicate ReadInOrder(requests: seq<Request>, from: Time)
    decreases |requests|
  {
    requests != [] ==>
      && (Reading(requests[0]).Some? ==> from <= Reading(requests[0]).value)
      && ReadInOrder(requests[1..], if Reading(requests[0]).Some? then Reading(requests[0]).value else from)
  }

  /** Which never happens to requests that do not overlap. */
  lemma {:induction false} ReadInOrderKeepsStamps(lower: Lowercase, s: Store, requests: seq<Request>,
                                                  reach: Reach, from: Time)
    requires Keyed(s) && Runs(lower, s, requests, reach)
    requires AllStamped(s, from) && ReadInOrder(requests, from)
    ensures NoneTooEarly(lower, s, requests, reach)
    decreases |requests|
  {
    if requests != [] {
      var op := requests[0].AsOp();
      var t := SqlAfter(lower, s, op, reach[0]);
      var next := if Reading(requests[0]).Some? then Reading(requests[0]).value else from;
      forall id | id in s.rows ensures Stamped(s.rows[id], next) { assert Stamped(s.rows[id], from); }
      assert AllStamped(s, next);
      EarlyReadingExact(lower, s, requests[0], reach[0], next);
      StepEvolves(lower, s, op, reach[0]);
      ReadInOrderKeepsStamps(lower, t, requests[1..], reach[1..], next);
    }
  }

  /** It does happen to each kind of write: one that read the clock, was overtaken by a create
      that read it later, and then reaches the new row. No later clock mends the row. */
  lemma OvertakenWritesBreakStamps(lower: Lowercase, owner: string, create: HeroCreate, data: HeroUpdate,
                                   early: Time, now: Time, clock: Time)
    requires early < now
    ensures forall write :: write in {DoUpdate(1, owner, data, early), DoUpdateMany([], data, early),
                                      DoDelete(1, owner, early), DoDeleteMany([], early)} ==>
      var requests, reach := [DoCreate(owner, create, now), write], [{}, {1}];
      && Runs(lower, Store(map[], 1), requests, reach)
      && !AllStamped(RunTo(lower, Store(map[], 1), requests, reach), clock)
  {
    forall write | write in {DoUpdate(1, owner, data, early), DoUpdateMany([], data, early),
                             DoDelete(1, owner, early), DoDeleteMany([], early)}
      ensures
        var requests, reach := [DoCreate(owner, create, now), write], [{}, {1}];
        && Runs(lower, Store(map[], 1), requests, reach)
        && !AllStamped(RunTo(lower, Store(map[], 1), requests, reach), clock)
    {
      OvertakenWriteBreaksStamps(lower, owner, create, write, now, clock);
    }
  }

  predicate ReachesFirst(write: Request, owner: string) {
    match write
    case DoUpdate(id, writer, _, _) => id == 1 && writer == owner
    case DoDelete(id, writer, _) => id == 1 && writer == owner
    case DoUpdateMany(filters, _, _) => filters == []
    case DoDeleteMany(filters, _) => filters == []
    case _ => false
  }

  lemma OvertakenWriteBreaksStamps(lower: Lowercase, owner: string, create: HeroCreate, write: Request,
                                   now: Time, clock: Time)
    requires Reading(write).Some? && Reading(write).value < now
    requires ReachesFirst(write, owner)
    ensures
      var requests, reach := [DoCreate(owner, create, now), write], [{}, {1}];
      && Runs(lower, Store(map[], 1), requests, reach)
      && !AllStamped(RunTo(lower, Store(map[], 1), requests, reach), clock)
  {
    var s := Store(map[], 1);
    var first := DoCreate(owner, create, now);
    var row := NewHero(1, owner, create, now);
    var t := SqlAfter(lower, s, first.AsOp(), {});
    assert t == Store(map[1 := row], 2);
    Unfiltered(lower, t.rows);
    assert Hits(lower, t.rows, []) == {1};
    assert MayReach(lower, t.rows, write.AsOp(), {1});
    var u := SqlAfter(lower, t, write.AsOp(), {1});
    var requests, reach := [first, write], [{}, {1}];
    assert requests[1..] == [write] && reach[1..] == [{1}];
    assert [write][1..] == [] && [{1}][1..] == [];
    assert Runs(lower, u, [], []);
    assert Runs(lower, t, [write], [{1}]);
    assert RunTo(lower, s, requests, reach) == RunTo(lower, t, [write], [{1}]) == u;
    if Stamped(u.rows[1], clock) {
      BrokenStamps(write, row, clock);
    }
  }

  lemma BrokenStamps(write: Request, row: Hero, clock: Time)
    requires Reading(write).Some? && !write.DoCreate? && Reading(write).value < row.createdAt
    ensures !Stamped(Change(write.AsOp())(1, row), clock)
  {
    var op := write.AsOp();
    match write {
      case DoUpdate(_, _, data, now) => assert Change(op)(1, row) == ApplyUpdate(row, data, now);
      case DoUpdateMany(_, data, now) => assert Change(op)(1, row) == ApplyUpdate(row, data, now);
      case DoDelete(_, _, now) => assert Change(op)(1, row) == Archive(row, now, now);
      case DoDeleteMany(_, now) => assert Change(op)(1, row) == Archive(row, now, now);
    }
  }
}
