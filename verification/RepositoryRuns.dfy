/** Whole runs: the two repositories answer alike, and what every run keeps
    (src/hero/repositories/hero_memory.rs:171-352, hero_sea_orm.rs:142-291). */
module RepositoryRuns {
  import opened Wrappers
  import opened Ordered
  import opened Heroes
  import opened Filtering
  import opened SqlTranslation
  import opened Sorting
  import opened SqlOrdering
  import opened HeroStore
  import opened RowHistory
  import opened MemoryRepository
  import opened SeaOrmRepository

  /** A repository call that reads the clock at most once. */
  datatype Request =
    | DoCreate(owner: string, create: HeroCreate, now: Time)
    | DoGet(id: I32, archivedToo: bool)
    | DoCount(filters: seq<FilterClause>, includeArchived: bool, onlyArchived: bool)
    | DoList(opts: ListOptions)
    | DoUpdate(id: I32, owner: string, data: HeroUpdate, now: Time)
    | DoUpdateMany(filters: seq<FilterClause>, data: HeroUpdate, now: Time)
    | DoDelete(id: I32, owner: string, now: Time)
    | DoDeleteMany(filters: seq<FilterClause>, now: Time)
  {
    function AsOp(): Op {
      match this
      case DoCreate(owner, create, now) => Create(owner, create, now)
      case DoGet(id, archivedToo) => Get(id, archivedToo)
      case DoCount(filters, includeArchived, onlyArchived) =>
        Count(filters, includeArchived, onlyArchived)
      case DoList(opts) => ListRows(opts)
      case DoUpdate(id, owner, data, now) => Update(id, owner, data, now)
      case DoUpdateMany(filters, data, now) => UpdateMany(filters, data, Always(now))
      case DoDelete(id, owner, now) => Delete(id, owner, now, now)
      case DoDeleteMany(filters, now) => DeleteMany(filters, now)
    }

    function Filters(): seq<FilterClause> {
      match this
      case DoCount(filters, _, _) => filters
      case DoList(opts) => opts.filters
      case DoUpdateMany(filters, _, _) => filters
      case DoDeleteMany(filters, _) => filters
      case _ => []
    }

    /** Its filter clauses read alike in both backends, and the sort clauses of a list decide
        its order. */
    ghost predicate Shared(lower: Lowercase, collate: Collation) {
      && (forall c :: c in Filters() ==> Portable(lower, c))
      && (DoList? ==> Decides(collate, opts.sort))
    }
  }

  // ---- runs ----

  function AfterAll(lower: Lowercase, s: Store, ops: seq<Op>): Store
    requires s.nextId + |ops| <= I32_MAX
    ensures s.nextId <= AfterAll(lower, s, ops).nextId <= s.nextId + |ops|
    decreases |ops|
  {
    if ops == [] then s else AfterAll(lower, After(lower, s, ops[0]), ops[1..])
  }

  function RepliesOf(lower: Lowercase, s: Store, ops: seq<Op>): seq<Reply>
    requires s.nextId + |ops| <= I32_MAX
    decreases |ops|
  {
    if ops == [] then []
    else [ReplyOf(lower, s, ops[0])] + RepliesOf(lower, After(lower, s, ops[0]), ops[1..])
  }

  function AsOps(requests: seq<Request>): (r: seq<Op>)
    ensures |r| == |requests|
  {
    if requests == [] then [] else [requests[0].AsOp()] + AsOps(requests[1..])
  }

  method ServeMemory(repo: HeroMemoryRepository, request: Request) returns (reply: Reply)
    requires repo.Valid() && repo.nextId < I32_MAX
    modifies repo
    ensures repo.Valid()
    ensures repo.Contents() == After(repo.lower, old(repo.Contents()), request.AsOp())
    ensures reply == ReplyOf(repo.lower, old(repo.Contents()), request.AsOp())
  {
    match request {
      case DoCreate(owner, create, now) =>
        var row := repo.Create(owner, create, now);
        reply := One(Some(row));
      case DoGet(id, archivedToo) =>
        var row := repo.Get(id, archivedToo);
        reply := One(row);
      case DoCount(filters, includeArchived, onlyArchived) =>
        var count := repo.Count(filters, includeArchived, onlyArchived);
        reply := Reply.Number(count);
      case DoList(opts) =>
        var rows := repo.List(opts);
        reply := Many(rows);
      case DoUpdate(id, owner, data, now) =>
        var row := repo.Update(id, owner, data, now);
        reply := One(row);
      case DoUpdateMany(filters, data, now) =>
        var rows := repo.UpdateMany(filters, data, Always(now));
        reply := Many(rows);
      case DoDelete(id, owner, now) =>
        var done := repo.Delete(id, owner, now, now);
        reply := Done(done);
      case DoDeleteMany(filters, now) =>
        var rows := repo.DeleteMany(filters, now);
        reply := Many(rows);
    }
  }

  method QueryPostgres(repo: HeroSeaOrmRepository, request: Request)
    returns (reply: Result<Reply, RepoError>)
    requires repo.Valid() && (request.DoGet? || request.DoCount? || request.DoList?)
    ensures request.Shared(repo.lower, repo.collate) ==>
      reply == Ok(ReplyOf(repo.lower, repo.Contents(), request.AsOp()))
  {
    match request {
      case DoGet(id, archivedToo) =>
        var row := repo.Get(id, archivedToo);
        reply := Ok(One(row.value));
      case DoCount(filters, includeArchived, onlyArchived) =>
        var count := repo.Count(filters, includeArchived, onlyArchived);
        reply := if count.Ok? then Ok(Reply.Number(count.value)) else Err(count.error);
      case DoList(opts) =>
        var rows := repo.List(opts);
        reply := if rows.Ok? then Ok(Many(rows.value)) else Err(rows.error);
    }
  }

  /** Any request whatever; one that both backends read alike succeeds, with the in-memory
      effect and answer. */
  method ServePostgres(repo: HeroSeaOrmRepository, request: Request)
    returns (reply: Result<Reply, RepoError>, ghost reached: set<int>)
    requires repo.Valid() && repo.sequence < I32_MAX
    modifies repo
    ensures repo.Valid()
    ensures MayReach(repo.lower, old(repo.heroes), request.AsOp(), reached)
    ensures repo.Contents() == SqlAfter(repo.lower, old(repo.Contents()), request.AsOp(), reached)
    ensures request.Shared(repo.lower, repo.collate) ==>
      && repo.Contents() == After(repo.lower, old(repo.Contents()), request.AsOp())
      && reply == Ok(ReplyOf(repo.lower, old(repo.Contents()), request.AsOp()))
  {
    ghost var before, op := repo.Contents(), request.AsOp();
    reached := {};
    match request {
      case DoCreate(owner, create, now) =>
        var row := repo.Create(owner, create, now);
        reply := Ok(One(Some(row)));
      case DoUpdate(id, owner, data, now) =>
        var row := repo.Update(id, owner, data, now);
        reply := Ok(One(row.value));
        SingleWrite(repo.lower, before, op);
        reached := Addressed(before.rows, id, owner);
      case DoUpdateMany(filters, data, now) =>
        var rows;
        rows, reached := repo.UpdateMany(filters, data, now);
        reply := if rows.Ok? then Ok(Many(rows.value)) else Err(rows.error);
      case DoDelete(id, owner, now) =>
        var done := repo.Delete(id, owner, now);
        reply := Ok(Done(done.value));
        SingleWrite(repo.lower, before, op);
        reached := Addressed(before.rows, id, owner);
      case DoDeleteMany(filters, now) =>
        var rows;
        rows, reached := repo.DeleteMany(filters, now);
        reply := if rows.Ok? then Ok(Many(rows.value)) else Err(rows.error);
      case _ =>
        RewriteNothing(before.rows, Change(op));
        reply := QueryPostgres(repo, request);
    }
  }

  lemma NextRequest(lower: Lowercase, s: Store, requests: seq<Request>)
    requires requests != [] && s.nextId + |requests| <= I32_MAX
    ensures var t := After(lower, s, requests[0].AsOp());
      var rest := AsOps(requests[1..]);
      && t.nextId + |rest| <= I32_MAX
      && AfterAll(lower, s, AsOps(requests)) == AfterAll(lower, t, rest)
      && RepliesOf(lower, s, AsOps(requests))
        == [ReplyOf(lower, s, requests[0].AsOp())] + RepliesOf(lower, t, rest)
  {}

  function Succeeded(replies: seq<Reply>): seq<Result<Reply, RepoError>> {
    if replies == [] then [] else [Ok(replies[0])] + Succeeded(replies[1..])
  }

  /** Fed the same requests, the two backends give the same answers and hold the same rows. */
  method Simulate(memory: HeroMemoryRepository, postgres: HeroSeaOrmRepository,
                  requests: seq<Request>)
    returns (fromMemory: seq<Reply>, fromPostgres: seq<Result<Reply, RepoError>>)
    requires memory.Valid() && postgres.Valid() && memory.lower == postgres.lower
    requires memory.Contents() == postgres.Contents()
    requires memory.nextId + |requests| <= I32_MAX
    requires forall r :: r in requests ==> r.Shared(postgres.lower, postgres.collate)
    modifies memory, postgres
    decreases |requests|
    ensures fromMemory == RepliesOf(memory.lower, old(memory.Contents()), AsOps(requests))
    ensures fromPostgres == Succeeded(fromMemory)
    ensures memory.Contents() == postgres.Contents()
      == AfterAll(memory.lower, old(memory.Contents()), AsOps(requests))
  {
    if requests == [] { return [], []; }
    NextRequest(memory.lower, memory.Contents(), requests);
    var a := ServeMemory(memory, requests[0]);
    var b, _ := ServePostgres(postgres, requests[0]);
    var as_, bs := Simulate(memory, postgres, requests[1..]);
    fromMemory, fromPostgres := [a] + as_, [b] + bs;
  }

  // ---- what every run keeps ----

  lemma StepEvolves(lower: Lowercase, s: Store, op: Op)
    requires Keyed(s) && CanStep(s, op)
    ensures Keyed(After(lower, s, op)) && Evolved(s, After(lower, s, op))
  {
    if op.UpdateMany? || op.DeleteMany? {
      BulkWrite(lower, s, op);
      HitsAreLive(lower, s.rows, op.filters);
      RewriteEvolves(s, Hits(lower, s.rows, op.filters), op);
    } else if op.Update? || op.Delete? {
      SingleWrite(lower, s, op);
      RewriteEvolves(s, Addressed(s.rows, op.id, op.owner), op);
    }
  }

  lemma HitsAreLive(lower: Lowercase, rows: Rows, filters: seq<FilterClause>)
    ensures AllLive(rows, Hits(lower, rows, filters))
  {}

  /** No run of in-memory operations loses a row, revives or rewrites an archived one, or hands
      an id out twice. */
  lemma {:induction false} RunEvolves(lower: Lowercase, s: Store, ops: seq<Op>)
    requires Keyed(s) && s.nextId + |ops| <= I32_MAX
    ensures Keyed(AfterAll(lower, s, ops)) && Evolved(s, AfterAll(lower, s, ops))
    decreases |ops|
  {
    if ops != [] {
      var t := After(lower, s, ops[0]);
      StepEvolves(lower, s, ops[0]);
      RunEvolves(lower, t, ops[1..]);
      EvolvedOn(s, t, AfterAll(lower, t, ops[1..]));
    }
  }

  /** The clock readings of an operation that held the lock while time went from `from` to
      `to`. A create reads the clock before it takes the lock. */
  ghost predicate ReadsWithin(op: Op, from: Time, to: Time) {
    from <= to &&
    match op
    case Create(_, _, now) => now <= to
    case Update(_, _, _, now) => from <= now <= to
    case UpdateMany(_, _, stamp) => forall id :: from <= stamp(id) <= to
    case Delete(_, _, archivedAt, updatedAt) => from <= archivedAt <= updatedAt <= to
    case DeleteMany(_, now) => from <= now <= to
    case _ => true
  }

  lemma BulkStamps(lower: Lowercase, s: Store, op: Op, from: Time, to: Time)
    requires Keyed(s) && AllStamped(s, from) && from <= to && (op.UpdateMany? || op.DeleteMany?)
    requires forall id: int, row: Hero :: row.Live() && Stamped(row, from) ==> Stamped(Change(op)(id, row), to)
    ensures AllStamped(After(lower, s, op), to)
  {
    BulkWrite(lower, s, op);
    HitsAreLive(lower, s.rows, op.filters);
  }

  lemma StepStamps(lower: Lowercase, s: Store, op: Op, from: Time, to: Time)
    requires Keyed(s) && CanStep(s, op) && AllStamped(s, from) && ReadsWithin(op, from, to)
    ensures AllStamped(After(lower, s, op), to)
  {
    if op.UpdateMany? || op.DeleteMany? {
      BulkStamps(lower, s, op, from, to);
    } else {
      var t := After(lower, s, op);
      forall id | id in t.rows ensures Stamped(t.rows[id], to) {
        assert id in s.rows ==> Stamped(s.rows[id], from);
      }
    }
  }

  /** In every run of the in-memory backend, however its operations interleave,
      created <= archived <= updated holds of every row at every point. */
  lemma {:induction false} RunStamps(lower: Lowercase, s: Store, ops: seq<Op>, clock: seq<Time>)
    requires Keyed(s) && s.nextId + |ops| <= I32_MAX
    requires |clock| == |ops| + 1 && AllStamped(s, clock[0])
    requires forall i :: 0 <= i < |ops| ==> ReadsWithin(ops[i], clock[i], clock[i + 1])
    ensures AllStamped(AfterAll(lower, s, ops), clock[|ops|])
    decreases |ops|
  {
    if ops != [] {
      assert ReadsWithin(ops[0], clock[0], clock[1]);
      StepEvolves(lower, s, ops[0]);
      StepStamps(lower, s, ops[0], clock[0], clock[1]);
      forall i | 0 <= i < |ops[1..]| ensures ReadsWithin(ops[1..][i], clock[1..][i], clock[1..][i + 1]) {
        assert ReadsWithin(ops[i + 1], clock[i + 1], clock[i + 2]);
      }
      RunStamps(lower, After(lower, s, ops[0]), ops[1..], clock[1..]);
    }
  }

  // ---- counting ----

  /** Every selected row is live or archived, and not both. */
  lemma CountSplits(lower: Lowercase, rows: Rows, filters: seq<FilterClause>)
    ensures CountOf(lower, rows, filters, true, false)
      == CountOf(lower, rows, filters, false, false) + CountOf(lower, rows, filters, true, true)
    ensures CountOf(lower, rows, filters, false, true) == CountOf(lower, rows, filters, true, true)
  {
    var all := Selected(lower, rows, filters, true, false);
    var live := Selected(lower, rows, filters, false, false);
    var archived := Selected(lower, rows, filters, true, true);
    assert all == live + archived;
    assert live !! archived;
    assert Selected(lower, rows, filters, false, true) == archived;
  }

  /** The archived figure of `/stats` in memory: with the visible rows counted first it is never
      negative, whatever operations come between the two counts. */
  lemma ArchivedNeverNegative(lower: Lowercase, s: Store, between: seq<Op>)
    requires Keyed(s) && s.nextId + |between| <= I32_MAX
    ensures CountOf(lower, s.rows, [], false, false)
      <= CountOf(lower, AfterAll(lower, s, between).rows, [], true, false)
  {
    RunEvolves(lower, s, between);
    VisibleAtMostAll(lower, s, AfterAll(lower, s, between));
  }

  /** Counting in the other order would go negative: one create in between is enough. */
  lemma OtherOrderUnderflows(lower: Lowercase, owner: string, data: HeroCreate, now: Time)
    ensures var s := Store(map[], 1);
      var t := AfterAll(lower, s, [Create(owner, data, now)]);
      CountOf(lower, s.rows, [], true, false) < CountOf(lower, t.rows, [], false, false)
  {
    var s := Store(map[], 1);
    var op := Create(owner, data, now);
    var t := After(lower, s, op);
    assert AfterAll(lower, s, [op]) == AfterAll(lower, t, []) == t;
    Unfiltered(lower, s.rows);
    Unfiltered(lower, t.rows);
    assert t.rows == map[1 := NewHero(1, owner, data, now)];
    SubsetSize({1}, Selected(lower, t.rows, [], false, false));
  }
}
