/** What each repository operation does to the stored rows and answers, stated on values.
    Both repositories are proved against this. */
module HeroStore {
  import opened Wrappers
  import opened Ordered
  import opened Heroes
  import opened Filtering
  import opened Sorting

  type Rows = map<int, Hero>

  datatype Store = Store(rows: Rows, nextId: I32)

  datatype ListOptions = ListOptions(
    skip: nat,
    limit: nat,
    includeArchived: bool,
    onlyArchived: bool,
    filters: seq<FilterClause>,
    sort: seq<SortClause>)

  /** Rows sit under their own id, and every id was handed out before. */
  ghost predicate Keyed(s: Store) {
    forall id :: id in s.rows ==> s.rows[id].id == id && id < s.nextId
  }

  function RowsAt(rows: Rows, ids: seq<int>): (r: seq<Hero>)
    requires forall i :: 0 <= i < |ids| ==> ids[i] in rows
    ensures |r| == |ids| && forall i :: 0 <= i < |r| ==> r[i] == rows[ids[i]]
  {
    if ids == [] then []
    else RowsAt(rows, ids[..|ids| - 1]) + [rows[ids[|ids| - 1]]]
  }

  /** The rows with the given ids, in ascending id order. */
  function InIdOrder(rows: Rows, ids: set<int>): (r: seq<Hero>)
    requires ids <= rows.Keys
    ensures |r| == |ids|
  {
    var order := SortedKeys(ids);
    assert forall i :: 0 <= i < |order| ==> order[i] in order;
    RowsAt(rows, order)
  }

  function IdsWhere(rows: Rows, keep: Hero -> bool): set<int> {
    set id | id in rows && keep(rows[id])
  }

  /** The row test of a query: its archive scope and all of its clauses. */
  function Scope(lower: Lowercase, filters: seq<FilterClause>,
                 includeArchived: bool, onlyArchived: bool): Hero -> bool
  {
    (hero: Hero) => Visible(hero, includeArchived, onlyArchived) && MatchesAll(lower, hero, filters)
  }

  function Selected(lower: Lowercase, rows: Rows, filters: seq<FilterClause>,
                    includeArchived: bool, onlyArchived: bool): set<int>
  {
    IdsWhere(rows, Scope(lower, filters, includeArchived, onlyArchived))
  }

  /** The three scopes: live rows by default, all rows with archived ones included, and archived
      rows alone when only they are asked for, included or not. */
  lemma ScopesExact(lower: Lowercase, rows: Rows, filters: seq<FilterClause>, includeArchived: bool, id: int)
    ensures id in Selected(lower, rows, filters, false, false) <==>
      id in rows && rows[id].archivedAt == None && MatchesAll(lower, rows[id], filters)
    ensures id in Selected(lower, rows, filters, true, false) <==>
      id in rows && MatchesAll(lower, rows[id], filters)
    ensures id in Selected(lower, rows, filters, includeArchived, true) <==>
      id in rows && rows[id].archivedAt != None && MatchesAll(lower, rows[id], filters)
  {}

  /** The live rows a bulk write reaches. */
  function Hits(lower: Lowercase, rows: Rows, filters: seq<FilterClause>): set<int> {
    Selected(lower, rows, filters, false, false)
  }

  function ListOf(lower: Lowercase, rows: Rows, opts: ListOptions): seq<Hero> {
    var ids := Selected(lower, rows, opts.filters, opts.includeArchived, opts.onlyArchived);
    Page(SortRows(opts.sort, InIdOrder(rows, ids)), opts.skip, opts.limit)
  }

  function CountOf(lower: Lowercase, rows: Rows, filters: seq<FilterClause>,
                   includeArchived: bool, onlyArchived: bool): nat
  {
    |Selected(lower, rows, filters, includeArchived, onlyArchived)|
  }

  function GetOf(rows: Rows, id: int, includeArchived: bool): Option<Hero> {
    if id in rows && (includeArchived || rows[id].Live()) then Some(rows[id]) else None
  }

  /** Whether a write addressed to one record reaches it: it is there, live and the caller's. */
  predicate Reaches(rows: Rows, id: int, owner: string) {
    id in rows && rows[id].ownerId == owner && rows[id].Live()
  }

  /** Every row in `ids` replaced by `change` of it, every other row left alone. */
  function Rewrite(rows: Rows, ids: set<int>, change: (int, Hero) -> Hero): (r: Rows)
    ensures r.Keys == rows.Keys
  {
    map id | id in rows :: if id in ids then change(id, rows[id]) else rows[id]
  }

  /** The record operations of the `Repository` interface, each with the clock readings it
      takes. A bulk update of the in-memory backend reads the clock once per row. */
  datatype Op =
    | Create(owner: string, create: HeroCreate, now: Time)
    | Get(id: int, archivedToo: bool)
    | Count(filters: seq<FilterClause>, includeArchived: bool, onlyArchived: bool)
    | ListRows(opts: ListOptions)
    | Update(id: int, owner: string, data: HeroUpdate, now: Time)
    | UpdateMany(filters: seq<FilterClause>, data: HeroUpdate, stamp: int -> Time)
    | Delete(id: int, owner: string, archivedAt: Time, updatedAt: Time)
    | DeleteMany(filters: seq<FilterClause>, now: Time)

  datatype Reply =
    | One(row: Option<Hero>)
    | Many(rows: seq<Hero>)
    | Number(count: nat)
    | Done(reached: bool)

  predicate CanStep(s: Store, op: Op) { op.Create? ==> s.nextId < I32_MAX }

  /** The stamps of a bulk update that reads the clock once. */
  function Always(now: Time): int -> Time { (_: int) => now }

  /** What an operation does to each row it reaches. */
  function Change(op: Op): (int, Hero) -> Hero {
    match op
    case Update(_, _, data, now) => (_: int, row: Hero) => ApplyUpdate(row, data, now)
    case UpdateMany(_, data, stamp) => (id: int, row: Hero) => ApplyUpdate(row, data, stamp(id))
    case Delete(_, _, archivedAt, updatedAt) => (_: int, row: Hero) => Archive(row, archivedAt, updatedAt)
    case DeleteMany(_, now) => (_: int, row: Hero) => Archive(row, now, now)
    case _ => (_: int, row: Hero) => row
  }

  function RowsAfter(lower: Lowercase, rows: Rows, nextId: I32, op: Op): Rows {
    match op
    case Create(owner, create, now) => rows[nextId := NewHero(nextId, owner, create, now)]
    case Update(id, owner, data, now) =>
      if Reaches(rows, id, owner) then rows[id := ApplyUpdate(rows[id], data, now)] else rows
    case Delete(id, owner, archivedAt, updatedAt) =>
      if Reaches(rows, id, owner) then rows[id := Archive(rows[id], archivedAt, updatedAt)] else rows
    case UpdateMany(filters, _, _) => Rewrite(rows, Hits(lower, rows, filters), Change(op))
    case DeleteMany(filters, _) => Rewrite(rows, Hits(lower, rows, filters), Change(op))
    case _ => rows
  }

  function After(lower: Lowercase, s: Store, op: Op): Store
    requires CanStep(s, op)
  {
    Store(RowsAfter(lower, s.rows, s.nextId, op), if op.Create? then s.nextId + 1 else s.nextId)
  }

  /** The answer; a write answers with the rows as it left them. */
  function ReplyOf(lower: Lowercase, s: Store, op: Op): Reply {
    var rows := RowsAfter(lower, s.rows, s.nextId, op);
    match op
    case Create(_, _, _) => One(Some(rows[s.nextId]))
    case Get(id, archivedToo) => One(GetOf(s.rows, id, archivedToo))
    case Count(filters, includeArchived, onlyArchived) =>
      Number(CountOf(lower, s.rows, filters, includeArchived, onlyArchived))
    case ListRows(opts) => Many(ListOf(lower, s.rows, opts))
    case Update(id, owner, _, _) =>
      One(if Reaches(s.rows, id, owner) then Some(rows[id]) else None)
    case Delete(id, owner, _, _) => Done(Reaches(s.rows, id, owner))
    case UpdateMany(filters, _, _) => Many(InIdOrder(rows, Hits(lower, s.rows, filters)))
    case DeleteMany(filters, _) => Many(InIdOrder(rows, Hits(lower, s.rows, filters)))
  }

  function FiltersOf(op: Op): seq<FilterClause>
    requires op.UpdateMany? || op.DeleteMany?
  {
    op.filters
  }

  lemma RewriteSame(rows: Rows, ids: set<int>, f: (int, Hero) -> Hero, g: (int, Hero) -> Hero)
    requires forall id, row :: f(id, row) == g(id, row)
    ensures Rewrite(rows, ids, f) == Rewrite(rows, ids, g)
  {
    forall id | id in rows ensures Rewrite(rows, ids, f)[id] == Rewrite(rows, ids, g)[id] {
      assert f(id, rows[id]) == g(id, rows[id]);
    }
  }

  function Addressed(rows: Rows, id: int, owner: string): set<int> {
    if Reaches(rows, id, owner) then {id} else {}
  }

  /** A write addressed to one record is a rewrite of that row or of none. */
  lemma SingleWrite(lower: Lowercase, s: Store, op: Op)
    requires op.Update? || op.Delete?
    ensures var reached := Addressed(s.rows, op.id, op.owner);
      var row := if reached == {} then None else Some(Change(op)(op.id, s.rows[op.id]));
      && After(lower, s, op) == Store(Rewrite(s.rows, reached, Change(op)), s.nextId)
      && ReplyOf(lower, s, op) == if op.Update? then One(row) else Done(row.Some?)
  {
    var reached := Addressed(s.rows, op.id, op.owner);
    assert RowsAfter(lower, s.rows, s.nextId, op) == Rewrite(s.rows, reached, Change(op));
  }

  /** A bulk write rewrites the rows it hits and answers with them. */
  lemma BulkWrite(lower: Lowercase, s: Store, op: Op)
    requires Keyed(s) && (op.UpdateMany? || op.DeleteMany?)
    ensures var hits := Hits(lower, s.rows, FiltersOf(op));
      var rows := Rewrite(s.rows, hits, Change(op));
      && After(lower, s, op) == Store(rows, s.nextId)
      && ReplyOf(lower, s, op) == Many(InIdOrder(rows, hits))
      && Keyed(After(lower, s, op))
  {}

  /** What the loop over the map leaves and collects is a bulk write. */
  lemma LoopIsBulkWrite(lower: Lowercase, s: Store, op: Op, change: (int, Hero) -> Hero)
    requires Keyed(s) && (op.UpdateMany? || op.DeleteMany?)
    requires forall id, row :: change(id, row) == Change(op)(id, row)
    ensures var hits := IdsWhere(s.rows, Scope(lower, FiltersOf(op), false, false));
      var rows := Rewrite(s.rows, hits, change);
      && After(lower, s, op) == Store(rows, s.nextId)
      && ReplyOf(lower, s, op) == Many(InIdOrder(rows, hits))
      && Keyed(Store(rows, s.nextId))
  {
    RewriteSame(s.rows, Hits(lower, s.rows, FiltersOf(op)), change, Change(op));
    BulkWrite(lower, s, op);
  }

  lemma InIdOrderIsOrdered(rows: Rows, ids: set<int>)
    requires ids <= rows.Keys
    requires forall id :: id in rows ==> rows[id].id == id
    ensures InOrder([], InIdOrder(rows, ids))
    ensures forall r :: r in InIdOrder(rows, ids) <==> exists id :: id in ids && rows[id] == r
  {
    var order := SortedKeys(ids);
    var r := InIdOrder(rows, ids);
    forall i, j | 0 <= i < j < |r| ensures Before([], r[i], r[j]) {
      assert order[i] in ids && order[j] in ids;
    }
    forall row ensures row in r <==> exists id :: id in ids && rows[id] == row {
      if row in r {
        var i :| 0 <= i < |r| && r[i] == row;
        assert order[i] in ids;
      }
      if id :| id in ids && rows[id] == row {
        assert id in order;
        var i :| 0 <= i < |order| && order[i] == id;
        assert r[i] == row;
      }
    }
  }

  // ---- paging ----

  /** What a list answers, for every skip and limit: of the selected rows, strictly in the order
      of the sort clauses and then of ids, those from `skip` on, `limit` of them or as many as
      there are. */
  lemma ListIsStretch(lower: Lowercase, s: Store, opts: ListOptions) returns (all: seq<Hero>)
    requires Keyed(s)
    ensures var ids := Selected(lower, s.rows, opts.filters, opts.includeArchived, opts.onlyArchived);
      InOrder(opts.sort, all) && multiset(all) == multiset(InIdOrder(s.rows, ids)) && |all| == |ids|
    ensures Stretch(ListOf(lower, s.rows, opts), all, opts.skip, opts.limit)
  {
    var ids := Selected(lower, s.rows, opts.filters, opts.includeArchived, opts.onlyArchived);
    all := AllOf(lower, s.rows, opts);
    PageIsStretch(all, opts.skip, opts.limit);
    InIdOrderIsOrdered(s.rows, ids);
    SortRowsInOrder(opts.sort, InIdOrder(s.rows, ids));
  }

  /** The first `count` pages of a query, end to end, from an unchanged repository. */
  function ListPages(lower: Lowercase, rows: Rows, opts: ListOptions, limit: nat, count: nat): seq<Hero> {
    if count == 0 then []
    else
      var front := ListPages(lower, rows, opts, limit, count - 1);
      front + ListOf(lower, rows, opts.(skip := PageStart(count - 1, limit), limit := limit))
  }

  function AllOf(lower: Lowercase, rows: Rows, opts: ListOptions): seq<Hero> {
    SortRows(opts.sort,
             InIdOrder(rows, Selected(lower, rows, opts.filters, opts.includeArchived, opts.onlyArchived)))
  }

  lemma {:induction false} ListPagesArePages(lower: Lowercase, rows: Rows, opts: ListOptions,
                                             limit: nat, count: nat)
    ensures ListPages(lower, rows, opts, limit, count) == Pages(AllOf(lower, rows, opts), limit, count)
  {
    if count > 0 { ListPagesArePages(lower, rows, opts, limit, count - 1); }
  }

  /** Enough consecutive pages are exactly the selected rows, strictly in the order of the sort
      clauses and then of ids: none is missing, none comes twice. */
  lemma PagesAreTheSelection(lower: Lowercase, s: Store, opts: ListOptions, limit: nat, count: nat)
    requires Keyed(s)
    requires PageStart(count, limit) >= CountOf(lower, s.rows, opts.filters, opts.includeArchived, opts.onlyArchived)
    ensures var pages := ListPages(lower, s.rows, opts, limit, count);
      var ids := Selected(lower, s.rows, opts.filters, opts.includeArchived, opts.onlyArchived);
      && InOrder(opts.sort, pages)
      && multiset(pages) == multiset(InIdOrder(s.rows, ids))
      && |pages| == |ids|
  {
    var ids := Selected(lower, s.rows, opts.filters, opts.includeArchived, opts.onlyArchived);
    ListPagesArePages(lower, s.rows, opts, limit, count);
    PagesPartition(AllOf(lower, s.rows, opts), limit, count);
    InIdOrderIsOrdered(s.rows, ids);
    SortRowsInOrder(opts.sort, InIdOrder(s.rows, ids));
  }

  // ---- walking the record map ----

  /** The ids of a walk that are in `ids`. */
  function Keep(walk: seq<int>, ids: set<int>): seq<int> {
    if walk == [] then []
    else
      var front := Keep(walk[..|walk| - 1], ids);
      var last := walk[|walk| - 1];
      if last in ids then front + [last] else front
  }

  lemma KeepNext(walk: seq<int>, i: nat, ids: set<int>)
    requires i < |walk|
    ensures Keep(walk[..i + 1], ids)
      == if walk[i] in ids then Keep(walk[..i], ids) + [walk[i]] else Keep(walk[..i], ids)
  {
    assert walk[..i + 1][..i] == walk[..i];
  }

  lemma {:induction false} KeepAscends(walk: seq<int>, ids: set<int>)
    requires Ascending(walk)
    ensures Ascending(Keep(walk, ids))
    ensures forall id :: id in Keep(walk, ids) <==> id in walk && id in ids
  {
    if walk != [] {
      var front, last := walk[..|walk| - 1], walk[|walk| - 1];
      KeepAscends(front, ids);
      assert walk == front + [last];
      var kept := Keep(front, ids);
      forall i | 0 <= i < |kept| ensures kept[i] < last {
        assert kept[i] in kept && kept[i] in front;
      }
    }
  }

  /** A walk over all ids keeps those wanted, in order. */
  lemma WalkKeeps(rows: Rows, ids: set<int>)
    requires ids <= rows.Keys
    ensures Keep(SortedKeys(rows.Keys), ids) == SortedKeys(ids)
  {
    var kept := Keep(SortedKeys(rows.Keys), ids);
    KeepAscends(SortedKeys(rows.Keys), ids);
    SortedKeysOf(ids, kept);
  }

  lemma RowsAtNext(rows: Rows, ids: seq<int>, id: int)
    requires id in rows && forall i :: 0 <= i < |ids| ==> ids[i] in rows
    ensures RowsAt(rows, ids + [id]) == RowsAt(rows, ids) + [rows[id]]
  {}

  /** What a walk has collected: the rows it kept so far. */
  ghost predicate Collected(rows: Rows, walk: seq<int>, ids: set<int>, collected: seq<Hero>) {
    var kept := Keep(walk, ids);
    (forall i :: 0 <= i < |kept| ==> kept[i] in rows) && collected == RowsAt(rows, kept)
  }

  lemma CollectNext(rows: Rows, walk: seq<int>, i: nat, ids: set<int>, collected: seq<Hero>)
    requires i < |walk| && walk[i] in rows
    requires Collected(rows, walk[..i], ids, collected)
    ensures walk[i] in ids ==> Collected(rows, walk[..i + 1], ids, collected + [rows[walk[i]]])
    ensures walk[i] !in ids ==> Collected(rows, walk[..i + 1], ids, collected)
  {
    KeepNext(walk, i, ids);
    if walk[i] in ids { RowsAtNext(rows, Keep(walk[..i], ids), walk[i]); }
  }

  lemma CollectedAll(rows: Rows, ids: set<int>, collected: seq<Hero>)
    requires ids <= rows.Keys
    requires Collected(rows, SortedKeys(rows.Keys), ids, collected)
    ensures collected == InIdOrder(rows, ids)
  {
    WalkKeeps(rows, ids);
  }

  /** The ids of `ids` among the first `i` of a walk: those a loop has dealt with. */
  ghost function Behind(walk: seq<int>, i: nat, ids: set<int>): set<int>
    requires i <= |walk|
  {
    set id | id in ids && id in walk[..i]
  }

  lemma RewriteNext(rows: Rows, walk: seq<int>, i: nat, ids: set<int>, change: (int, Hero) -> Hero)
    requires Enumerates(walk, rows.Keys) && i < |walk|
    ensures walk[i] in rows
    ensures Rewrite(rows, Behind(walk, i, ids), change)[walk[i]] == rows[walk[i]]
    ensures Rewrite(rows, Behind(walk, i + 1, ids), change)
      == if walk[i] in ids
         then Rewrite(rows, Behind(walk, i, ids), change)[walk[i] := change(walk[i], rows[walk[i]])]
         else Rewrite(rows, Behind(walk, i, ids), change)
  {}

  lemma RewroteAll(walk: seq<int>, keys: set<int>, ids: set<int>)
    requires Enumerates(walk, keys) && ids <= keys
    ensures Behind(walk, 0, ids) == {}
    ensures Behind(walk, |walk|, ids) == ids
  {
    assert walk[..|walk|] == walk;
    assert forall id :: id in Behind(walk, |walk|, ids) <==> id in ids;
  }

  lemma RewriteNothing(rows: Rows, change: (int, Hero) -> Hero)
    ensures Rewrite(rows, {}, change) == rows
  {}
}
