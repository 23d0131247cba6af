/** The PostgreSQL repository: every operation is one statement built from conditions and a
    SET list (src/hero/repositories/hero_sea_orm.rs:136-291). */
module SeaOrmRepository {
  import opened Wrappers
  import opened Ordered
  import opened Heroes
  import opened Filtering
  import opened SqlConditions
  import opened SqlTranslation
  import opened Sorting
  import opened SqlOrdering
  import opened HeroStore
  import opened RowHistory

  datatype ActiveValue<+T> = NotSet | Set(value: T)

  /** The columns a statement writes, and the values it writes to them. */
  datatype ActiveModel = ActiveModel(
    name: ActiveValue<Option<string>> := NotSet,
    powers: ActiveValue<Option<seq<string>>> := NotSet,
    powerLevel: ActiveValue<Option<I32>> := NotSet,
    ownerId: ActiveValue<string> := NotSet,
    archivedAt: ActiveValue<Option<Time>> := NotSet,
    createdAt: ActiveValue<Time> := NotSet,
    updatedAt: ActiveValue<Time> := NotSet)

  function Written<T>(column: ActiveValue<T>, current: T): T {
    if column.Set? then column.value else current
  }

  /** What `SET` makes of a row. */
  function Assign(row: Hero, set_: ActiveModel): Hero {
    Hero(row.id,
         Written(set_.name, row.name),
         Written(set_.powers, row.powers),
         Written(set_.powerLevel, row.powerLevel),
         Written(set_.ownerId, row.ownerId),
         Written(set_.archivedAt, row.archivedAt),
         Written(set_.createdAt, row.createdAt),
         Written(set_.updatedAt, row.updatedAt))
  }

  function Setting(set_: ActiveModel): (int, Hero) -> Hero {
    (_: int, row: Hero) => Assign(row, set_)
  }

  /** Only the fields the request carries, plus the modification stamp. */
  method UpdateValues(data: HeroUpdate, now: Time) returns (active: ActiveModel)
    ensures forall row :: Assign(row, active) == ApplyUpdate(row, data, now)
  {
    active := ActiveModel(updatedAt := Set(now));
    if data.name.Some? { active := active.(name := Set(Some(data.name.value))); }
    if data.powers.Some? { active := active.(powers := Set(Some(data.powers.value))); }
    if data.powerLevel.Some? { active := active.(powerLevel := Set(data.powerLevel)); }
  }

  method ArchiveValues(now: Time) returns (active: ActiveModel)
    ensures forall row :: Assign(row, active) == Archive(row, now, now)
  {
    active := ActiveModel(archivedAt := Set(Some(now)), updatedAt := Set(now));
  }

  /** Whether a statement has a value: a condition this model gives none to fails it. */
  predicate Determined(lower: Lowercase, rows: Rows, where: seq<SqlExpr>) {
    forall id :: id in rows ==> EvalWhere(lower, rows[id], where) != Undetermined
  }

  /** The rows a WHERE clause selects: those it is true of. */
  function Matching(lower: Lowercase, rows: Rows, where: seq<SqlExpr>): set<int> {
    IdsWhere(rows, (row: Hero) => EvalWhere(lower, row, where) == True)
  }

  datatype RepoError = Backend

  ghost predicate AllPortable(lower: Lowercase, filters: seq<FilterClause>) {
    forall c :: c in filters ==> Portable(lower, c)
  }

  /** The rows a write reaches. Of a bulk write only this much is said in general: they are
      live, and they are those the in-memory backend reaches if its clauses are portable. */
  ghost predicate MayReach(lower: Lowercase, rows: Rows, op: Op, reached: set<int>) {
    match op
    case Update(id, owner, _, _) => reached == Addressed(rows, id, owner)
    case Delete(id, owner, _, _) => reached == Addressed(rows, id, owner)
    case UpdateMany(filters, _, _) => BulkReach(lower, rows, filters, reached)
    case DeleteMany(filters, _) => BulkReach(lower, rows, filters, reached)
    case _ => reached == {}
  }

  ghost predicate BulkReach(lower: Lowercase, rows: Rows, filters: seq<FilterClause>, reached: set<int>) {
    && AllLive(rows, reached)
    && (AllPortable(lower, filters) ==> reached == Hits(lower, rows, filters))
  }

  function SqlAfter(lower: Lowercase, s: Store, op: Op, reached: set<int>): Store
    requires CanStep(s, op)
  {
    if op.Create? then After(lower, s, op)
    else Store(Rewrite(s.rows, reached, Change(op)), s.nextId)
  }

  /** What a bulk write leaves and answers: exactly the rows it reached are rewritten and
      returned; a statement that fails reaches none. */
  ghost predicate BulkOutcome(rows: Rows, change: (int, Hero) -> Hero, reached: set<int>,
                              after: Rows, result: Result<seq<Hero>, RepoError>)
  {
    && after == Rewrite(rows, reached, change)
    && (if result.Ok? then reached <= after.Keys && result.value == InIdOrder(after, reached)
        else reached == {})
  }

  /** What the server gives back for an ORDER BY and the rows of a statement. */
  type Arrangement = (seq<OrderTerm>, seq<Hero>) -> seq<Hero>

  ghost predicate Arranges(collate: Collation, arrange: Arrangement) {
    forall terms, rows ::
      multiset(arrange(terms, rows)) == multiset(rows) && OrderedBy(collate, terms, arrange(terms, rows))
  }

  class HeroSeaOrmRepository {
    const lower: Lowercase

    /** How the server compares strings, and in what order it happens to return rows that
        compare equal or that nothing orders. */
    const collate: Collation
    const arrange: Arrangement

    /** The `heroes` table and the sequence its ids are drawn from. */
    var heroes: Rows
    var sequence: I32

    ghost function Contents(): Store reads this { Store(heroes, sequence) }

    ghost predicate Valid() reads this {
      Keyed(Contents()) && Arranges(collate, arrange)
    }

    constructor (lower: Lowercase, collate: Collation, arrange: Arrangement)
      requires Arranges(collate, arrange)
      ensures Valid() && Contents() == Store(map[], 1)
      ensures this.lower == lower && this.collate == collate
    {
      this.lower := lower;
      this.collate, this.arrange := collate, arrange;
      heroes := map[];
      sequence := 1;
    }

    // ---- statements ----

    /** One condition after the other, all to hold. */
    method ApplyFilters(query: seq<SqlExpr>, filters: seq<FilterClause>) returns (where: seq<SqlExpr>)
      ensures where == query + ConditionsFor(lower, filters)
    {
      where := query;
      for i := 0 to |filters|
        invariant where == query + ConditionsFor(lower, filters[..i])
      {
        assert ConditionsFor(lower, filters[..i + 1])
          == ConditionsFor(lower, filters[..i]) + [ConditionFor(lower, filters[i])];
        where := where + [ConditionFor(lower, filters[i])];
      }
      assert filters[..|filters|] == filters;
    }

    static method ApplySort(sort: seq<SortClause>) returns (terms: seq<OrderTerm>)
      ensures terms == TermsFor(sort)
    {
      terms := [];
      for i := 0 to |sort|
        invariant terms + TermsFor(sort[i..]) == TermsFor(sort)
      {
        assert sort[i..][1..] == sort[i + 1..];
        var column := ColumnFor(sort[i].field);
        if column.None? { continue; }
        terms := terms + [OrderTerm(column.value, sort[i].descending)];
      }
    }

    /** `SELECT * FROM heroes WHERE .. ORDER BY ..` */
    method All(where: seq<SqlExpr>, terms: seq<OrderTerm>)
      returns (result: Result<seq<Hero>, RepoError>)
      requires Valid()
      ensures if Determined(lower, heroes, where)
        then result == Ok(arrange(terms, InIdOrder(heroes, Matching(lower, heroes, where))))
        else result == Err(Backend)
    {
      if !Determined(lower, heroes, where) { return Err(Backend); }
      result := Ok(arrange(terms, InIdOrder(heroes, Matching(lower, heroes, where))));
    }

    /** `UPDATE heroes SET .. WHERE .. RETURNING *` */
    method ExecWithReturning(set_: ActiveModel, where: seq<SqlExpr>)
      returns (result: Result<seq<Hero>, RepoError>)
      requires Valid()
      modifies this`heroes
      ensures Valid()
      ensures if Determined(lower, old(heroes), where) then
          var hits := Matching(lower, old(heroes), where);
          && heroes == Rewrite(old(heroes), hits, Setting(set_))
          && result == Ok(arrange([], InIdOrder(heroes, hits)))
        else heroes == old(heroes) && result == Err(Backend)
    {
      if !Determined(lower, heroes, where) { return Err(Backend); }
      var hits := Matching(lower, heroes, where);
      SettingKeepsKeys(Contents(), hits, set_);
      heroes := Rewrite(heroes, hits, Setting(set_));
      result := Ok(arrange([], InIdOrder(heroes, hits)));
    }

    /** `sort_by_key(|row| row.id)` on rows that came back in no particular order. */
    static method ById(rows: seq<Hero>) returns (sorted: seq<Hero>)
      ensures sorted == StableSort(SortClause("id", false), rows)
    {
      var a := new Hero[|rows|](i requires 0 <= i < |rows| => rows[i]);
      assert a[..] == rows;
      SortBy(a, SortClause("id", false));
      sorted := a[..];
    }

    // ---- the repository ----

    /** A page of rows within the archive scope, in some order that the sort clauses allow; for
        portable filters of the selected rows, and in the in-memory order where the sort clauses
        decide one. */
    method List(opts: ListOptions) returns (result: Result<seq<Hero>, RepoError>)
      requires Valid()
      ensures result.Ok? ==> exists ids, ordered ::
        && ids <= Selected(lower, heroes, [], opts.includeArchived, opts.onlyArchived)
        && Returns(collate, opts.sort, InIdOrder(heroes, ids), ordered)
        && result.value == Page(ordered, opts.skip, opts.limit)
        && (AllPortable(lower, opts.filters) ==>
            ids == Selected(lower, heroes, opts.filters, opts.includeArchived, opts.onlyArchived))
      ensures AllPortable(lower, opts.filters) ==> result.Ok?
      ensures AllPortable(lower, opts.filters) && Decides(collate, opts.sort)
        ==> result == Ok(ListOf(lower, heroes, opts))
    {
      var query := ArchiveScope(opts.includeArchived, opts.onlyArchived);
      var where := ApplyFilters(query, opts.filters);
      var terms := [OrderTerm(Id, false)];
      if opts.sort != [] { terms := ApplySort(opts.sort); }
      var rows := All(where, terms);
      if AllPortable(lower, opts.filters) {
        QueryScope(lower, heroes, opts.filters, opts.includeArchived, opts.onlyArchived);
      }
      if rows.Err? { return rows; }
      ghost var ids := Matching(lower, heroes, where);
      WithinScope(lower, heroes, opts.filters, opts.includeArchived, opts.onlyArchived);
      ListedRows(heroes, ids, collate, opts.sort, rows.value);
      assert Returns(collate, opts.sort, InIdOrder(heroes, ids), rows.value);
      result := Ok(Page(rows.value, opts.skip, opts.limit));
    }

    method Count(filters: seq<FilterClause>, includeArchived: bool, onlyArchived: bool)
      returns (result: Result<nat, RepoError>)
      requires Valid()
      ensures result.Ok? ==> result.value <= CountOf(lower, heroes, [], includeArchived, onlyArchived)
      ensures AllPortable(lower, filters)
        ==> result == Ok(CountOf(lower, heroes, filters, includeArchived, onlyArchived))
    {
      var where := ApplyFilters(ArchiveScope(includeArchived, onlyArchived), filters);
      var rows := All(where, []);
      if AllPortable(lower, filters) {
        QueryScope(lower, heroes, filters, includeArchived, onlyArchived);
      }
      if rows.Err? { return Err(rows.error); }
      ghost var ids := Matching(lower, heroes, where);
      assert |rows.value| == |multiset(rows.value)| == |multiset(InIdOrder(heroes, ids))| == |ids|;
      WithinScope(lower, heroes, filters, includeArchived, onlyArchived);
      SubsetSize(ids, Selected(lower, heroes, [], includeArchived, onlyArchived));
      result := Ok(|rows.value|);
    }

    method Get(id: I32, includeArchived: bool) returns (result: Result<Option<Hero>, RepoError>)
      requires Valid()
      ensures result == Ok(GetOf(heroes, id, includeArchived))
    {
      var where := [Compare(Id, Eq, Int4(id))];
      if !includeArchived { where := where + [IsNull(ArchivedAt)]; }
      assert where == GetWhere(id, includeArchived);
      AddressedGet(lower, heroes, id, includeArchived);
      var rows := All(where, []);
      FoundOne(heroes, id, Matching(lower, heroes, where), rows.value);
      result := Ok(if rows.value == [] then None else Some(rows.value[0]));
    }

    /** The id column is left to the table's sequence. */
    method Create(owner: string, data: HeroCreate, now: Time) returns (model: Hero)
      requires Valid() && sequence < I32_MAX
      modifies this`heroes, this`sequence
      ensures Valid()
      ensures var op := Op.Create(owner, data, now);
        && Contents() == After(lower, old(Contents()), op)
        && One(Some(model)) == ReplyOf(lower, old(Contents()), op)
      ensures Evolved(old(Contents()), Contents())
    {
      var active := ActiveModel(
        name := Set(Some(data.name)), powers := Set(Some(data.powers)),
        powerLevel := Set(data.powerLevel), ownerId := Set(owner),
        archivedAt := Set(None), createdAt := Set(now), updatedAt := Set(now));
      model := Assign(Hero(sequence, None, None, None, "", None, 0, 0), active);
      heroes := heroes[sequence := model];
      sequence := sequence + 1;
    }

    /** A write addressed to one record: one statement over the row with that id, if it is live
        and the caller's. */
    method ExecLive(set_: ActiveModel, id: I32, owner: string)
      returns (result: Result<seq<Hero>, RepoError>)
      requires Valid()
      modifies this`heroes
      ensures Valid()
      ensures var reached := Addressed(old(heroes), id, owner);
        && heroes == Rewrite(old(heroes), reached, Setting(set_))
        && result == Ok(if reached == {} then [] else [heroes[id]])
    {
      ghost var before := heroes;
      var where := LiveWhere(id, owner);
      AddressedLive(lower, before, id, owner);
      result := ExecWithReturning(set_, where);
      FoundOne(heroes, id, Matching(lower, before, where), result.value);
    }

    method Update(id: I32, owner: string, data: HeroUpdate, now: Time)
      returns (result: Result<Option<Hero>, RepoError>)
      requires Valid()
      modifies this`heroes
      ensures Valid()
      ensures var op := Op.Update(id, owner, data, now);
        && Contents() == After(lower, old(Contents()), op)
        && result.Ok? && One(result.value) == ReplyOf(lower, old(Contents()), op)
      ensures Evolved(old(Contents()), Contents())
    {
      ghost var before, op := Contents(), Op.Update(id, owner, data, now);
      var values := UpdateValues(data, now);
      SingleWrite(lower, before, op);
      RewriteEvolves(before, Addressed(before.rows, id, owner), op);
      RewriteSame(before.rows, Addressed(before.rows, id, owner), Setting(values), Change(op));
      var rows := ExecLive(values, id, owner);
      result := Ok(if rows.value == [] then None else Some(rows.value[0]));
    }

    /** A bulk write: one statement over the live rows the filters select, its returned rows
        put in id order. */
    method ExecBulk(set_: ActiveModel, filters: seq<FilterClause>)
      returns (result: Result<seq<Hero>, RepoError>, ghost reached: set<int>)
      requires Valid()
      modifies this`heroes
      ensures Valid()
      ensures BulkReach(lower, old(heroes), filters, reached)
      ensures BulkOutcome(old(heroes), Setting(set_), reached, heroes, result)
      ensures AllPortable(lower, filters) ==> result.Ok?
    {
      ghost var before := heroes;
      var where := ApplyFilters([IsNull(ArchivedAt)], filters);
      if AllPortable(lower, filters) { BulkScope(lower, before, filters); }
      WithinScope(lower, before, filters, false, false);
      var rows := ExecWithReturning(set_, where);
      if rows.Err? {
        RewriteNothing(before, Setting(set_));
        return rows, {};
      }
      reached := Matching(lower, before, where);
      ReturnedById(heroes, reached, rows.value);
      var ordered := ById(rows.value);
      result := Ok(ordered);
    }

    method UpdateMany(filters: seq<FilterClause>, data: HeroUpdate, now: Time)
      returns (result: Result<seq<Hero>, RepoError>, ghost reached: set<int>)
      requires Valid()
      modifies this`heroes
      ensures Valid()
      ensures var op := Op.UpdateMany(filters, data, Always(now));
        && MayReach(lower, old(heroes), op, reached)
        && BulkOutcome(old(heroes), Change(op), reached, heroes, result)
        && (AllPortable(lower, filters) ==>
            && Contents() == After(lower, old(Contents()), op)
            && result.Ok? && Many(result.value) == ReplyOf(lower, old(Contents()), op))
      ensures Evolved(old(Contents()), Contents())
    {
      ghost var before := Contents();
      var values := UpdateValues(data, now);
      ghost var op := Op.UpdateMany(filters, data, Always(now));
      result, reached := ExecBulk(values, filters);
      RewriteSame(before.rows, reached, Setting(values), Change(op));
      RewriteEvolves(before, reached, op);
      BulkWrite(lower, before, op);
    }

    method Delete(id: I32, owner: string, now: Time) returns (result: Result<bool, RepoError>)
      requires Valid()
      modifies this`heroes
      ensures Valid()
      ensures var op := Op.Delete(id, owner, now, now);
        && Contents() == After(lower, old(Contents()), op)
        && result.Ok? && Done(result.value) == ReplyOf(lower, old(Contents()), op)
      ensures Evolved(old(Contents()), Contents())
    {
      ghost var before, op := Contents(), Op.Delete(id, owner, now, now);
      var values := ArchiveValues(now);
      SingleWrite(lower, before, op);
      RewriteEvolves(before, Addressed(before.rows, id, owner), op);
      RewriteSame(before.rows, Addressed(before.rows, id, owner), Setting(values), Change(op));
      var rows := ExecLive(values, id, owner);
      result := Ok(rows.value != []);
    }

    method DeleteMany(filters: seq<FilterClause>, now: Time)
      returns (result: Result<seq<Hero>, RepoError>, ghost reached: set<int>)
      requires Valid()
      modifies this`heroes
      ensures Valid()
      ensures var op := Op.DeleteMany(filters, now);
        && MayReach(lower, old(heroes), op, reached)
        && BulkOutcome(old(heroes), Change(op), reached, heroes, result)
        && (AllPortable(lower, filters) ==>
            && Contents() == After(lower, old(Contents()), op)
            && result.Ok? && Many(result.value) == ReplyOf(lower, old(Contents()), op))
      ensures Evolved(old(Contents()), Contents())
    {
      ghost var before := Contents();
      var values := ArchiveValues(now);
      ghost var op := Op.DeleteMany(filters, now);
      result, reached := ExecBulk(values, filters);
      RewriteSame(before.rows, reached, Setting(values), Change(op));
      RewriteEvolves(before, reached, op);
      BulkWrite(lower, before, op);
    }
  }

  lemma SettingKeepsKeys(s: Store, ids: set<int>, set_: ActiveModel)
    requires Keyed(s)
    ensures Keyed(Store(Rewrite(s.rows, ids, Setting(set_)), s.nextId))
  {}

  // ---- what the statements select ----

  /** The WHERE clause of a query selects what the in-memory scope keeps. */
  lemma QueryScope(lower: Lowercase, rows: Rows, filters: seq<FilterClause>,
                   includeArchived: bool, onlyArchived: bool)
    requires AllPortable(lower, filters)
    ensures var where := ArchiveScope(includeArchived, onlyArchived) + ConditionsFor(lower, filters);
      && Determined(lower, rows, where)
      && Matching(lower, rows, where) == Selected(lower, rows, filters, includeArchived, onlyArchived)
  {
    var scope := ArchiveScope(includeArchived, onlyArchived);
    var where := scope + ConditionsFor(lower, filters);
    forall id | id in rows
      ensures EvalWhere(lower, rows[id], where) != Undetermined
      ensures EvalWhere(lower, rows[id], where) == True
        <==> Scope(lower, filters, includeArchived, onlyArchived)(rows[id])
    {
      EvalWhereAnd(lower, rows[id], scope, ConditionsFor(lower, filters));
      ArchiveScopeIsVisible(lower, rows[id], includeArchived, onlyArchived);
      WhereAgrees(lower, rows[id], filters);
    }
  }

  /** Whatever the filters, a query or bulk write stays within its archive scope. */
  lemma WithinScope(lower: Lowercase, rows: Rows, filters: seq<FilterClause>,
                    includeArchived: bool, onlyArchived: bool)
    ensures var where := ArchiveScope(includeArchived, onlyArchived) + ConditionsFor(lower, filters);
      Matching(lower, rows, where) <= Selected(lower, rows, [], includeArchived, onlyArchived)
  {
    var scope := ArchiveScope(includeArchived, onlyArchived);
    var where := scope + ConditionsFor(lower, filters);
    forall id | id in Matching(lower, rows, where)
      ensures id in Selected(lower, rows, [], includeArchived, onlyArchived)
    {
      EvalWhereAnd(lower, rows[id], scope, ConditionsFor(lower, filters));
      ArchiveScopeIsVisible(lower, rows[id], includeArchived, onlyArchived);
      assert MatchesAll(lower, rows[id], []);
    }
  }

  lemma BulkScope(lower: Lowercase, rows: Rows, filters: seq<FilterClause>)
    requires AllPortable(lower, filters)
    ensures var where := [IsNull(ArchivedAt)] + ConditionsFor(lower, filters);
      Determined(lower, rows, where) && Matching(lower, rows, where) == Hits(lower, rows, filters)
  {
    QueryScope(lower, rows, filters, false, false);
  }

  /** A statement addressed by id reaches at most the row with that id. */
  lemma AddressedOne(lower: Lowercase, rows: Rows, id: I32, where: seq<SqlExpr>, rest: seq<SqlExpr>)
    requires forall k :: k in rows ==> rows[k].id == k
    requires where == [Compare(Id, Eq, Int4(id))] + rest
    requires forall k :: k in rows ==> EvalWhere(lower, rows[k], rest) != Undetermined
    ensures Determined(lower, rows, where)
    ensures Matching(lower, rows, where)
      == if id in rows && EvalWhere(lower, rows[id], rest) == True then {id} else {}
  {
    forall k | k in rows
      ensures EvalWhere(lower, rows[k], where)
        == (if k == id then EvalWhere(lower, rows[k], rest) else False)
    {
      OneAndRest(lower, rows[k], where[0], rest);
    }
  }

  lemma OneAndRest(lower: Lowercase, row: Hero, one: SqlExpr, rest: seq<SqlExpr>)
    ensures EvalWhere(lower, row, [one] + rest)
      == And(Eval(lower, row, one), EvalWhere(lower, row, rest))
  {}

  function GetWhere(id: I32, includeArchived: bool): seq<SqlExpr> {
    [Compare(Id, Eq, Int4(id))] + if includeArchived then [] else [IsNull(ArchivedAt)]
  }

  lemma AddressedGet(lower: Lowercase, rows: Rows, id: I32, includeArchived: bool)
    requires forall k :: k in rows ==> rows[k].id == k
    ensures var where := GetWhere(id, includeArchived);
      && Determined(lower, rows, where)
      && Matching(lower, rows, where) == if GetOf(rows, id, includeArchived).Some? then {id} else {}
  {
    var rest := if includeArchived then [] else [IsNull(ArchivedAt)];
    forall k | k in rows
      ensures EvalWhere(lower, rows[k], rest) == Known(includeArchived || rows[k].Live())
    {
      if !includeArchived {
        OneAndRest(lower, rows[k], IsNull(ArchivedAt), []);
        assert rest == [IsNull(ArchivedAt)] + [];
      }
    }
    AddressedOne(lower, rows, id, [Compare(Id, Eq, Int4(id))] + rest, rest);
  }

  /** The conditions of a write addressed to one record. */
  function LiveWhere(id: I32, owner: string): seq<SqlExpr> {
    [Compare(Id, Eq, Int4(id)), Compare(OwnerId, Eq, Varchar(owner)), IsNull(ArchivedAt)]
  }

  lemma AddressedLive(lower: Lowercase, rows: Rows, id: I32, owner: string)
    requires forall k :: k in rows ==> rows[k].id == k
    ensures var where := LiveWhere(id, owner);
      && Determined(lower, rows, where)
      && Matching(lower, rows, where) == Addressed(rows, id, owner)
  {
    var live := [IsNull(ArchivedAt)];
    var rest := [Compare(OwnerId, Eq, Varchar(owner))] + live;
    var where := [Compare(Id, Eq, Int4(id))] + rest;
    forall k | k in rows
      ensures EvalWhere(lower, rows[k], rest) == Known(rows[k].ownerId == owner && rows[k].Live())
    {
      OneAndRest(lower, rows[k], Compare(OwnerId, Eq, Varchar(owner)), live);
      OneAndRest(lower, rows[k], IsNull(ArchivedAt), []);
      assert live == [IsNull(ArchivedAt)] + [];
    }
    AddressedOne(lower, rows, id, where, rest);
    assert where == LiveWhere(id, owner);
  }

  lemma ListedRows(rows: Rows, ids: set<int>, collate: Collation, sort: seq<SortClause>,
                   returned: seq<Hero>)
    requires ids <= rows.Keys && forall k :: k in rows ==> rows[k].id == k
    requires multiset(returned) == multiset(InIdOrder(rows, ids))
    requires OrderedBy(collate, OrderBy(sort), returned)
    ensures Returns(collate, sort, InIdOrder(rows, ids), returned)
    ensures Decides(collate, sort) ==> returned == SortRows(sort, InIdOrder(rows, ids))
  {
    InIdOrderIsOrdered(rows, ids);
    if Decides(collate, sort) { DecidedOrder(collate, sort, InIdOrder(rows, ids), returned); }
  }

  /** However the server arranged them, the returned rows by id are the rows in id order. */
  lemma ReturnedById(rows: Rows, ids: set<int>, returned: seq<Hero>)
    requires ids <= rows.Keys && forall k :: k in rows ==> rows[k].id == k
    requires multiset(returned) == multiset(InIdOrder(rows, ids))
    ensures StableSort(SortClause("id", false), returned) == InIdOrder(rows, ids)
  {
    InIdOrderIsOrdered(rows, ids);
    SortById(returned, InIdOrder(rows, ids));
  }

  lemma FoundOne(rows: Rows, id: int, ids: set<int>, returned: seq<Hero>)
    requires ids <= rows.Keys && ids <= {id}
    requires multiset(returned) == multiset(InIdOrder(rows, ids))
    ensures if ids == {} then returned == [] else id in rows && returned == [rows[id]]
  {
    assert |returned| == |multiset(returned)| == |multiset(InIdOrder(rows, ids))| == |ids|;
    if ids != {} {
      assert ids == {id};
      SortedKeysOf({id}, [id]);
      assert InIdOrder(rows, ids) == [rows[id]];
      assert returned[0] in multiset(returned);
    }
  }
}
