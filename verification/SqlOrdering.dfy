/** `ORDER BY` as PostgreSQL understands it, and for which sort clauses it leaves the rows in
    the in-memory repository's order (src/hero/repositories/hero_sea_orm.rs:122-134, 145-149). */
module SqlOrdering {
  import opened Wrappers
  import opened Heroes
  import opened Text
  import opened SqlConditions
  import opened Sorting

  /** How the database compares two strings. */
  type Collation = (string, string) -> Ordering

  /** PostgreSQL's collations are deterministic: only equal strings compare equal. */
  ghost predicate Deterministic(collate: Collation) {
    forall x, y ::
      (collate(x, y) == Equal <==> x == y) && collate(y, x) == collate(x, y).Reverse()
  }

  ghost predicate CodePointOrder(collate: Collation) {
    forall x, y :: collate(x, y) == CompareText(x, y)
  }

  datatype OrderTerm = OrderTerm(column: Column, descending: bool)

  /** The clauses' terms; a field that is no column is skipped. */
  function TermsFor(sort: seq<SortClause>): seq<OrderTerm> {
    if sort == [] then []
    else
      var column := ColumnFor(sort[0].field);
      (if column.Some? then [OrderTerm(column.value, sort[0].descending)] else [])
        + TermsFor(sort[1..])
  }

  /** Without clauses, by id. */
  function OrderBy(sort: seq<SortClause>): seq<OrderTerm> {
    if sort == [] then [OrderTerm(Id, false)] else TermsFor(sort)
  }

  /** Ascending, NULL comes after every value (PostgreSQL, section 7.5). */
  function SqlCompare(collate: Collation, a: SqlValue, b: SqlValue): Ordering {
    match (a, b)
    case (Null, Null) => Equal
    case (Null, _) => Greater
    case (_, Null) => Less
    case (Int4(x), Int4(y)) => CompareInt(x, y)
    case (Timestamp(x), Timestamp(y)) => CompareInt(x, y)
    case (Varchar(x), Varchar(y)) => collate(x, y)
    case _ => Equal
  }

  function TermCompare(collate: Collation, term: OrderTerm, a: Hero, b: Hero): Ordering {
    var ord := SqlCompare(collate, ValueOf(a, term.column), ValueOf(b, term.column));
    if term.descending then ord.Reverse() else ord
  }

  /** The first term that tells the rows apart decides. */
  function TermsCompare(collate: Collation, terms: seq<OrderTerm>, a: Hero, b: Hero): Ordering {
    if terms == [] then Equal
    else
      var ord := TermCompare(collate, terms[0], a, b);
      if ord == Equal then TermsCompare(collate, terms[1..], a, b) else ord
  }

  /** What `ORDER BY` promises: no row before one that must precede it; ties fall as they may. */
  ghost predicate OrderedBy(collate: Collation, terms: seq<OrderTerm>, rows: seq<Hero>) {
    forall i, j :: 0 <= i < j < |rows| ==> TermsCompare(collate, terms, rows[i], rows[j]) != Greater
  }

  /** What the server may answer with to a query for these rows (here in id order). */
  ghost predicate Returns(collate: Collation, sort: seq<SortClause>, rows: seq<Hero>, returned: seq<Hero>) {
    && InOrder([], rows)
    && multiset(returned) == multiset(rows)
    && OrderedBy(collate, OrderBy(sort), returned)
  }

  // ---- clauses that decide the order ----

  /** A field that both backends compare alike on all rows: no column at all, or one that is
      never NULL and is not subject to a collation that differs from the code-point order. */
  ghost predicate ComparedAlike(collate: Collation, field: string) {
    || ColumnFor(field).None?
    || field == "created_at"
    || field == "updated_at"
    || (field == "owner_id" && CodePointOrder(collate))
  }

  /** The clauses reach `id` before any that is not compared alike. */
  ghost predicate ReachesId(collate: Collation, sort: seq<SortClause>) {
    sort != [] &&
    (sort[0].field == "id"
     || (ComparedAlike(collate, sort[0].field) && ReachesId(collate, sort[1..])))
  }

  ghost predicate Decides(collate: Collation, sort: seq<SortClause>) {
    sort == [] || ReachesId(collate, sort)
  }

  /** The columns of one clause's comparison are those its field names. */
  lemma FieldColumns(collate: Collation, a: Hero, b: Hero, field: string)
    ensures field == "id" <==> ColumnFor(field) == Some(Id)
    ensures ColumnFor(field).None? ==> FieldCompare(a, b, field) == Equal
    ensures field == "id" || ComparedAlike(collate, field) ==>
      ColumnFor(field).Some? ==>
        SqlCompare(collate, ValueOf(a, ColumnFor(field).value), ValueOf(b, ColumnFor(field).value))
          == FieldCompare(a, b, field)
  {}

  /** Where the clauses decide, the terms put different rows in the strict order of clauses
      and ids. */
  lemma {:induction false} DecidedPair(collate: Collation, sort: seq<SortClause>, a: Hero, b: Hero)
    requires ReachesId(collate, sort) && a.id != b.id
    requires TermsCompare(collate, TermsFor(sort), a, b) != Greater
    ensures Before(sort, a, b)
  {
    FieldColumns(collate, a, b, sort[0].field);
    var terms := TermsFor(sort);
    var column := ColumnFor(sort[0].field);
    if column.Some? {
      assert terms[0] == OrderTerm(column.value, sort[0].descending);
      assert terms[1..] == TermsFor(sort[1..]);
      assert TermCompare(collate, terms[0], a, b) == ClauseCompare(sort[0], a, b);
    } else {
      assert terms == TermsFor(sort[1..]);
    }
    if sort[0].field != "id" && ClauseCompare(sort[0], a, b) == Equal {
      DecidedPair(collate, sort[1..], a, b);
    }
  }

  lemma DecidedOrder(collate: Collation, sort: seq<SortClause>, rows: seq<Hero>, returned: seq<Hero>)
    requires Decides(collate, sort) && Returns(collate, sort, rows, returned)
    ensures returned == SortRows(sort, rows)
  {
    forall i, j | 0 <= i < j < |returned| ensures Before(sort, returned[i], returned[j]) {
      var a, b := returned[i], returned[j];
      OneEach(returned, rows, i, j);
      assert TermsCompare(collate, OrderBy(sort), a, b) != Greater;
      if sort == [] {
        assert TermCompare(collate, OrderBy(sort)[0], a, b) == CompareInt(a.id, b.id);
      } else {
        DecidedPair(collate, sort, a, b);
      }
    }
    SortRowsInOrder(sort, rows);
    InOrderUnique(sort, returned, SortRows(sort, rows));
  }

  // ---- clauses that do not ----

  /** The field of the first clause that is not compared alike; none if there is no such one. */
  ghost function Culprit(collate: Collation, sort: seq<SortClause>): Option<string> {
    if sort == [] then None
    else if !ComparedAlike(collate, sort[0].field) then Some(sort[0].field)
    else Culprit(collate, sort[1..])
  }

  lemma {:induction false} CulpritFields(collate: Collation, sort: seq<SortClause>)
    requires !ReachesId(collate, sort)
    ensures Culprit(collate, sort) in
      {None, Some("name"), Some("power_level"), Some("archived_at"), Some("owner_id")}
    ensures Culprit(collate, sort) == Some("owner_id") ==> !CodePointOrder(collate)
  {
    if sort != [] && ComparedAlike(collate, sort[0].field) { CulpritFields(collate, sort[1..]); }
  }

  /** Rows alike in what comes before the culprit, which the two backends compare in opposite
      ways; without a culprit, rows alike but for their ids. */
  ghost predicate Contrary(collate: Collation, culprit: Option<string>, a: Hero, b: Hero) {
    && a.createdAt == b.createdAt && a.updatedAt == b.updatedAt
    && (culprit != Some("owner_id") ==> a.ownerId == b.ownerId)
    && (culprit.Some? ==>
        && ColumnFor(culprit.value).Some?
        && FieldCompare(a, b, culprit.value) != Equal
        && SqlCompare(collate, ValueOf(a, ColumnFor(culprit.value).value),
                      ValueOf(b, ColumnFor(culprit.value).value))
          == FieldCompare(a, b, culprit.value).Reverse())
  }

  /** Two rows, in id order, that a list of clauses with this culprit does not settle. */
  lemma ContraryRows(collate: Collation, culprit: Option<string>) returns (a: Hero, b: Hero)
    requires Deterministic(collate)
    requires culprit in {None, Some("name"), Some("power_level"), Some("archived_at"), Some("owner_id")}
    requires culprit == Some("owner_id") ==> !CodePointOrder(collate)
    ensures a.id < b.id
    ensures Contrary(collate, culprit, a, b) && Contrary(collate, culprit, b, a)
  {
    a := Hero(1, None, None, None, "", None, 0, 0);
    b := Hero(2, None, None, None, "", None, 0, 0);
    match culprit {
      case None =>
      case Some(field) =>
        if field == "name" { b := b.(name := Some("")); }
        else if field == "power_level" { b := b.(powerLevel := Some(0)); }
        else if field == "archived_at" { b := b.(archivedAt := Some(0)); }
        else {
          var x, y :| collate(x, y) != CompareText(x, y);
          CompareTextLaws(x, y);
          a, b := a.(ownerId := x), b.(ownerId := y);
        }
    }
  }

  lemma {:induction false} ContraryPair(collate: Collation, sort: seq<SortClause>, a: Hero, b: Hero)
    requires !ReachesId(collate, sort) && Contrary(collate, Culprit(collate, sort), a, b)
    requires Before(sort, b, a)
    ensures TermsCompare(collate, TermsFor(sort), a, b) != Greater
  {
    if sort != [] {
      var terms := TermsFor(sort);
      var column := ColumnFor(sort[0].field);
      FieldColumns(collate, a, b, sort[0].field);
      FieldCompareLaws(a, b, sort[0].field);
      if column.Some? {
        assert terms[0] == OrderTerm(column.value, sort[0].descending);
        assert terms[1..] == TermsFor(sort[1..]);
      } else {
        assert terms == TermsFor(sort[1..]);
      }
      if ComparedAlike(collate, sort[0].field) {
        assert ClauseCompare(sort[0], b, a) == Equal;
        ContraryPair(collate, sort[1..], a, b);
      }
    }
  }

  lemma UndecidedPair(collate: Collation, sort: seq<SortClause>) returns (a: Hero, b: Hero)
    requires Deterministic(collate) && !Decides(collate, sort)
    ensures a.id != b.id && Before(sort, b, a)
    ensures TermsCompare(collate, OrderBy(sort), a, b) != Greater
  {
    CulpritFields(collate, sort);
    a, b := ContraryRows(collate, Culprit(collate, sort));
    BeforeTotal(sort, a, b);
    if Before(sort, a, b) { a, b := b, a; }
    ContraryPair(collate, sort, a, b);
  }

  lemma UndecidedOrder(collate: Collation, sort: seq<SortClause>)
    returns (rows: seq<Hero>, returned: seq<Hero>)
    requires Deterministic(collate) && !Decides(collate, sort)
    ensures Returns(collate, sort, rows, returned) && returned != SortRows(sort, rows)
  {
    var a, b := UndecidedPair(collate, sort);
    rows, returned := if a.id < b.id then [a, b] else [b, a], [a, b];
    SameTwo(a, b);
    BeforeTotal(sort, a, b);
    SortRowsInOrder(sort, rows);
    assert !Before(sort, returned[0], returned[1]);
  }

  lemma SameTwo(a: Hero, b: Hero)
    ensures multiset([a, b]) == multiset([b, a])
  {}

  /** Over all tables and all ways in which the server may order ties, the database lists rows
      in the in-memory order if and only if there are no clauses, or they reach `id` before any
      clause on a nullable column, or on a text column with another collation. */
  lemma ListOrderExact(collate: Collation, sort: seq<SortClause>)
    requires Deterministic(collate)
    ensures Decides(collate, sort) <==>
      forall rows, returned | Returns(collate, sort, rows, returned) :: returned == SortRows(sort, rows)
  {
    if Decides(collate, sort) {
      forall rows, returned | Returns(collate, sort, rows, returned)
        ensures returned == SortRows(sort, rows)
      {
        DecidedOrder(collate, sort, rows, returned);
      }
    } else {
      var rows, returned := UndecidedOrder(collate, sort);
    }
  }

  /** What goes wrong on a nullable column: NULL sorts last in one backend and first in the
      other, so a pair is compared alike exactly when both or neither of its rows has a value. */
  lemma NullOrderExact(collate: Collation, a: Hero, b: Hero)
    ensures var sql := SqlCompare(collate, ValueOf(a, PowerLevel), ValueOf(b, PowerLevel));
      sql == FieldCompare(a, b, "power_level") <==> (a.powerLevel.Some? <==> b.powerLevel.Some?)
    ensures var sql := SqlCompare(collate, ValueOf(a, ArchivedAt), ValueOf(b, ArchivedAt));
      sql == FieldCompare(a, b, "archived_at") <==> (a.archivedAt.Some? <==> b.archivedAt.Some?)
    ensures CodePointOrder(collate) ==>
      var sql := SqlCompare(collate, ValueOf(a, Name), ValueOf(b, Name));
      (sql == FieldCompare(a, b, "name") <==> (a.name.Some? <==> b.name.Some?))
  {}
}
