/** The multi-key sort of the in-memory repository, built from stable single-key sorts
    (src/hero/repositories/hero_memory.rs:104-132), and paging over its result. */
module Sorting {
  import opened Wrappers
  import opened Heroes
  import opened Text

  datatype SortClause = SortClause(field: string, descending: bool)

  /** `Option`'s own order: no value is below every value. */
  function CompareOption<T>(a: Option<T>, b: Option<T>, compare: (T, T) -> Ordering): Ordering {
    match (a, b)
    case (None, None) => Equal
    case (None, Some(_)) => Less
    case (Some(_), None) => Greater
    case (Some(x), Some(y)) => compare(x, y)
  }

  function FieldCompare(a: Hero, b: Hero, field: string): Ordering {
    if field == "id" then CompareInt(a.id, b.id)
    else if field == "power_level" then
      CompareOption(a.powerLevel, b.powerLevel, (x: I32, y: I32) => CompareInt(x, y))
    else if field == "name" then CompareOption(a.name, b.name, CompareText)
    else if field == "owner_id" then CompareText(a.ownerId, b.ownerId)
    else if field == "created_at" then CompareInt(a.createdAt, b.createdAt)
    else if field == "updated_at" then CompareInt(a.updatedAt, b.updatedAt)
    else if field == "archived_at" then CompareOption(a.archivedAt, b.archivedAt, CompareInt)
    else Equal
  }

  /** The comparator handed to one `sort_by` pass. */
  function ClauseCompare(clause: SortClause, a: Hero, b: Hero): Ordering {
    var ord := FieldCompare(a, b, clause.field);
    if clause.descending then ord.Reverse() else ord
  }

  lemma FieldCompareLaws(a: Hero, b: Hero, field: string)
    ensures FieldCompare(b, a, field) == FieldCompare(a, b, field).Reverse()
  {
    CompareTextLaws(a.ownerId, b.ownerId);
    if a.name.Some? && b.name.Some? { CompareTextLaws(a.name.value, b.name.value); }
  }

  lemma FieldCompareTransitive(a: Hero, b: Hero, c: Hero, field: string)
    requires FieldCompare(a, b, field) != Greater && FieldCompare(b, c, field) != Greater
    ensures FieldCompare(a, c, field) != Greater
    ensures FieldCompare(a, c, field) == Equal ==>
      FieldCompare(a, b, field) == Equal && FieldCompare(b, c, field) == Equal
  {
    if field == "owner_id" {
      CompareTextTransitive(a.ownerId, b.ownerId, c.ownerId);
    } else if field == "name" && a.name.Some? && b.name.Some? && c.name.Some? {
      CompareTextTransitive(a.name.value, b.name.value, c.name.value);
    }
  }

  lemma ClauseCompareTransitive(clause: SortClause, a: Hero, b: Hero, c: Hero)
    requires ClauseCompare(clause, a, b) != Greater && ClauseCompare(clause, b, c) != Greater
    ensures ClauseCompare(clause, a, c) != Greater
    ensures ClauseCompare(clause, a, c) == Equal ==>
      ClauseCompare(clause, a, b) == Equal && ClauseCompare(clause, b, c) == Equal
  {
    FieldCompareLaws(a, b, clause.field);
    FieldCompareLaws(b, c, clause.field);
    FieldCompareLaws(a, c, clause.field);
    if clause.descending {
      FieldCompareTransitive(c, b, a, clause.field);
    } else {
      FieldCompareTransitive(a, b, c, clause.field);
    }
  }

  // ---- one stable pass ----

  /** Where a stable sort puts a row that preceded all of `sorted`: before its equals. */
  function Insert(clause: SortClause, row: Hero, sorted: seq<Hero>): seq<Hero> {
    if sorted == [] || ClauseCompare(clause, row, sorted[0]) != Greater then [row] + sorted
    else [sorted[0]] + Insert(clause, row, sorted[1..])
  }

  function StableSort(clause: SortClause, rows: seq<Hero>): (r: seq<Hero>)
    ensures |r| == |rows|
  {
    if rows == [] then []
    else
      InsertLength(clause, rows[0], StableSort(clause, rows[1..]));
      Insert(clause, rows[0], StableSort(clause, rows[1..]))
  }

  lemma {:induction false} InsertLength(clause: SortClause, row: Hero, sorted: seq<Hero>)
    ensures |Insert(clause, row, sorted)| == |sorted| + 1
  {
    if sorted != [] { InsertLength(clause, row, sorted[1..]); }
  }

  lemma {:induction false} InsertRows(clause: SortClause, row: Hero, sorted: seq<Hero>)
    ensures multiset(Insert(clause, row, sorted)) == multiset([row] + sorted)
  {
    if sorted != [] {
      InsertRows(clause, row, sorted[1..]);
      assert sorted == [sorted[0]] + sorted[1..];
    }
  }

  /** The whole sort: one stable pass per clause, the last clause first. */
  function SortRows(sort: seq<SortClause>, rows: seq<Hero>): (r: seq<Hero>)
    ensures |r| == |rows|
  {
    if sort == [] then rows
    else StableSort(sort[0], SortRows(sort[1..], rows))
  }

  // ---- what the passes add up to ----

  /** The order a reader of the query expects: by the first clause, ties by the second and so
      on, and what is tied on every clause by id. */
  predicate Before(sort: seq<SortClause>, a: Hero, b: Hero) {
    if sort == [] then a.id < b.id
    else
      match ClauseCompare(sort[0], a, b)
      case Less => true
      case Equal => Before(sort[1..], a, b)
      case Greater => false
  }

  /** How two optional values stand: no value is below every value. */
  predicate BelowOption<T>(a: Option<T>, b: Option<T>, below: (T, T) -> bool) {
    b.Some? && (a.None? || below(a.value, b.value))
  }

  /** What each field's comparison says of the rows' own values: numbers and times by size, ... */
  lemma FieldsByValue(a: Hero, b: Hero)
    ensures FieldCompare(a, b, "id") == Less <==> a.id < b.id
    ensures FieldCompare(a, b, "created_at") == Less <==> a.createdAt < b.createdAt
    ensures FieldCompare(a, b, "updated_at") == Less <==> a.updatedAt < b.updatedAt
    ensures FieldCompare(a, b, "power_level") == Less
      <==> BelowOption(a.powerLevel, b.powerLevel, (x: I32, y: I32) => x < y)
    ensures FieldCompare(a, b, "archived_at") == Less
      <==> BelowOption(a.archivedAt, b.archivedAt, (x: Time, y: Time) => x < y)
  {}

  /** ... texts by code points, and a missing value below all others. */
  lemma TextFieldsByValue(a: Hero, b: Hero)
    ensures FieldCompare(a, b, "owner_id") == Less <==> Precedes(a.ownerId, b.ownerId)
    ensures FieldCompare(a, b, "name") == Less <==> BelowOption(a.name, b.name, Precedes)
  {
    CompareTextExact(a.ownerId, b.ownerId);
    if a.name.Some? && b.name.Some? { CompareTextExact(a.name.value, b.name.value); }
  }

  /** What a clause adds to the order: ascending, the row with the lesser value comes first,
      descending the one with the greater; rows alike in it are left to the clauses after it. */
  lemma ClauseDecides(field: string, descending: bool, rest: seq<SortClause>, a: Hero, b: Hero)
    ensures Before([SortClause(field, descending)] + rest, a, b) <==>
      if FieldCompare(a, b, field) == Less then !descending
      else if FieldCompare(b, a, field) == Less then descending
      else Before(rest, a, b)
  {
    var clause := SortClause(field, descending);
    assert ([clause] + rest)[1..] == rest && ([clause] + rest)[0] == clause;
    FieldCompareLaws(a, b, field);
  }

  lemma {:induction false} BeforeTransitive(sort: seq<SortClause>, a: Hero, b: Hero, c: Hero)
    requires Before(sort, a, b) && Before(sort, b, c)
    ensures Before(sort, a, c)
  {
    if sort != [] {
      ClauseCompareTransitive(sort[0], a, b, c);
      if ClauseCompare(sort[0], a, c) == Equal {
        BeforeTransitive(sort[1..], a, b, c);
      }
    }
  }

  /** The order is strict and total on rows with different ids. */
  lemma {:induction false} BeforeTotal(sort: seq<SortClause>, a: Hero, b: Hero)
    ensures !(Before(sort, a, b) && Before(sort, b, a))
    ensures a.id != b.id ==> Before(sort, a, b) || Before(sort, b, a)
  {
    if sort != [] {
      FieldCompareLaws(a, b, sort[0].field);
      BeforeTotal(sort[1..], a, b);
    }
  }

  ghost predicate InOrder(sort: seq<SortClause>, rows: seq<Hero>) {
    forall i, j :: 0 <= i < j < |rows| ==> Before(sort, rows[i], rows[j])
  }

  lemma {:induction false} InsertKeepsOrder(sort: seq<SortClause>, row: Hero, sorted: seq<Hero>)
    requires sort != [] && InOrder(sort, sorted)
    requires forall r :: r in sorted ==> Before(sort[1..], row, r)
    ensures InOrder(sort, Insert(sort[0], row, sorted))
  {
    if sorted != [] {
      var head, tail := sorted[0], sorted[1..];
      assert head in sorted;
      var result := Insert(sort[0], row, sorted);
      if ClauseCompare(sort[0], row, head) != Greater {
        assert Before(sort, row, head);
        forall i, j | 0 <= i < j < |result| ensures Before(sort, result[i], result[j]) {
          if i == 0 {
            if j > 1 { BeforeTransitive(sort, row, head, sorted[j - 1]); }
          } else {
            assert result[i] == sorted[i - 1] && result[j] == sorted[j - 1];
          }
        }
      } else {
        FieldCompareLaws(row, head, sort[0].field);
        assert Before(sort, head, row);
        forall i, j | 0 <= i < j < |tail| ensures Before(sort, tail[i], tail[j]) {
          assert tail[i] == sorted[i + 1] && tail[j] == sorted[j + 1];
        }
        InsertKeepsOrder(sort, row, tail);
        InsertRows(sort[0], row, tail);
        var rest := Insert(sort[0], row, tail);
        forall j | 0 <= j < |rest| ensures Before(sort, head, rest[j]) {
          assert rest[j] in multiset(rest);
          assert rest[j] in multiset([row] + tail);
          if rest[j] != row {
            assert rest[j] in tail;
            var k :| 0 <= k < |tail| && tail[k] == rest[j];
            assert Before(sort, sorted[0], sorted[k + 1]);
          }
        }
      }
    }
  }

  lemma {:induction false} StableSortRows(clause: SortClause, rows: seq<Hero>)
    ensures multiset(StableSort(clause, rows)) == multiset(rows)
  {
    if rows != [] {
      StableSortRows(clause, rows[1..]);
      InsertRows(clause, rows[0], StableSort(clause, rows[1..]));
      assert rows == [rows[0]] + rows[1..];
    }
  }

  /** One stable pass refines the order its input already had. */
  lemma {:induction false} StableSortRefines(sort: seq<SortClause>, rows: seq<Hero>)
    requires sort != [] && InOrder(sort[1..], rows)
    ensures InOrder(sort, StableSort(sort[0], rows))
  {
    if rows != [] {
      var tail := rows[1..];
      forall i, j | 0 <= i < j < |tail| ensures Before(sort[1..], tail[i], tail[j]) {
        assert tail[i] == rows[i + 1] && tail[j] == rows[j + 1];
      }
      StableSortRefines(sort, tail);
      StableSortRows(sort[0], tail);
      var sorted := StableSort(sort[0], tail);
      forall r | r in sorted ensures Before(sort[1..], rows[0], r) {
        assert r in multiset(sorted);
        assert r in tail;
        var k :| 0 <= k < |tail| && tail[k] == r;
        assert Before(sort[1..], rows[0], rows[k + 1]);
      }
      InsertKeepsOrder(sort, rows[0], sorted);
    }
  }

  /** The reverse-priority fold of stable sorts over rows in id order is a permutation in
      strict (clause 1, ..., clause n, id) order. */
  lemma {:induction false} SortRowsInOrder(sort: seq<SortClause>, rows: seq<Hero>)
    requires InOrder([], rows)
    ensures InOrder(sort, SortRows(sort, rows))
    ensures multiset(SortRows(sort, rows)) == multiset(rows)
  {
    if sort != [] {
      SortRowsInOrder(sort[1..], rows);
      StableSortRefines(sort, SortRows(sort[1..], rows));
      StableSortRows(sort[0], SortRows(sort[1..], rows));
    }
  }

  lemma HeadIsFirst(sort: seq<SortClause>, rows: seq<Hero>, r: Hero)
    requires InOrder(sort, rows) && r in rows
    ensures r == rows[0] || Before(sort, rows[0], r)
  {}

  /** That order leaves no choice: it determines the whole sequence. */
  lemma {:induction false} InOrderUnique(sort: seq<SortClause>, a: seq<Hero>, b: seq<Hero>)
    requires InOrder(sort, a) && InOrder(sort, b)
    requires multiset(a) == multiset(b)
    ensures a == b
  {
    assert |a| == |multiset(a)| == |multiset(b)| == |b|;
    if a != [] {
      assert a[0] in multiset(a) && b[0] in multiset(b);
      HeadIsFirst(sort, a, b[0]);
      HeadIsFirst(sort, b, a[0]);
      BeforeTotal(sort, a[0], b[0]);
      TailRows(a);
      TailRows(b);
      TailInOrder(sort, a);
      TailInOrder(sort, b);
      InOrderUnique(sort, a[1..], b[1..]);
    }
  }

  lemma TailRows(rows: seq<Hero>)
    requires rows != []
    ensures multiset(rows[1..]) == multiset(rows) - multiset{rows[0]}
  {
    assert rows == [rows[0]] + rows[1..];
  }

  lemma TailInOrder(sort: seq<SortClause>, rows: seq<Hero>)
    requires rows != [] && InOrder(sort, rows)
    ensures InOrder(sort, rows[1..])
  {}

  // ---- one pass over rows in any order ----

  ghost predicate SortedBy(clause: SortClause, rows: seq<Hero>) {
    forall i, j :: 0 <= i < j < |rows| ==> ClauseCompare(clause, rows[i], rows[j]) != Greater
  }

  lemma {:induction false} InsertSorts(clause: SortClause, row: Hero, sorted: seq<Hero>)
    requires SortedBy(clause, sorted)
    ensures SortedBy(clause, Insert(clause, row, sorted))
  {
    if sorted != [] {
      var head, tail := sorted[0], sorted[1..];
      var result := Insert(clause, row, sorted);
      if ClauseCompare(clause, row, head) != Greater {
        forall j | 0 <= j < |sorted| ensures ClauseCompare(clause, row, sorted[j]) != Greater {
          if j > 0 { ClauseCompareTransitive(clause, row, head, sorted[j]); }
        }
      } else {
        FieldCompareLaws(row, head, clause.field);
        InsertSorts(clause, row, tail);
        InsertRows(clause, row, tail);
        var rest := Insert(clause, row, tail);
        forall j | 0 <= j < |rest| ensures ClauseCompare(clause, head, rest[j]) != Greater {
          assert rest[j] in multiset(rest);
          assert rest[j] in multiset([row] + tail);
          assert rest[j] == row || rest[j] in tail;
        }
      }
    }
  }

  lemma {:induction false} StableSortSorts(clause: SortClause, rows: seq<Hero>)
    ensures SortedBy(clause, StableSort(clause, rows))
  {
    if rows != [] {
      StableSortSorts(clause, rows[1..]);
      InsertSorts(clause, rows[0], StableSort(clause, rows[1..]));
    }
  }

  /** Sorting any arrangement of rows by id gives the one arrangement in id order. */
  lemma SortById(rows: seq<Hero>, ordered: seq<Hero>)
    requires InOrder([], ordered) && multiset(rows) == multiset(ordered)
    ensures StableSort(SortClause("id", false), rows) == ordered
  {
    var byId := SortClause("id", false);
    StableSortSorts(byId, rows);
    StableSortRows(byId, rows);
    var sorted := StableSort(byId, rows);
    forall i, j | 0 <= i < j < |sorted| ensures Before([], sorted[i], sorted[j]) {
      assert sorted[i].id <= sorted[j].id by {
        assert ClauseCompare(byId, sorted[i], sorted[j]) != Greater;
      }
      OneEach(sorted, ordered, i, j);
    }
    InOrderUnique([], sorted, ordered);
  }

  lemma OnlyOnce(ordered: seq<Hero>, a: nat)
    requires InOrder([], ordered) && a < |ordered|
    ensures multiset(ordered)[ordered[a]] == 1
  {
    assert ordered == ordered[..a] + [ordered[a]] + ordered[a + 1..];
    assert ordered[a] !in ordered[..a];
    assert ordered[a] !in ordered[a + 1..];
  }

  lemma AtLeastTwice(rows: seq<Hero>, i: nat, j: nat)
    requires i < j < |rows| && rows[i] == rows[j]
    ensures multiset(rows)[rows[i]] >= 2
  {
    assert rows == rows[..i] + [rows[i]] + rows[i + 1..j] + [rows[j]] + rows[j + 1..];
  }

  /** Rows that are those of an id order have different ids. */
  lemma OneEach(rows: seq<Hero>, ordered: seq<Hero>, i: nat, j: nat)
    requires InOrder([], ordered) && multiset(rows) == multiset(ordered)
    requires i < j < |rows|
    ensures rows[i].id != rows[j].id
  {
    assert rows[i] in multiset(rows) && rows[j] in multiset(rows);
    assert rows[i] in ordered && rows[j] in ordered;
    var a :| 0 <= a < |ordered| && ordered[a] == rows[i];
    var b :| 0 <= b < |ordered| && ordered[b] == rows[j];
    OnlyOnce(ordered, a);
    if rows[i] == rows[j] { AtLeastTwice(rows, i, j); }
    assert a != b;
    assert Before([], ordered[if a < b then a else b], ordered[if a < b then b else a]);
  }

  // ---- in place ----

  /** `slice::sort_by` with one clause's comparator: stable, in place. */
  method SortBy(rows: array<Hero>, clause: SortClause)
    modifies rows
    ensures rows[..] == StableSort(clause, old(rows[..]))
  {
    ghost var was := rows[..];
    var i := rows.Length;
    while i > 0
      invariant 0 <= i <= rows.Length
      invariant rows[..i] == was[..i]
      invariant rows[i..] == StableSort(clause, was[i..])
    {
      i := i - 1;
      assert was[i..] == [was[i]] + was[i + 1..];
      ghost var sorted := rows[i + 1..];
      assert rows[i] == rows[..i + 1][i] == was[i];
      SiftIn(rows, clause, i);
      assert rows[i..] == Insert(clause, was[i], sorted);
      assert rows[..i] == was[..i];
    }
    assert rows[0..] == rows[..] && was[0..] == was;
  }

  /** Move the row at `i` right, past the rows that must precede it. */
  method SiftIn(rows: array<Hero>, clause: SortClause, i: nat)
    requires i < rows.Length
    modifies rows
    ensures rows[..i] == old(rows[..i])
    ensures rows[i..] == Insert(clause, old(rows[i]), old(rows[i + 1..]))
    decreases rows.Length - i
  {
    ghost var row, sorted := rows[i], rows[i + 1..];
    if i + 1 < rows.Length && ClauseCompare(clause, rows[i], rows[i + 1]) == Greater {
      rows[i], rows[i + 1] := rows[i + 1], rows[i];
      assert rows[i + 2..] == sorted[1..];
      assert rows[..i] == old(rows[..i]);
      ghost var front := rows[..i + 1];
      SiftIn(rows, clause, i + 1);
      assert rows[i] == front[i] == sorted[0];
      assert rows[..i] == front[..i];
      assert rows[i..] == [rows[i]] + rows[i + 1..];
    } else {
      assert rows[i..] == [row] + sorted;
    }
  }

  /** `apply_sort`: the clauses in reverse, one pass each. */
  method ApplySort(rows: array<Hero>, sort: seq<SortClause>)
    modifies rows
    ensures rows[..] == SortRows(sort, old(rows[..]))
  {
    var k := |sort|;
    while k > 0
      invariant 0 <= k <= |sort|
      invariant rows[..] == SortRows(sort[k..], old(rows[..]))
    {
      k := k - 1;
      SortBy(rows, sort[k]);
      assert sort[k..] == [sort[k]] + sort[k + 1..];
    }
    assert sort[0..] == sort;
  }

  // ---- paging ----

  /** `skip(skip).take(limit)` */
  function Page(rows: seq<Hero>, skip: nat, limit: nat): seq<Hero> {
    if skip >= |rows| then []
    else if skip + limit >= |rows| then rows[skip..]
    else rows[skip..skip + limit]
  }

  /** These rows are those of `rows` from `skip` on, `limit` of them or as many as there are. */
  predicate Stretch(page: seq<Hero>, rows: seq<Hero>, skip: nat, limit: nat) {
    && |page| == (if skip >= |rows| then 0 else if |rows| - skip < limit then |rows| - skip else limit)
    && forall i :: 0 <= i < |page| ==> page[i] == rows[skip + i]
  }

  lemma PageIsStretch(rows: seq<Hero>, skip: nat, limit: nat)
    ensures Stretch(Page(rows, skip, limit), rows, skip, limit)
  {}

  /** Where a page starts, pages being numbered from 0. */
  function PageStart(page: nat, limit: nat): nat { page * limit }

  /** The first `count` pages, end to end. */
  function Pages(rows: seq<Hero>, limit: nat, count: nat): seq<Hero> {
    if count == 0 then []
    else Pages(rows, limit, count - 1) + Page(rows, PageStart(count - 1, limit), limit)
  }

  lemma OneMorePage(count: nat, limit: nat)
    requires count > 0
    ensures PageStart(count - 1, limit) + limit == PageStart(count, limit)
  {}

  /** The first `n` rows, or all if there are no more. */
  function UpTo(rows: seq<Hero>, n: nat): seq<Hero> {
    if n >= |rows| then rows else rows[..n]
  }

  lemma UpToPage(rows: seq<Hero>, start: nat, limit: nat)
    ensures UpTo(rows, start) + Page(rows, start, limit) == UpTo(rows, start + limit)
  {}

  /** Consecutive pages are the list, cut at the last row or at `count * limit`: no row is
      missed or repeated, and enough pages hold all of it. */
  lemma {:induction false} PagesPartition(rows: seq<Hero>, limit: nat, count: nat)
    ensures Pages(rows, limit, count) == UpTo(rows, PageStart(count, limit))
  {
    if count > 0 {
      PagesPartition(rows, limit, count - 1);
      OneMorePage(count, limit);
      UpToPage(rows, PageStart(count - 1, limit), limit);
    }
  }
}
