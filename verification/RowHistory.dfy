/** What a later state of the rows owes an earlier one, whichever backend wrote in between
    (src/hero/repositories/hero_memory.rs:225-352, hero_sea_orm.rs:179-284). */
module RowHistory {
  import opened Wrappers
  import opened Heroes
  import opened Filtering
  import opened HeroStore

  predicate SameIdentity(a: Hero, b: Hero) {
    a.id == b.id && a.ownerId == b.ownerId && a.createdAt == b.createdAt
  }

  /** No row is gone, identity, owner and creation are untouched, an archived row is as it was,
      and the rows that are new are those of the ids handed out since. */
  ghost predicate Evolved(s: Store, t: Store) {
    && s.nextId <= t.nextId
    && (forall id :: id in t.rows <==> id in s.rows || s.nextId <= id < t.nextId)
    && (forall id :: id in s.rows ==>
         && SameIdentity(s.rows[id], t.rows[id])
         && (!s.rows[id].Live() ==> t.rows[id] == s.rows[id]))
  }

  lemma EvolvedOn(s: Store, t: Store, u: Store)
    requires Evolved(s, t) && Evolved(t, u)
    ensures Evolved(s, u)
  {}

  ghost predicate AllLive(rows: Rows, ids: set<int>) {
    forall id :: id in ids ==> id in rows && rows[id].Live()
  }

  lemma ChangeKeepsIdentity(op: Op, id: int, row: Hero)
    ensures SameIdentity(row, Change(op)(id, row))
  {
    match op {
      case Update(_, _, data, now) => assert Change(op)(id, row) == ApplyUpdate(row, data, now);
      case UpdateMany(_, data, stamp) => assert Change(op)(id, row) == ApplyUpdate(row, data, stamp(id));
      case Delete(_, _, at, now) => assert Change(op)(id, row) == Archive(row, at, now);
      case DeleteMany(_, now) => assert Change(op)(id, row) == Archive(row, now, now);
      case _ => assert Change(op)(id, row) == row;
    }
  }

  /** A write evolves the rows whichever live ones it reaches. */
  lemma RewriteEvolves(s: Store, ids: set<int>, op: Op)
    requires Keyed(s) && AllLive(s.rows, ids)
    ensures var t := Store(Rewrite(s.rows, ids, Change(op)), s.nextId);
      Keyed(t) && Evolved(s, t)
  {
    forall id | id in s.rows ensures SameIdentity(s.rows[id], Rewrite(s.rows, ids, Change(op))[id]) {
      ChangeKeepsIdentity(op, id, s.rows[id]);
    }
  }

  // ---- counting over a history ----

  lemma Unfiltered(lower: Lowercase, rows: Rows)
    ensures Selected(lower, rows, [], true, false) == rows.Keys
    ensures Selected(lower, rows, [], false, false) == set id | id in rows && rows[id].Live()
  {}

  lemma SubsetSize(a: set<int>, b: set<int>)
    requires a <= b
    ensures |a| <= |b|
  {
    assert b == a + (b - a);
  }

  /** The ids handed out while the counter went from one value to another. */
  function HandedOut(first: int, end: int): (ids: set<int>)
    requires first <= end
    ensures forall id :: id in ids <==> first <= id < end
    ensures |ids| == end - first
    decreases end - first
  {
    if first == end then {} else {first} + HandedOut(first + 1, end)
  }

  /** The archived figure of `/stats`: with the visible rows counted first, all rows less visible
      rows is never negative, whatever is written between the two counts. */
  lemma VisibleAtMostAll(lower: Lowercase, s: Store, t: Store)
    requires Evolved(s, t)
    ensures CountOf(lower, s.rows, [], false, false) <= CountOf(lower, t.rows, [], true, false)
  {
    Unfiltered(lower, s.rows);
    Unfiltered(lower, t.rows);
    forall id | id in s.rows.Keys ensures id in t.rows.Keys { assert id in s.rows; }
    SubsetSize(Selected(lower, s.rows, [], false, false), Selected(lower, t.rows, [], true, false));
  }

  lemma JoinSize(whole: set<int>, a: set<int>, b: set<int>)
    requires forall id :: id in whole <==> id in a || id in b
    requires forall id :: id in a ==> id !in b
    ensures |whole| == |a| + |b|
  {
    assert forall id :: id in whole <==> id in a + b;
    assert forall id :: id in a * b <==> id in {};
    assert whole == a + b && a * b == {};
  }

  /** All rows grow by exactly those created since. */
  lemma AllRowsGrow(lower: Lowercase, s: Store, t: Store)
    requires Keyed(s) && Evolved(s, t)
    ensures CountOf(lower, t.rows, [], true, false)
      == CountOf(lower, s.rows, [], true, false) + (t.nextId - s.nextId)
  {
    Unfiltered(lower, s.rows);
    Unfiltered(lower, t.rows);
    var before, after, created := s.rows.Keys, t.rows.Keys, HandedOut(s.nextId, t.nextId);
    forall id ensures id in after <==> id in before || id in created {
      assert id in after <==> id in t.rows;
    }
    forall id | id in before ensures id !in created { assert id in s.rows; }
    JoinSize(after, before, created);
  }

  // ---- stamps ----

  /** The stamps of a row: created, then perhaps archived, then last touched. */
  predicate Stamped(row: Hero, clock: Time) {
    && row.createdAt <= row.updatedAt <= clock
    && (row.archivedAt.Some? ==> row.createdAt <= row.archivedAt.value <= row.updatedAt)
  }

  ghost predicate AllStamped(s: Store, clock: Time) {
    forall id :: id in s.rows ==> Stamped(s.rows[id], clock)
  }
}
