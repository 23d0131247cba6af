/** The in-memory repository: a map from id to record behind a lock, rewritten in place
    (src/hero/repositories/hero_memory.rs:145-352). */
module MemoryRepository {
  import opened Wrappers
  import opened Ordered
  import opened Heroes
  import opened Filtering
  import opened Sorting
  import opened HeroStore

  class HeroMemoryRepository {
    const lower: Lowercase
    var records: map<int, Hero>
    var nextId: I32

    ghost function Contents(): Store reads this { Store(records, nextId) }

    ghost predicate Valid() reads this { Keyed(Contents()) }

    constructor (lower: Lowercase)
      ensures Valid() && this.lower == lower
      ensures Contents() == Store(map[], 1)
    {
      this.lower := lower;
      records := map[];
      nextId := 1;
    }

    /** `values().filter(..).cloned().collect()` */
    method Collect(keep: Hero -> bool) returns (items: seq<Hero>)
      ensures items == InIdOrder(records, IdsWhere(records, keep))
    {
      var rows := records;
      var ids := SortedKeys(rows.Keys);
      assert forall i :: 0 <= i < |ids| ==> ids[i] in ids;
      items := CollectAlong(rows, ids, keep);
      CollectedAll(rows, IdsWhere(rows, keep), items);
    }

    static method CollectAlong(rows: Rows, ids: seq<int>, keep: Hero -> bool)
      returns (items: seq<Hero>)
      requires forall i :: 0 <= i < |ids| ==> ids[i] in rows
      ensures Collected(rows, ids, IdsWhere(rows, keep), items)
    {
      ghost var wanted := IdsWhere(rows, keep);
      items := [];
      for i := 0 to |ids|
        invariant Collected(rows, ids[..i], wanted, items)
      {
        CollectNext(rows, ids, i, wanted, items);
        if keep(rows[ids[i]]) {
          items := items + [rows[ids[i]]];
        }
      }
      assert ids[..|ids|] == ids;
    }

    method List(opts: ListOptions) returns (page: seq<Hero>)
      requires Valid()
      ensures page == ListOf(lower, records, opts)
    {
      var keep := Scope(lower, opts.filters, opts.includeArchived, opts.onlyArchived);
      var items := Collect(keep);
      var sorted := new Hero[|items|](i requires 0 <= i < |items| => items[i]);
      assert sorted[..] == items;
      if opts.sort == [] {
        SortBy(sorted, SortClause("id", false));
        InIdOrderIsOrdered(records, IdsWhere(records, keep));
        SortByIdIsNoChange(items);
      } else {
        ApplySort(sorted, opts.sort);
      }
      page := Page(sorted[..], opts.skip, opts.limit);
    }

    method Count(filters: seq<FilterClause>, includeArchived: bool, onlyArchived: bool)
      returns (count: nat)
      ensures count == CountOf(lower, records, filters, includeArchived, onlyArchived)
    {
      var items := Collect(Scope(lower, filters, includeArchived, onlyArchived));
      count := |items|;
    }

    method Get(id: int, includeArchived: bool) returns (found: Option<Hero>)
      ensures found == GetOf(records, id, includeArchived)
    {
      if id !in records { return None; }
      var hero := records[id];
      found := if includeArchived || hero.archivedAt.None? then Some(hero) else None;
    }

    method Create(owner: string, data: HeroCreate, now: Time) returns (model: Hero)
      requires Valid() && nextId < I32_MAX
      modifies this
      ensures Valid()
      ensures var op := Op.Create(owner, data, now);
        && Contents() == After(lower, old(Contents()), op)
        && One(Some(model)) == ReplyOf(lower, old(Contents()), op)
      ensures model.id == old(nextId) && model.id !in old(records)
    {
      var id := nextId;
      nextId := nextId + 1;
      model := Hero(id, Some(data.name), Some(data.powers), data.powerLevel, owner, None, now, now);
      records := records[id := model];
    }

    method Update(id: int, owner: string, data: HeroUpdate, now: Time) returns (result: Option<Hero>)
      requires Valid()
      modifies this`records
      ensures Valid()
      ensures var op := Op.Update(id, owner, data, now);
        && Contents() == After(lower, old(Contents()), op)
        && One(result) == ReplyOf(lower, old(Contents()), op)
    {
      if id !in records { return None; }
      var existing := records[id];
      if existing.ownerId != owner || existing.archivedAt.Some? { return None; }
      existing := ApplyUpdate(existing, data, now);
      records := records[id := existing];
      result := Some(existing);
    }

    method RewriteWhere(keep: Hero -> bool, change: (int, Hero) -> Hero)
      returns (changed: seq<Hero>)
      modifies this`records
      ensures var hits := IdsWhere(old(records), keep);
        && records == Rewrite(old(records), hits, change)
        && changed == InIdOrder(records, hits)
    {
      ghost var before := records;
      var ids := SortedKeys(records.Keys);
      changed := RewriteAlong(ids, keep, change);
      CollectedAll(records, IdsWhere(before, keep), changed);
    }

    /** The bulk loop: test a row as it is found, rewrite it in place, keep a copy. */
    method RewriteAlong(ids: seq<int>, keep: Hero -> bool, change: (int, Hero) -> Hero)
      returns (changed: seq<Hero>)
      requires Enumerates(ids, records.Keys)
      modifies this`records
      ensures var hits := IdsWhere(old(records), keep);
        && records == Rewrite(old(records), hits, change)
        && Collected(records, ids, hits, changed)
    {
      ghost var before := records;
      ghost var hits := IdsWhere(before, keep);
      ghost var after := Rewrite(before, hits, change);
      changed := [];
      RewroteAll(ids, before.Keys, hits);
      RewriteNothing(before, change);
      for i := 0 to |ids|
        invariant records == Rewrite(before, Behind(ids, i, hits), change)
        invariant Collected(after, ids[..i], hits, changed)
      {
        RewriteNext(before, ids, i, hits, change);
        CollectNext(after, ids, i, hits, changed);
        var hero := records[ids[i]];
        if !keep(hero) { continue; }
        hero := change(ids[i], hero);
        records := records[ids[i] := hero];
        changed := changed + [hero];
      }
      assert ids[..|ids|] == ids;
    }

    /** `stamp(id)` is what the clock reads when the loop is at `id`. */
    method UpdateMany(filters: seq<FilterClause>, data: HeroUpdate, stamp: int -> Time)
      returns (updated: seq<Hero>)
      requires Valid()
      modifies this`records
      ensures Valid()
      ensures var op := Op.UpdateMany(filters, data, stamp);
        && Contents() == After(lower, old(Contents()), op)
        && Many(updated) == ReplyOf(lower, old(Contents()), op)
    {
      ghost var op := Op.UpdateMany(filters, data, stamp);
      var change := (id: int, hero: Hero) => ApplyUpdate(hero, data, stamp(id));
      LoopIsBulkWrite(lower, Contents(), op, change);
      updated := RewriteWhere(Scope(lower, filters, false, false), change);
    }

    /** The two readings of the clock are separate calls. */
    method Delete(id: int, owner: string, archivedAt: Time, updatedAt: Time) returns (done: bool)
      requires Valid()
      modifies this`records
      ensures Valid()
      ensures var op := Op.Delete(id, owner, archivedAt, updatedAt);
        && Contents() == After(lower, old(Contents()), op)
        && Done(done) == ReplyOf(lower, old(Contents()), op)
    {
      if id !in records { return false; }
      var existing := records[id];
      if existing.ownerId != owner || existing.archivedAt.Some? { return false; }
      existing := existing.(archivedAt := Some(archivedAt));
      existing := existing.(updatedAt := updatedAt);
      records := records[id := existing];
      done := true;
    }

    method DeleteMany(filters: seq<FilterClause>, now: Time) returns (deleted: seq<Hero>)
      requires Valid()
      modifies this`records
      ensures Valid()
      ensures var op := Op.DeleteMany(filters, now);
        && Contents() == After(lower, old(Contents()), op)
        && Many(deleted) == ReplyOf(lower, old(Contents()), op)
    {
      ghost var op := Op.DeleteMany(filters, now);
      var change := (_: int, hero: Hero) => Archive(hero, now, now);
      LoopIsBulkWrite(lower, Contents(), op, change);
      deleted := RewriteWhere(Scope(lower, filters, false, false), change);
    }
  }

  /** Sorting rows by id that already are in id order changes nothing. */
  lemma SortByIdIsNoChange(rows: seq<Hero>)
    requires InOrder([], rows)
    ensures StableSort(SortClause("id", false), rows) == rows
  {}
}
