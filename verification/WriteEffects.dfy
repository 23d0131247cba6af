/** What each write does, field by field, to the rows that are read back afterwards
    (src/hero/repositories/hero_memory.rs:225-352). Both backends are proved to do as
    `HeroStore.After` and `ReplyOf` say; here is what those say. */
module WriteEffects {
  import opened Wrappers
  import opened Ordered
  import opened Heroes
  import opened Filtering
  import opened HeroStore
  import opened RowHistory

  /** Every row but one is as it was, and no row is new or gone. */
  ghost predicate OthersKept(s: Store, t: Store, id: int) {
    && t.rows.Keys == s.rows.Keys && t.nextId == s.nextId
    && forall k :: k in s.rows && k != id ==> t.rows[k] == s.rows[k]
  }

  // ---- create ----

  /** A create stores the request's every field, all powers in order, as a live row under the
      next id, and answers with it; no other row changes. */
  lemma CreateStores(lower: Lowercase, s: Store, owner: string, data: HeroCreate, now: Time)
    requires Keyed(s) && s.nextId < I32_MAX
    ensures var t := After(lower, s, Create(owner, data, now));
      && s.nextId !in s.rows && t.rows.Keys == s.rows.Keys + {s.nextId} && t.nextId == s.nextId + 1
      && (forall k :: k in s.rows ==> t.rows[k] == s.rows[k])
      && var row := t.rows[s.nextId];
      && row.id == s.nextId && row.ownerId == owner && row.archivedAt == None
      && row.name == Some(data.name) && row.powers == Some(data.powers)
      && row.powerLevel == data.powerLevel
      && row.createdAt == now && row.updatedAt == now
      && ReplyOf(lower, s, Create(owner, data, now)) == One(Some(row))
  {}

  // ---- update ----

  /** An update of a live row by its owner writes the fields it gives and the modification stamp,
      and nothing else. */
  lemma UpdateWrites(lower: Lowercase, s: Store, id: int, owner: string, data: HeroUpdate, now: Time)
    requires id in s.rows && s.rows[id].ownerId == owner && s.rows[id].archivedAt == None
    ensures var t := After(lower, s, Update(id, owner, data, now));
      && OthersKept(s, t, id)
      && UpdatedTo(s.rows[id], t.rows[id], data, now)
      && ReplyOf(lower, s, Update(id, owner, data, now)) == One(Some(t.rows[id]))
  {}

  predicate UpdatedTo(before: Hero, after: Hero, data: HeroUpdate, now: Time) {
    && (data.name.Some? ==> after.name == data.name)
    && (data.name.None? ==> after.name == before.name)
    && (data.powers.Some? ==> after.powers == data.powers)
    && (data.powers.None? ==> after.powers == before.powers)
    && (data.powerLevel.Some? ==> after.powerLevel == data.powerLevel)
    && (data.powerLevel.None? ==> after.powerLevel == before.powerLevel)
    && after.updatedAt == now
    && after.id == before.id && after.ownerId == before.ownerId
    && after.archivedAt == before.archivedAt && after.createdAt == before.createdAt
  }

  /** An update or delete of a row that is not there, not the caller's or already archived
      changes nothing, and says so. */
  lemma OthersAreRefused(lower: Lowercase, s: Store, id: int, owner: string, data: HeroUpdate,
                         at: Time, now: Time)
    requires id in s.rows ==> s.rows[id].ownerId != owner || s.rows[id].archivedAt != None
    ensures After(lower, s, Update(id, owner, data, now)) == s
    ensures ReplyOf(lower, s, Update(id, owner, data, now)) == One(None)
    ensures After(lower, s, Delete(id, owner, at, now)) == s
    ensures ReplyOf(lower, s, Delete(id, owner, at, now)) == Done(false)
  {}

  // ---- delete ----

  /** The row was taken out of sight: archived and touched at these times, and otherwise as it
      was. */
  predicate ArchivedTo(before: Hero, after: Hero, at: Time, now: Time) {
    && after.archivedAt == Some(at) && after.updatedAt == now
    && after.id == before.id && after.name == before.name && after.powers == before.powers
    && after.powerLevel == before.powerLevel && after.ownerId == before.ownerId
    && after.createdAt == before.createdAt
  }

  /** A delete of a live row by its owner archives it: it is no longer found unless archived rows
      are asked for, and cannot be deleted or updated again, by anyone. */
  lemma DeleteArchives(lower: Lowercase, s: Store, id: int, owner: string, at: Time, now: Time)
    requires id in s.rows && s.rows[id].ownerId == owner && s.rows[id].archivedAt == None
    ensures var t := After(lower, s, Delete(id, owner, at, now));
      && ReplyOf(lower, s, Delete(id, owner, at, now)) == Done(true)
      && OthersKept(s, t, id)
      && ArchivedTo(s.rows[id], t.rows[id], at, now)
      && ReplyOf(lower, t, Get(id, false)) == One(None)
      && ReplyOf(lower, t, Get(id, true)) == One(Some(t.rows[id]))
      && (forall who, at', now' ::
           ReplyOf(lower, t, Delete(id, who, at', now')) == Done(false)
           && After(lower, t, Delete(id, who, at', now')) == t)
  {}

  // ---- bulk writes ----

  /** The ids a bulk write reaches: live rows that match every filter. */
  ghost predicate LiveMatches(lower: Lowercase, rows: Rows, filters: seq<FilterClause>, ids: set<int>) {
    forall id :: id in ids <==> id in rows && rows[id].archivedAt == None && MatchesAll(lower, rows[id], filters)
  }

  /** The answer is the reached rows as they now stand, in id order. */
  ghost predicate Answers(rows: Rows, ids: set<int>, reply: Reply) {
    ids <= rows.Keys && reply == Many(InIdOrder(rows, ids))
  }

  lemma UpdateManyWrites(lower: Lowercase, s: Store, filters: seq<FilterClause>, data: HeroUpdate,
                         stamp: int -> Time)
    requires Keyed(s)
    ensures var op := UpdateMany(filters, data, stamp);
      var t, ids := After(lower, s, op), Hits(lower, s.rows, filters);
      && LiveMatches(lower, s.rows, filters, ids)
      && t.rows.Keys == s.rows.Keys && t.nextId == s.nextId
      && (forall id :: id in ids ==> UpdatedTo(s.rows[id], t.rows[id], data, stamp(id)))
      && (forall id :: id in s.rows && id !in ids ==> t.rows[id] == s.rows[id])
      && Answers(t.rows, ids, ReplyOf(lower, s, op))
  {
    var op := UpdateMany(filters, data, stamp);
    BulkWrite(lower, s, op);
    forall id | id in Hits(lower, s.rows, filters)
      ensures UpdatedTo(s.rows[id], After(lower, s, op).rows[id], data, stamp(id))
    {
      assert Change(op)(id, s.rows[id]) == ApplyUpdate(s.rows[id], data, stamp(id));
    }
  }

  lemma DeleteManyWrites(lower: Lowercase, s: Store, filters: seq<FilterClause>, now: Time)
    requires Keyed(s)
    ensures var op := DeleteMany(filters, now);
      var t, ids := After(lower, s, op), Hits(lower, s.rows, filters);
      && LiveMatches(lower, s.rows, filters, ids)
      && t.rows.Keys == s.rows.Keys && t.nextId == s.nextId
      && (forall id :: id in ids ==> ArchivedTo(s.rows[id], t.rows[id], now, now))
      && (forall id :: id in s.rows && id !in ids ==> t.rows[id] == s.rows[id])
      && Answers(t.rows, ids, ReplyOf(lower, s, op))
  {
    BulkWrite(lower, s, DeleteMany(filters, now));
  }

  /** Archiving these rows takes exactly them out of sight. */
  lemma LiveCountFalls(lower: Lowercase, before: Rows, after: Rows, ids: set<int>)
    requires AllLive(before, ids) && after.Keys == before.Keys
    requires forall id :: id in ids ==> after[id].archivedAt.Some?
    requires forall id :: id in before && id !in ids ==> after[id] == before[id]
    ensures CountOf(lower, after, [], false, false) + |ids| == CountOf(lower, before, [], false, false)
  {
    Unfiltered(lower, before);
    Unfiltered(lower, after);
    var live, left := Selected(lower, before, [], false, false), Selected(lower, after, [], false, false);
    forall id ensures id in live <==> id in left || id in ids {
      assert id in after <==> id in before;
    }
    forall id | id in left ensures id !in ids {}
    JoinSize(live, left, ids);
  }

  /** A bulk delete answers with rows that are no longer live and no longer found, ... */
  lemma DeletedRowsAreGone(lower: Lowercase, s: Store, filters: seq<FilterClause>, now: Time)
    requires Keyed(s)
    ensures var op := DeleteMany(filters, now);
      var t, rows := After(lower, s, op), ReplyOf(lower, s, op).rows;
      forall row :: row in rows ==>
        row.archivedAt == Some(now) && ReplyOf(lower, t, Get(row.id, false)) == One(None)
  {
    var t := After(lower, s, DeleteMany(filters, now));
    DeleteManyWrites(lower, s, filters, now);
    ReturnedRows(t.rows, Hits(lower, s.rows, filters));
  }

  /** ... lowers the live count by exactly their number, ... */
  lemma DeletedRowsAreCounted(lower: Lowercase, s: Store, filters: seq<FilterClause>, now: Time)
    requires Keyed(s)
    ensures var op := DeleteMany(filters, now);
      var t, rows := After(lower, s, op), ReplyOf(lower, s, op).rows;
      CountOf(lower, t.rows, [], false, false) + |rows| == CountOf(lower, s.rows, [], false, false)
  {
    var t := After(lower, s, DeleteMany(filters, now));
    DeleteManyWrites(lower, s, filters, now);
    LiveCountFalls(lower, s.rows, t.rows, Hits(lower, s.rows, filters));
  }

  /** ... and leaves nothing for the same filters, whatever they are: again, it deletes nothing. */
  lemma DeletedOnlyOnce(lower: Lowercase, s: Store, filters: seq<FilterClause>, now: Time, later: Time)
    requires Keyed(s)
    ensures var t := After(lower, s, DeleteMany(filters, now));
      && Hits(lower, t.rows, filters) == {}
      && ReplyOf(lower, t, DeleteMany(filters, later)) == Many([])
      && After(lower, t, DeleteMany(filters, later)) == t
  {
    var t := After(lower, s, DeleteMany(filters, now));
    DeleteManyWrites(lower, s, filters, now);
    NothingLeft(lower, s.rows, t.rows, filters);
    BulkWrite(lower, s, DeleteMany(filters, now));
    BulkWrite(lower, t, DeleteMany(filters, later));
    EmptyAnswer(t.rows);
  }

  lemma ReturnedRows(rows: Rows, ids: set<int>)
    requires ids <= rows.Keys && forall id :: id in rows ==> rows[id].id == id
    ensures forall row :: row in InIdOrder(rows, ids) ==> row.id in ids && rows[row.id] == row
  {
    InIdOrderIsOrdered(rows, ids);
  }

  lemma NothingLeft(lower: Lowercase, before: Rows, after: Rows, filters: seq<FilterClause>)
    requires after.Keys == before.Keys
    requires forall id :: id in Hits(lower, before, filters) ==> id in after && after[id].archivedAt.Some?
    requires forall id :: id in before && id !in Hits(lower, before, filters) ==> after[id] == before[id]
    ensures Hits(lower, after, filters) == {}
  {
    forall id ensures id !in Hits(lower, after, filters) {
      assert id in after <==> id in before;
    }
    EmptyIfNoMember(Hits(lower, after, filters));
  }

  lemma EmptyAnswer(rows: Rows)
    ensures InIdOrder(rows, {}) == []
  {}
}
