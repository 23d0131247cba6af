# Verified model of the Hero service

This project models the parts of the Hero service in which a mistake would be hard to see, and
proves what they keep. `dafny verify dfyconfig.toml` checks all of it.

- **Two storage backends that mean the same thing.** `HeroStore` says what each repository
  operation does to the stored rows and what it answers. `MemoryRepository` is the map behind a
  lock, with its loops in place; `SeaOrmRepository` builds conditions and SET lists and hands them
  to a table under SQL's three-valued logic. Both are proved against `HeroStore`, and
  `RepositoryRuns` proves that whole runs of requests get the same answers and leave the same rows.
  `WriteEffects` states what each write leaves, field by field and as read back afterwards.
  `RowHistory` and `PostgresRuns` state what any run keeps, with filters of any kind and with the
  clock read before the statement.
  `Filtering`, `SqlConditions` and `SqlTranslation` carry the translation of filter clauses,
  `Sorting` and `SqlOrdering` the two meanings of sort clauses, and paging.
- **The stats cache.** `CacheProtocol` is the interleaving of writers, readers, event delivery and
  the invalidation loop; `RedisGlob` and `RedisStatsCache` are the keys, the escaping and the
  SCAN/UNLINK loop that make "drop every entry of a resource" true.
- **The rate limiter.** `RateLimit` has both backends and their equivalence, `RateBounds` what a
  limit means over time, for either backend.
- **Perf arithmetic.** `Percentiles` (nearest rank, merging) and `CpuUsage` (interpolated counters).
- **The form and the v1 view.** `HtmlEscape`, `HeroViews`, `HeroForm` and `HeroV1`.
- **The aggregates.** `HeroStats`.

Where a promise turned out not to hold of every input, the lemma named `...Exact` (or
`...Exactly`) gives the condition under which it holds, in both directions:

- the SQL form of a clause agrees with the in-memory one on every row exactly for the clauses in
  `Portable`: numbers that survive the cast to 32 bits and needles that have, once lowered for a
  case-insensitive search, no `%`, `_` or `\` (`LikeExact`, `IcontainsExact`, `NarrowExact`,
  `TranslationExact`);
- both backends list rows in the same order exactly for the sort clauses in `Decides`, which reach
  `id` before any nullable or differently collated column (`ListOrderExact`);
- a cache entry is fresh at quiescence exactly when no write was committed between its build's
  first reading of the database and its storing (`QuiescentExact`);
- an invalidation reaches an entry of another resource exactly when the resource's name stands
  between colons in its key (`OtherKeysExact`);
- the limiters answer alike exactly while no window's count exceeds 32 bits
  (`BackendsAgreeExactly`);
- PostgreSQL writes read the clock before their statement runs. Over a run,
  `created <= archived <= updated` holds of every row at every point exactly when no write reaches
  a row created after that write read the clock; each kind of write can
  (`EarlyReadingExact`, `StampsExact`, `OvertakenWritesBreakStamps`);
- CPU usage of a window is all that the counter gained exactly when it lost nothing to resets
  there (or gained nothing), and usage over adjacent windows adds up exactly when each window gains at least what it
  loses, or each loses at least what it gains (`UsageIsGainLessLoss`, `AdjacentWindowsExact`);
- a form gives back a list of powers exactly when each is trimmed, not empty and free of commas,
  and an unedited row changes nothing exactly for such records (`JoinRoundTripExact`,
  `UneditedRowExact`);
- the time series of `/stats` is listed after its total is counted. It adds up to the total
  exactly when what is listed by then, at most the cap, is as much: with no write in between,
  when the total is within the cap; with archived records included, when besides nothing was
  created in between or the total is the cap (`SeriesCoversTotalExact`, `QuietSeriesExact`,
  `BusySeriesExact`).

The comments at src/hero/views/hero_form.rs:11 and :76 say that an empty power level means "no
power level, not leave unchanged", and that a submission is a full replacement. The code leaves the
old level in place; the model follows the code, and `BlankLevelExact` states it.

## Assumptions

- `CachedStats::get_or_build` is not part of this model: it is taken to look the key up, on a miss
  to build the body, and then to store it. Its `invalidate` is taken to call the cache's.
- SeaORM's `contains` is taken to build `LIKE '%needle%'` with the needle unescaped, and its
  `exec_with_returning` to be one atomic statement.
- SQL follows the PostgreSQL documentation: sections 9.1, 9.2 and 9.7.1 for logic, comparison and
  `LIKE`, section 7.5 for `ORDER BY`. `HeroSeaOrmRepository.All` and `.ExecWithReturning` are what
  the server is taken to do with one statement. The order in which it returns tied rows is
  arbitrary, and its collations are deterministic (only equal strings compare equal), as
  PostgreSQL's are unless declared otherwise.
- Lowercasing is one function shared by both backends. Only `TranslationExact` asks anything of it:
  that it leaves alone a string made of characters it yields.
- Times are exact. PostgreSQL keeps timestamps in microseconds while the clock reads nanoseconds,
  so what is said of equal answers is of clock readings and filter operands in whole microseconds.
- `SCAN` keeps its documented guarantee: a full iteration returns every matching key that was there
  throughout, and only matching keys. `RedisCache.Set`, `.Scan` and `.Unlink` are what the server
  is taken to do with a command.
- A key with an expiry is taken to be gone once the clock reaches it. Redis still serves it in that
  very millisecond, in which the map has already reset; the model treats the two alike there by
  convention.
- The clock never goes back. Readings of it are parameters of the operations.

## Model

| member | source | states |
|---|---|---|
| `Filtering.ComparesItsField` | src/hero/repositories/hero_memory.rs:26-65 | each clause compares its own field of the row by its operator, and a missing value never matches |
| `Filtering.MatchesAllJoins` | src/hero/repositories/hero_memory.rs:22-24 | clauses are joined by AND, over any lists of them |
| `Filtering.OthersNeverMatch` | src/hero/repositories/hero_memory.rs:47-102 | a value of another kind, an operator the kind does not have, or a field that is none matches no row |
| `SqlConditions.LikeExact` | src/hero/repositories/hero_sea_orm.rs:68 | a needle placed between two `%` finds exactly the strings that contain it if and only if it has no metacharacter |
| `SqlConditions.IcontainsExact` | src/hero/repositories/hero_sea_orm.rs:69-74 | the case-insensitive pattern, which drops `%` and `_` from the lowered needle, finds exactly the strings that contain the needle if and only if it had no metacharacter |
| `SqlConditions.IcontainsDiffers` | src/hero/repositories/hero_sea_orm.rs:69-74 | a lowered needle with a metacharacter is told apart from its pattern by a string made of its own characters |
| `SqlConditions.DropWildcardsExact` | src/hero/repositories/hero_sea_orm.rs:72 | the lowered needle loses exactly its wildcards: what is left is the needle read at all its other positions, in order |
| `SqlTranslation.IcontainsFinds` | src/hero/repositories/hero_sea_orm.rs:69-74 | for a lowered needle without a backslash, the compiled search is true of a row exactly when its lowered value contains what is left of the needle |
| `SqlTranslation.ContainsFinds` | src/hero/repositories/hero_sea_orm.rs:68 | the case-sensitive search is true of a row exactly when its value matches the needle between two `%`, the needle's own wildcards and escapes in force |
| `SqlTranslation.NarrowIsCongruent` | src/hero/repositories/hero_sea_orm.rs:81 | the cast gives the one number in 32-bit range that is congruent to the operand modulo 2^32 |
| `SqlTranslation.NarrowExact` | src/hero/repositories/hero_sea_orm.rs:81 | for each comparison operator, the cast of the operand to 32 bits goes unnoticed over the whole column if and only if the operand is in range, or the operator answers every row alike for both numbers |
| `SqlTranslation.NumberIn` | src/hero/repositories/hero_sea_orm.rs:64-67 | membership of a column value in a list of numbers, each cast to 32 bits, is membership among the cast numbers |
| `SqlTranslation.FieldIsColumn` | src/hero/repositories/hero_sea_orm.rs:36-47 | the in-memory field dispatch and the column map pick the same value; a field without a column matches nothing, and neither does a missing value |
| `SqlTranslation.TranslationAgrees` | src/hero/repositories/hero_sea_orm.rs:53-89 | for every portable clause and every row, NULL columns included, the compiled condition has a value and is true exactly when the clause matches in memory |
| `SqlTranslation.TranslationExact` | src/hero/repositories/hero_sea_orm.rs:53-89 | for clauses as the query parser builds them, and a lowercase function that leaves alone what it yields, the two readings agree over all rows if and only if the clause is portable |
| `SqlTranslation.WhereAgrees` | src/hero/repositories/hero_sea_orm.rs:115-120 | a whole WHERE clause is true of a row exactly when the row matches all clauses in memory: Unknown from a NULL neither selects nor fails |
| `SqlTranslation.ArchiveScopeIsVisible` | src/hero/repositories/hero_sea_orm.rs:101-113 | the archive conditions are two-valued and true of exactly the rows visible in memory |
| `Text.CompareTextExact` | src/hero/repositories/hero_memory.rs:108-109 | texts compare by code points: a proper prefix is less, and otherwise the first character that differs decides |
| `Sorting.FieldsByValue` | src/hero/repositories/hero_memory.rs:104-115 | numbers and times compare by size, a missing one below all others |
| `Sorting.TextFieldsByValue` | src/hero/repositories/hero_memory.rs:108-109 | names and owners compare by code points, a missing name below all others |
| `Sorting.ClauseDecides` | src/hero/repositories/hero_memory.rs:123-130 | ascending, a clause puts the lesser value first, descending the greater, and leaves rows alike in it to the clauses after it |
| `Sorting.BeforeTotal` | src/hero/repositories/hero_memory.rs:104-132 | the order by clauses and then ids is strict and total on rows with different ids, None and descending clauses included |
| `Sorting.StableSortRefines` | src/hero/repositories/hero_memory.rs:117-120 | a stable pass by one clause over rows ordered by the later clauses orders them by all of them |
| `Sorting.SortRowsInOrder` | src/hero/repositories/hero_memory.rs:121-132 | the passes in reverse clause order over rows in id order give a permutation in strict (clause 1, ..., clause n, id) order |
| `Sorting.InOrderUnique` | src/hero/repositories/hero_memory.rs:117-132 | that order determines the sequence: two arrangements of the same rows in it are equal |
| `Sorting.SortBy` | src/hero/repositories/hero_memory.rs:123-130 | sorts the slice in place to what one stable pass gives |
| `Sorting.ApplySort` | src/hero/repositories/hero_memory.rs:121-132 | sorts the slice in place to what the fold of passes, last clause first, gives |
| `Sorting.SortById` | src/hero/repositories/hero_sea_orm.rs:286-291 | sorting the same rows by id gives the one arrangement in id order, however they came |
| `Sorting.PageIsStretch` | src/hero/repositories/hero_memory.rs:187-191 | for every skip and limit, a page is the rows from skip on, limit of them or as many as there are |
| `Sorting.PagesPartition` | src/hero/repositories/hero_memory.rs:187-191 | consecutive pages are the list, cut at the last row or at the pages' end: no gap, no repeat, nothing left once enough of them are taken |
| `SqlOrdering.DecidedOrder` | src/hero/repositories/hero_sea_orm.rs:122-134 | where the clauses decide the order, whatever arrangement the server returns is the in-memory one |
| `SqlOrdering.ListOrderExact` | src/hero/repositories/hero_sea_orm.rs:145-149 | over all tables and all orders of ties, the database lists rows in the in-memory order if and only if there are no clauses or they reach `id` before any nullable or differently collated column |
| `SqlOrdering.NullOrderExact` | src/hero/repositories/hero_sea_orm.rs:127-131 | on a nullable column a pair of rows is compared alike by the backends exactly when both or neither has a value |
| `HeroStore.InIdOrderIsOrdered` | src/hero/repositories/hero_memory.rs:176-181 | walking the record map yields the selected rows, each once, in strictly ascending id order |
| `HeroStore.ScopesExact` | src/hero/repositories/hero_memory.rs:137-143 | a query selects live matching rows by default, all matching rows with archived ones included, and archived matching rows alone when only they are asked for, included or not |
| `HeroStore.ListIsStretch` | src/hero/repositories/hero_memory.rs:171-193 | for every skip and limit, a list answers with that stretch of the selected rows in strict order of clauses and ids |
| `HeroStore.PagesAreTheSelection` | src/hero/repositories/hero_memory.rs:171-193 | over an unchanged repository, enough consecutive lists hold exactly the selected rows in strict order of clauses and ids |
| `MemoryRepository.HeroMemoryRepository.constructor` | src/hero/repositories/hero_memory.rs:151-156 | starts without rows, with 1 as the next id |
| `MemoryRepository.HeroMemoryRepository.Collect` | src/hero/repositories/hero_memory.rs:176-181 | collects exactly the rows that pass the test, in id order |
| `MemoryRepository.HeroMemoryRepository.List` | src/hero/repositories/hero_memory.rs:171-193 | answers with the page of the selected rows, sorted, and changes nothing |
| `MemoryRepository.HeroMemoryRepository.Count` | src/hero/repositories/hero_memory.rs:195-212 | answers with the number of visible rows that match |
| `MemoryRepository.HeroMemoryRepository.Get` | src/hero/repositories/hero_memory.rs:214-223 | answers with the row of that id if it is live or archived rows were asked for |
| `MemoryRepository.HeroMemoryRepository.Create` | src/hero/repositories/hero_memory.rs:225-248 | stores a live row with both stamps equal under an id not in use and never handed out, and moves the next id on by one |
| `MemoryRepository.HeroMemoryRepository.Update` | src/hero/repositories/hero_memory.rs:250-268 | changes the given fields and the stamp of the one row if it is live and the caller's, and answers with it; otherwise changes nothing |
| `MemoryRepository.HeroMemoryRepository.RewriteAlong` | src/hero/repositories/hero_memory.rs:280-297 | the bulk loop: each row is tested as it was before the call, touched at most once, and the copies it returns are the rows as stored, in id order |
| `MemoryRepository.HeroMemoryRepository.UpdateMany` | src/hero/repositories/hero_memory.rs:270-299 | updates every live matching row, each with its own reading of the clock, and answers with them |
| `MemoryRepository.HeroMemoryRepository.Delete` | src/hero/repositories/hero_memory.rs:301-315 | archives the one row if it is live and the caller's, with two readings of the clock, and says whether it did |
| `MemoryRepository.HeroMemoryRepository.DeleteMany` | src/hero/repositories/hero_memory.rs:317-338 | archives every live matching row with one reading of the clock and answers with them |
| `MemoryRepository.SortByIdIsNoChange` | src/hero/repositories/hero_memory.rs:182-183 | the default sort leaves rows collected in id order as they are |
| `WriteEffects.CreateStores` | src/hero/repositories/hero_memory.rs:225-248 | the stored row has every field of the request, all powers in order, is live under the next id with both stamps the reading, and is the answer; no other row changes |
| `WriteEffects.UpdateWrites` | src/hero/repositories/hero_memory.rs:250-268 | an update of a live row by its owner writes the given fields and the stamp, keeps every other field and row, and answers with the row |
| `WriteEffects.OthersAreRefused` | src/hero/repositories/hero_memory.rs:263-265 | an update or delete of a row that is absent, archived or another owner's changes nothing and says so |
| `WriteEffects.DeleteArchives` | src/hero/repositories/hero_memory.rs:301-315 | a delete sets the archive stamp to the first reading and the modification stamp to the second, keeps all else, and the row is then not found, nor deleted again by anyone |
| `WriteEffects.UpdateManyWrites` | src/hero/repositories/hero_memory.rs:270-299 | a bulk update writes the given fields of exactly the live matching rows, each with its own stamp, and answers with them in id order |
| `WriteEffects.DeleteManyWrites` | src/hero/repositories/hero_memory.rs:317-338 | a bulk delete archives exactly the live matching rows, keeps all else, and answers with them in id order |
| `WriteEffects.DeletedRowsAreGone` | src/hero/repositories/hero_memory.rs:329-336 | no row a bulk delete answers with is live or found afterwards |
| `WriteEffects.DeletedRowsAreCounted` | src/hero/repositories/hero_memory.rs:317-338 | the live count falls by exactly the number of rows answered |
| `WriteEffects.DeletedOnlyOnce` | src/hero/repositories/hero_memory.rs:329-332 | the same filters, whatever they are, then match no live row: a second bulk delete changes nothing |
| `SeaOrmRepository.UpdateValues` | src/hero/repositories/hero_sea_orm.rs:260-275 | the SET list makes of every row what the in-memory partial update makes of it |
| `SeaOrmRepository.ArchiveValues` | src/hero/repositories/hero_sea_orm.rs:278-284 | the SET list makes of every row what the soft delete makes of it |
| `SeaOrmRepository.HeroSeaOrmRepository.constructor` | src/hero/repositories/hero_sea_orm.rs:23-27 | starts from an empty table whose sequence is at 1 |
| `SeaOrmRepository.HeroSeaOrmRepository.ApplyFilters` | src/hero/repositories/hero_sea_orm.rs:115-120 | adds one condition for each clause to the query, in order |
| `SeaOrmRepository.HeroSeaOrmRepository.ApplySort` | src/hero/repositories/hero_sea_orm.rs:122-134 | adds one term for each clause whose field is a column, in order |
| `SeaOrmRepository.HeroSeaOrmRepository.ExecWithReturning` | src/hero/repositories/hero_sea_orm.rs:203-208 | taken of the server: the rows the conditions are true of are rewritten and returned in any order, and no other row changes; a statement without a value fails and changes nothing |
| `SeaOrmRepository.HeroSeaOrmRepository.ById` | src/hero/repositories/hero_sea_orm.rs:286-291 | puts returned rows in id order |
| `SeaOrmRepository.HeroSeaOrmRepository.List` | src/hero/repositories/hero_sea_orm.rs:142-156 | a page of rows within the archive scope, in an order the sort clauses allow; for portable filters of all rows they select, and the in-memory answer where the sort clauses decide the order |
| `SeaOrmRepository.HeroSeaOrmRepository.Count` | src/hero/repositories/hero_sea_orm.rs:158-169 | for portable filters the in-memory count; for any filters at most the rows of the archive scope |
| `SeaOrmRepository.HeroSeaOrmRepository.Get` | src/hero/repositories/hero_sea_orm.rs:171-177 | the in-memory answer |
| `SeaOrmRepository.HeroSeaOrmRepository.Create` | src/hero/repositories/hero_sea_orm.rs:179-192 | inserts the row that the in-memory backend stores, under the next id of the sequence |
| `SeaOrmRepository.HeroSeaOrmRepository.Update` | src/hero/repositories/hero_sea_orm.rs:194-212 | the one guarded statement has the effect and the answer of the in-memory check-then-write |
| `SeaOrmRepository.HeroSeaOrmRepository.UpdateMany` | src/hero/repositories/hero_sea_orm.rs:214-227 | for any filters, exactly the rows it returns are updated, all of them live before, no row is lost or archived row touched, and a failure changes nothing; for portable filters, the in-memory effect and answer |
| `SeaOrmRepository.HeroSeaOrmRepository.Delete` | src/hero/repositories/hero_sea_orm.rs:229-239 | the one guarded statement has the effect and the answer of the in-memory check-then-archive with equal readings |
| `SeaOrmRepository.HeroSeaOrmRepository.DeleteMany` | src/hero/repositories/hero_sea_orm.rs:241-255 | for any filters, exactly the rows it returns are archived, all of them live before, no row is lost or archived row touched, and a failure changes nothing; for portable filters, the in-memory effect and answer |
| `SeaOrmRepository.QueryScope` | src/hero/repositories/hero_sea_orm.rs:143-144 | the WHERE clause of a query is determined on every row and selects what the in-memory tests keep |
| `SeaOrmRepository.WithinScope` | src/hero/repositories/hero_sea_orm.rs:98-120 | whatever the filters, the WHERE clause selects only rows within the archive scope |
| `SeaOrmRepository.AddressedLive` | src/hero/repositories/hero_sea_orm.rs:205-207 | the conditions of a write addressed to one record select that record if it is live and the caller's, and nothing else |
| `SeaOrmRepository.ReturnedById` | src/hero/repositories/hero_sea_orm.rs:286-291 | however the server arranged the returned rows, putting them by id gives the in-memory answer |
| `RepositoryRuns.ServeMemory` | src/hero/repositories/hero_memory.rs:171-338 | each request changes the in-memory rows and is answered as `HeroStore` says |
| `RepositoryRuns.ServePostgres` | src/hero/repositories/hero_sea_orm.rs:142-255 | each request leaves the rows it reaches rewritten and all others alone; one whose clauses both backends read alike has the in-memory effect and answer |
| `RepositoryRuns.Simulate` | src/hero/repositories/hero_sea_orm.rs:142-291 | fed the same requests from the same contents, the two backends give the same answers to all of them and end with the same rows |
| `RepositoryRuns.StepEvolves` | src/hero/repositories/hero_memory.rs:225-338 | no operation loses a row, changes an id, owner or creation time, touches an archived row, or hands out an id again |
| `RepositoryRuns.RunEvolves` | src/hero/repositories/hero_memory.rs:225-338 | the same between any two points of any run |
| `RepositoryRuns.RunStamps` | src/hero/repositories/hero_memory.rs:225-352 | in every run with clock readings in order, created <= archived <= updated holds of every row |
| `PostgresRuns.EarlyReadingExact` | src/hero/repositories/hero_sea_orm.rs:194-255 | a request of any kind, with any filters and an arbitrary early reading of the clock, keeps the order of the stamps if and only if no row it reaches was created after the reading |
| `PostgresRuns.StampsExact` | src/hero/repositories/hero_sea_orm.rs:179-255 | over every run, created <= archived <= updated holds of all rows at all points if and only if no request reaches a row created after it read the clock |
| `PostgresRuns.ReadInOrderKeepsStamps` | src/hero/repositories/hero_sea_orm.rs:179-255 | requests that read the clock in the order in which their statements run reach no such row |
| `PostgresRuns.OvertakenWritesBreakStamps` | src/hero/repositories/hero_sea_orm.rs:194-255 | an update, a bulk update, a delete and a bulk delete, each overtaken by a create between its reading and its statement, all leave stamps out of order |
| `PostgresRuns.ServeAll` | src/hero/repositories/hero_sea_orm.rs:142-255 | serving any requests is a run in the sense of the lemmas on runs, and leaves what they say |
| `PostgresRuns.StepEvolves` | src/hero/repositories/hero_sea_orm.rs:179-255 | no request, with filters of any kind, loses a row, changes an id, owner or creation time, touches an archived row, or hands out an id again |
| `PostgresRuns.RunEvolves` | src/hero/repositories/hero_sea_orm.rs:179-255 | the same between any two points of any run |
| `PostgresRuns.BulkUpdateWrites` | src/hero/repositories/hero_sea_orm.rs:214-227 | with filters of any kind, a bulk update writes the given fields of the live rows it reaches and leaves the others alone |
| `PostgresRuns.BulkDeleteArchives` | src/hero/repositories/hero_sea_orm.rs:241-255 | with filters of any kind, a bulk delete archives the live rows it reaches, leaves the others alone, and the live count falls by their number |
| `RepositoryRuns.CountSplits` | src/hero/repositories/hero_memory.rs:137-143 | for every filter list, all rows are the live plus the archived ones, and asking only for archived rows gives these, included or not |
| `RepositoryRuns.ArchivedNeverNegative` | src/hero/controllers/heroes.rs:452-453 | in memory, the visible count, taken first, is at most the count of all taken later, whatever operations come between |
| `PostgresRuns.ArchivedNeverNegative` | src/hero/controllers/heroes.rs:452-453 | over PostgreSQL likewise, whatever requests come between, with filters of any kind |
| `RowHistory.AllRowsGrow` | src/hero/controllers/heroes.rs:453 | between two points of a history, the count of all rows grows by exactly the ids handed out |
| `RepositoryRuns.OtherOrderUnderflows` | src/hero/controllers/heroes.rs:498 | taken in the other order, one create in between makes the subtraction negative |
| `CacheProtocol.Life` | src/cache.rs:169 | an entry lives as long as asked, or one second if that is more |
| `CacheProtocol.StepKeepsInv` | src/cache.rs:212-248 | every step of writers, readers, delivery, expiry and the invalidation loop keeps the accounting: each commit after an entry was stored is still owed |
| `CacheProtocol.RunKeepsInv` | src/cache.rs:212-248 | the accounting holds in every reachable state |
| `CacheProtocol.RunKeepsOnePlace` | src/cache.rs:219-241 | in every reachable state each event is in one place only: unpublished, queued once, missed, lost or in hand |
| `CacheProtocol.EntriesComeAndGo` | src/cache.rs:139-183 | an entry comes only from a reader that missed it, and goes only by eviction, by its time or by an invalidation |
| `CacheProtocol.StaleEntryHasCause` | src/cache.rs:203-211 | in every interleaving, each commit an entry does not reflect came during its build, or is unpublished, queued, missed, being handled or lost; and the entry is younger than its life |
| `CacheProtocol.QuiescentExact` | src/cache.rs:203-211 | when nothing is outstanding and nothing was lost, an entry is fresh if and only if no write was committed between its build's first reading of the database and its storing |
| `CacheProtocol.OvertakenBuildGoesStale` | src/hero/controllers/heroes.rs:404-405 | from every quiescent state, a write handled between a reader's reading and its store leaves a stale entry with nothing outstanding |
| `CacheProtocol.EntryDies` | src/cache.rs:163-176 | once an entry's life is over, what its key holds was stored later |
| `CacheProtocol.InvalidationCatchesUp` | src/cache.rs:224-236 | what a finished invalidation leaves owes no commit made before it began, lost ones included, other than those that overtook its build |
| `CacheProtocol.Drains` | src/cache.rs:219-247 | from every state in which the invalidation loop runs and nothing is lost, quiescence can be reached without another write |
| `CacheProtocol.SwappedOrderGoesStale` | src/cache.rs:209-211 | were the invalidation done before subscribing, a write in between would leave a stale entry at quiescence whose build nothing overtook |
| `RedisGlob.GlobEscape` | src/cache.rs:55-64 | the loop builds a pattern that matches the value and nothing else |
| `RedisGlob.EscapedMatchesOnly` | src/cache.rs:55-64 | for all strings, the escaped value matches a string exactly when it is the value |
| `RedisGlob.PatternExact` | src/cache.rs:112 | the invalidation pattern selects exactly the keys under the prefix that have the resource between colons |
| `RedisGlob.OwnKeysSelected` | src/cache.rs:106-112 | every key of the resource is selected, under every version and cache key |
| `RedisGlob.OtherKeysExact` | src/cache.rs:106-112 | a key of another resource is selected if and only if the resource's name stands between colons in its version, resource and key |
| `RedisGlob.KeysInjective` | src/cache.rs:106-108 | keys with colon-free versions and resources are equal only if all their parts are |
| `RedisStatsCache.RedisCache.Get` | src/cache.rs:139-161 | a hit is a parsable body under the key that has not expired; an unreachable server and other bytes are misses |
| `RedisStatsCache.RedisCache.Set` | src/cache.rs:163-176 | taken of the server: the body is stored for `max(ttl, 1)` seconds; if the server is unreachable nothing changes |
| `RedisStatsCache.SetThenGet` | src/cache.rs:139-176 | a body that was set is got back exactly until `max(ttl, 1)` seconds have passed, and while the server is reachable |
| `RedisStatsCache.RedisCache.TryInvalidate` | src/cache.rs:110-134 | from cursor 0 to cursor 0, each round at the cursor of the one before, unlinking what it answered, up to the first failure; it succeeds exactly if none failed |
| `RedisStatsCache.RedisCache.Invalidate` | src/cache.rs:178-183 | a failed loop leaves what its rounds did and is not reported |
| `RedisStatsCache.GoneStaysGone` | src/cache.rs:114-133 | a key removed in some round and not stored again is absent at the end |
| `RedisStatsCache.CompletedLoopClears` | src/cache.rs:114-133 | given the scan guarantee, a completed loop leaves no matching entry that was there at its start and was not stored again |
| `RedisStatsCache.InvalidateDropsResource` | src/cache.rs:110-134 | a completed invalidation leaves no entry of the resource, whatever its version and key, that was not stored meanwhile |
| `RedisStatsCache.OtherKeysUntouched` | src/cache.rs:110-134 | completed or not, the loop does nothing to a key the pattern does not match |
| `RateLimit.MockLimiter.Check` | src/rate_limit.rs:113-130 | one check of the in-memory backend: the window of that key alone changes, and its count decides |
| `RateLimit.RedisLimiter.Check` | src/rate_limit.rs:104-130 | one check of the Redis backend: the counter of that key alone changes; a reply beyond 32 bits is an internal error |
| `RateLimit.RedisLimiter.Invoke` | src/rate_limit.rs:48-54 | the script: an absent or expired counter starts at 1 with an expiry, a live one is incremented and keeps its expiry, and an expiry of 0 deletes it |
| `RateLimit.CheckTwice` | src/rate_limit.rs:95-131 | in either backend, with a limit of one, a second check is allowed exactly if `windowSecs` seconds have passed since the first |
| `RateLimit.AlikeNext` | src/rate_limit.rs:103-123 | one check on a key keeps the map's window and the counter with its expiry at the same point, and is answered alike unless the count exceeds 32 bits |
| `RateLimit.BackendsAgreeExactly` | src/rate_limit.rs:95-131 | over every run with one window length per key and time in order, the backends give the same answers if and only if no window exceeds 32 bits |
| `RateLimit.FreshBackendsAgree` | src/rate_limit.rs:95-131 | in particular from the start |
| `RateLimit.ChangingWindowsDiffer` | src/rate_limit.rs:111-119 | with two window lengths on one key the answers differ: a run of two checks shows it |
| `RateLimit.KeysApart` | src/rate_limit.rs:102 | colon-free scopes share no counter, whatever the addresses |
| `RateLimit.OtherKeysNeverMatter` | src/rate_limit.rs:116-121 | over every run, a key is answered as if the checks on other keys had not been made |
| `RateBounds.WindowCounts` | src/rate_limit.rs:116-121 | a window has seen every check since the one that opened it, refused ones included, and ends one window length after it; refusals never extend it |
| `RateBounds.RedisKeepsPace` | src/rate_limit.rs:103-112 | in every run, with checks on other keys between, the script lets a check of a key pass exactly when that window's count is within the limit |
| `RateBounds.MemoryKeepsPace` | src/rate_limit.rs:113-130 | the map likewise, as long as the counter of the key does not wrap |
| `RateBounds.RefusedExactly` | src/rate_limit.rs:95-131 | over every run from the start, Redis refuses a check exactly when at least `limit` earlier checks of the key hit the same window, and the map likewise unless its counter wraps |
| `RateBounds.SuccessesBounded` | src/rate_limit.rs:113-131 | over every in-memory run without a wrap and every stretch T, at most `MostSuccesses` checks of a key succeed, which is at most limit * (ceil(T / W) + 1) |
| `RateBounds.RedisBounded` | src/rate_limit.rs:95-131 | the same over every Redis run, with no condition on counts |
| `RateBounds.BoundIsMet` | src/rate_limit.rs:95-131 | for every limit, window and stretch, some run meets `MostSuccesses`: limit for each window that can open, plus limit - 1 if one can run on into the stretch without costing a window |
| `Percentiles.ExpansionIsFaithful` | tests/perf/src/summary.rs:63-64 | the sorted list a histogram stands for has each time as often as the histogram counts it |
| `Percentiles.PercentileMs` | tests/perf/src/summary.rs:89-103 | the walk finds the element of rank clamp(ceil(q n), 1, n) of that list, and nothing exactly when there are no requests |
| `Percentiles.PercentileWhere` | tests/perf/src/summary.rs:89-103 | a time is the percentile exactly when the rank falls among its requests, and it then has some |
| `Percentiles.PercentileMonotone` | tests/perf/src/summary.rs:94 | a higher quantile is never faster |
| `Percentiles.Merge` | tests/perf/src/summary.rs:144-149 | the merged histogram counts at each time what all endpoints count there |
| `Percentiles.MergeConserves` | tests/perf/src/summary.rs:144-149 | merging neither loses nor invents a request |
| `Percentiles.RanksAdd` | tests/perf/src/summary.rs:94 | where two counts are each below, or reach, the rank in their totals, so is their sum in the sum of the totals |
| `Percentiles.MergedPercentileBetween` | tests/perf/src/summary.rs:144-149 | for every q in [0, 1] and any non-empty histograms, the percentile of the merge lies between the smallest and the largest of theirs |
| `Percentiles.WindowAndWarmupAreTheRun` | tests/perf/src/summary.rs:41-53 | the window is never inverted, and of a history in order it and the warm-up are the whole run |
| `Percentiles.WindowStartsWhenSteady` | tests/perf/src/summary.rs:41-53 | the window ends with the last step and starts with the first maintaining one, the warm-up being the time until then; without one the whole run counts; neither goes below zero when steps are out of order |
| `CpuUsage.PartitionPoint` | tests/perf/src/cpu.rs:94 | bisection finds the first sample at or after an instant |
| `CpuUsage.AtASample` | tests/perf/src/cpu.rs:96-98 | at a sampled instant the counter is what the first sample of that instant read |
| `CpuUsage.StaysInBracket` | tests/perf/src/cpu.rs:99-102 | between two samples the interpolated value stays between theirs, whichever way the counter went |
| `CpuUsage.LinearInBracket` | tests/perf/src/cpu.rs:99-102 | within a bracket the value's rise over the lower sample is to the bracket's rise as the time passed is to its length |
| `CpuUsage.GrowsWithTime` | tests/perf/src/cpu.rs:87-103 | a counter that only grows is read as one that only grows, across brackets too |
| `CpuUsage.RoundsToNearest` | tests/perf/src/cpu.rs:120 | the throttle count is rounded to the nearest whole number, halves away from zero |
| `CpuUsage.UsageWhenCovered` | tests/perf/src/cpu.rs:107-124 | a window has a usage exactly when it is not inverted and both its ends are covered; no figure is negative, even after a reset |
| `CpuUsage.UsageBetweenSamples` | tests/perf/src/cpu.rs:116-123 | between sampled instants each figure is the difference of its own counter, in seconds for microseconds, and 0 after a reset |
| `CpuUsage.UsageIsGainLessLoss` | tests/perf/src/cpu.rs:111-115 | usage of a window is what its readings gain less what they lose, or 0; never more than the gain, and all of it exactly when nothing is lost or nothing gained |
| `CpuUsage.NoFallExact` | tests/perf/src/cpu.rs:111-115 | nothing is lost exactly when no reading is below the one before it |
| `CpuUsage.ReadingsSplit` | tests/perf/src/cpu.rs:87-103 | at an inner instant the readings of a window are those of its two parts |
| `CpuUsage.GainsAdd` | tests/perf/src/cpu.rs:87-103 | gains, and losses, add up over adjacent windows, resets or not, wherever the cut falls between samples |
| `CpuUsage.AdjacentWindowsExact` | tests/perf/src/cpu.rs:107-124 | usage over adjacent windows adds up if and only if each gains at least what it loses to resets, or each loses at least what it gains |
| `CpuUsage.AdjacentWindowsAdd` | tests/perf/src/cpu.rs:107-124 | CPU seconds of a growing counter are additive over adjacent windows |
| `HtmlEscape.EscapeIsPerCharacter` | src/hero/controllers/heroes_web.rs:96-102 | the five whole-string replacements are one per-character map: no pass rewrites what an earlier one wrote |
| `HtmlEscape.EscapeRoundTrip` | src/hero/controllers/heroes_web.rs:96-102 | unescaping the output gives the input back, for every string |
| `HtmlEscape.EscapeInjective` | src/hero/controllers/heroes_web.rs:96-102 | different strings are escaped differently |
| `HtmlEscape.EscapeIsInert` | src/hero/controllers/heroes_web.rs:96-102 | the output has no raw `<`, `>`, `"` or `'`, and every `&` in it starts one of the five entities |
| `HeroViews.ValidateTextField` | src/hero/views/hero.rs:24-32 | pushes one error exactly when the text does not have 1 to 200 characters |
| `HeroViews.ValidatePowers` | src/hero/views/hero.rs:34-48 | pushes the error of an empty list, or one for each power of the wrong length, in order |
| `HeroViews.PowersErrorsExact` | src/hero/views/hero.rs:34-48 | the powers at fault are named, each and no other, and a list has no error exactly when it has powers and none is at fault |
| `HeroViews.ErrorsInFigures` | src/hero/views/hero.rs:24-75 | a create is accepted exactly with a name of 1 to 200 characters and at least one power, each of 1 to 200; errors come name first, then the powers' by ascending position |
| `HeroViews.ErrorsByField` | src/hero/views/hero.rs:64-106 | the errors of a create or update name exactly the fields at fault, of those it gives |
| `HeroViews.ValidateCreate` | src/hero/views/hero.rs:65-74 | accepts exactly a name and powers within bounds |
| `HeroViews.ValidateUpdate` | src/hero/views/hero.rs:92-105 | accepts exactly when each given field is within bounds |
| `HeroForm.WhiteOrNot` | src/hero/views/hero_form.rs:34 | spaces, tabs and line ends are trimmed; commas, signs and digits are not |
| `HeroForm.ParsedIsClean` | src/hero/views/hero_form.rs:31-37 | whatever was typed, each parsed power is trimmed, not empty and free of commas |
| `HeroForm.PiecesOf` | src/hero/views/hero_form.rs:32-33 | every input is a list of pieces between commas, each a trimmed core with white space around it |
| `HeroForm.TypedParses` | src/hero/views/hero_form.rs:31-37 | and exactly their cores are parsed, in order, the empty ones left out |
| `HeroForm.JoinRoundTripExact` | src/hero/views/hero_form.rs:31-37 | parsing the ", "-join of a list gives the list back if and only if every power is trimmed, not empty and free of commas |
| `HeroForm.ParsingSettles` | src/hero/views/hero_form.rs:31-37 | for every input, rendering and parsing what was parsed changes nothing |
| `HeroForm.PrintRoundTrip` | src/hero/views/hero_form.rs:44-46 | every 32-bit number survives printing and parsing |
| `HeroForm.ParseI32Exact` | src/hero/views/hero_form.rs:44-46 | exactly the printed forms of 32-bit numbers, with leading zeros and a sign allowed, are parsed, each as its number |
| `HeroForm.PowerLevelRoundTrip` | src/hero/views/hero_form.rs:39-48 | a shown power level, or none, is parsed as it was |
| `HeroForm.ParsePowerLevelExact` | src/hero/views/hero_form.rs:39-48 | the field is read as no level exactly when it is blank, and as a number exactly when it is a numeral of it with white space around |
| `HeroForm.IntoHeroCreate` | src/hero/views/hero_form.rs:51-74 | accepts exactly when level, name and powers are valid, and else gives all their errors, the level's first |
| `HeroForm.IntoHeroUpdate` | src/hero/views/hero_form.rs:78-101 | the same for an update, in which name and powers are always given |
| `HeroForm.BlankLevelExact` | src/hero/views/hero_form.rs:78-101 | the record then has the submitted level unless the field is blank and the record had one, which it keeps |
| `HeroForm.SubmittedRow` | src/hero/controllers/heroes_web.rs:124-142 | the values a rendered row shows are, unescaped, its name, its joined powers and its printed level |
| `HeroForm.RowIsInert` | src/hero/controllers/heroes_web.rs:124-142 | no value a row shows can end its attribute or open a tag |
| `HeroForm.UneditedRowExact` | src/hero/controllers/heroes_web.rs:124-142 | submitting a row unedited is accepted and changes only the modification stamp if and only if its name is valid and its powers are valid, trimmed and free of commas |
| `HeroV1.ValidateCreateV1` | src/hero/views/hero_v1.rs:49-58 | one error for each of the two texts that is out of bounds, in order |
| `HeroV1.ValidateUpdateV1` | src/hero/views/hero_v1.rs:84-97 | one error for each given text that is out of bounds, in order |
| `HeroV1.SameVerdicts` | src/hero/views/hero_v1.rs:61-69 | a v1 payload and its v2 conversion get equally many errors, so one passes exactly when the other does |
| `HeroV1.V1ErrorsByField` | src/hero/views/hero_v1.rs:49-97 | the errors of a v1 payload name exactly the fields at fault |
| `HeroV1.ViewShows` | src/hero/views/hero_v1.rs:124-136 | of every record the view shows the first power, if it has one, and all else as it is, the archive stamp included |
| `HeroV1.ViewCommutesWithUpdate` | src/hero/views/hero_v1.rs:100-136 | reading as v1 after a converted update is updating the v1 view field by field |
| `HeroV1.ViewOfCreated` | src/hero/views/hero_v1.rs:61-69 | a record created through v1 is read back as it was given |
| `HeroV1.HiddenPowersSurvive` | src/hero/views/hero_v1.rs:104 | powers beyond the first survive a v1 update exactly when it omits the superpower |
| `HeroStats.NumericStatSound` | src/hero/controllers/heroes.rs:294-317 | minimum and maximum are attained bounds, the average lies between them, total is average times count, and all are absent exactly for no values |
| `HeroStats.TotalIsSum` | src/hero/controllers/heroes.rs:306-315 | the total of one value is the value, and of two lists together the sum of their totals |
| `HeroStats.NumericFields` | src/hero/controllers/heroes.rs:322-328 | the id is always a value, the power level when the record has one, and no other field is numeric |
| `HeroStats.StatIsSeriesTotal` | src/hero/controllers/heroes.rs:472-481 | a field's count is that of the records that have a value, and its total is their sum, which is what its bucket series adds up to |
| `HeroStats.AccumulatedIs` | src/hero/controllers/heroes.rs:556-560 | after the loop, a bucket has an entry exactly when a record with a value falls into it, and the entry is the sum of those |
| `HeroStats.BucketsConserve` | src/hero/controllers/heroes.rs:553-568 | over any ascending list of buckets that misses no record, the bucket sums add up to the sum over all records |
| `HeroStats.FieldSeries` | src/hero/controllers/heroes.rs:553-568 | strictly ascending buckets, one for each that has a record with a value, each with the sum of its records |
| `HeroStats.SeriesConserves` | src/hero/controllers/heroes.rs:553-568 | the sums of such a series add up to the sum over all records that have a value |
| `HeroStats.TimeSeries` | src/hero/controllers/heroes.rs:338-352 | strictly ascending buckets with positive counts, each the number of its records |
| `HeroStats.SeriesOfOne` | src/hero/controllers/heroes.rs:341-344 | a record alone falls into the bucket of its creation |
| `HeroStats.TimeSeriesConserves` | src/hero/controllers/heroes.rs:338-352 | the counts of such a series add up to the number of records |
| `HeroStats.SeriesCoversTotalExact` | src/hero/controllers/heroes.rs:452-470 | the total counted at one point and the series listed at a later one agree if and only if the smaller of the cap and what the same count then gives is the total |
| `HeroStats.QuietSeriesExact` | src/hero/controllers/heroes.rs:452-470 | with nothing written in between, they agree if and only if the total is within the cap |
| `HeroStats.BusySeriesExact` | src/hero/controllers/heroes.rs:452-470 | with archived records included and any history in between, they agree if and only if the total is within the cap and, unless it is the cap, nothing was created |
| `HeroStats.SeriesOverCap` | src/hero/controllers/heroes.rs:460-470 | over the cap, the series adds up to the cap only |
| `HeroStats.SeriesAfterCreate` | src/hero/controllers/heroes.rs:452-470 | within the cap, one create between the count and the list makes the series exceed the total by one |

## Left out

- SqlTranslation.TranslationExact: asks of the lowercase function that it leaves alone strings made of characters it yields, as Unicode lowercasing does.
- SeaOrmRepository.HeroSeaOrmRepository.Count: does not say which rows of the archive scope a filter that is not portable selects (as do List, UpdateMany and DeleteMany), nor when its statement fails.
- MemoryRepository.HeroMemoryRepository.Create: is asked for ids below 2^31 - 1 only; what a build does when the counter passes the end of `i32` (a panic or a wrap) is not modelled, nor is the exhausted sequence of `HeroSeaOrmRepository.Create`.
- SeaOrmRepository.HeroSeaOrmRepository.Delete: compares with the in-memory delete whose two clock readings are equal; with different ones the two stamps differ in memory only.
- RateBounds.SuccessesBounded: assumes that the counter of the key does not wrap in memory; past 32 bits that count starts from zero again, while Redis answers with an error and `RedisBounded` needs no such condition. Both take a window of at least one tick.
- RateBounds.MemoryKeepsPace: likewise, as does the in-memory half of `RefusedExactly`.
- RepositoryRuns.Simulate: takes requests with one clock reading each, whose filters are portable and whose sort clauses decide the order; on others the two backends do differ, by `TranslationExact` and `ListOrderExact`.
- Ill-typed operations in SQL and orderings of strings have a truth value of their own (`Undetermined`) in `SqlConditions.Truth`, and a statement that meets one fails in the model. PostgreSQL rejects the former before it looks at any row, and answers the latter by collation; what the writes promise for all filters holds in either case. The error texts of the database are not modelled, nor are connection failures and lock poisoning.
- Floating point is modelled by reals, and `u64` sums in the perf harness by unbounded numbers; rounding, infinities and overflow are not modelled.
- Rust's `sort_by` and `partition_point` are modelled by a stable insertion sort and a bisection of this project's own, which have the same results by their documented contracts.
- The glob matcher works on characters, Redis on bytes; `glob_escape` only ever adds single-byte characters.
- A browser that strips line breaks from a text field, or rejects a number field, is not modelled; what is submitted is the unescaped value.
- Commas are assumed not to be white space, and white space is the fixed Unicode list; there is no other Unicode table.
- Query parsing, `CrudService`, the forecast, `bucket_start`, ETag hashing and the event bus of the CRUD library are not part of this model. Bucketing is an arbitrary function of time.
- Routes, extractors, headers, JSON and XML rendering, roles and tokens, analytics, configuration, migrations and start-up are plumbing over the same operations.
- The CPU sampler's task and the text of `cpu.stat`, memory sizes and the rest of the summary document are not modelled: each is a single formula or a text format.
