# Storage monitoring back end: a verified model

This project models the stateful core of the storage monitoring server in Dafny and proves what the code is
there to guarantee. `dafny verify dfyconfig.toml` checks all of it.

- **The storage-entity forest.** Data centers, systems, pools, groups and ports form a forest through their
  parent links, and a closure table indexes which entity lies below which. `Forest`, `ClosureTable` and
  `StorageEntityTables` define the forest, the SQL statements on the index and what each operation does to the
  tables; `StorageEntityRepositories` and `StorageEntityServices` run the operations on mutable tables, statement
  by statement, and are proved against those definitions; `StorageEntityRuns` is about whole runs of them. `Duplication` says what a duplicate should contain and
  when the name checks let it finish. `StorageEntityKeys` covers key paths and find-or-create.
- **The SQL migration** that built the forest (`Migrations`), with its one-by-one renumbering (`Renaming`).
- **The time-series cache.** `BlobCache` (chunks and ranged reads), `Thinning`, `RefreshRuns` (incremental
  refresh against one full fetch), `MaintainerCache` (the files as mutable state), `Selection` (top, bottom and
  percentile) and `PrefetchLock` (the per-system lock over event-loop steps).
- **The hierarchical sort**: `Sorting`, `SortKeys`, `TreeSort` on values, `HierarchicalSort` on entity objects
  whose children lists are rewritten in place, and `SortMeaning` with the resulting order in terms of names, serial
  numbers, tiers and metrics.
- **Device reconciliation** (`DeviceMap`), **the update debounce** (`UpdateDebounce`) and **the latency
  histogram** (`LatencyHistogram`).

Several expected properties do not hold of the code as written. For each, the exact condition under which it
holds is proved as an if-and-only-if:

| what one would expect | when the code meets it | where |
|---|---|---|
| a move keeps the forest and its index | the new parent is not inside the moved subtree (no guard checks this) | `MoveKeepsInvIff`, `MoveCollidesIff`, `RunKeepsInvIff`; fails in `MoveBelowItself` |
| the one-by-one renumbering equals renaming at once | no later old id equals an earlier new id (old ids up to 1000 suffice) | `SequentialIsSimultaneousIff`, `OldBelowNew`; fails in `HandedOn` |
| a ranged read equals the filter by minutes | the range ends do not round past themselves | `ReadIsRoundedFilterIff`; fails in `LostRow` |
| a refresh that reuses cached rows loses nothing | the new start lies on or after the cached start and does not round down | `AppendIsFullFetchIff`; fails in `LostMinute` |
| the sort orders every level by least leaf | no siblings mix leaves with inner nodes | `SortOrdersIff`; fails in `MixedSiblingsBreakOrder` |
| the percentile index lies in the row | p (n - 1) < n - 1/2 (percentages up to 1 always do) | `PercentileInBoundsIff`; fails in `PercentileOutOfBounds` |
| the prefetch lock is free once all prefetches are over | none was thrown out of an unguarded await | `LockFreeIffNoCrash`; fails in `CrashLocksForGood` |
| an 'updated' emission finds the info record | the socket has not closed since the last successful refresh | `FoundIffOpenSinceRefresh`; fails in `EmissionWithoutInfo` |
| splitting the histogram by operation keeps the total | the filter lists some operation and none twice | `SplitConservesIff` |
| a component key is well shaped for find-or-create | it does not put a system below a system | `ComponentKeyShape` |
| reconciliation leaves other entities alone | none is an active parity group whose parent's id is the id of a reported pool that does not list it | `OutsideUntouchedIff`; fails in `OtherSystemIsHit` |
| a listed parity group ends active | no later reported pool has the entity id of its pool for its own id | `ReconciledMeans`, `TakenDown`; fails in `ClashingRun` |
| moving a parity group keeps the closure table right | it already hung below that pool | `ReparentKeepsClosureIff` |

## Model

| member | source | states |
|---|---|---|
| `Forest.MoveAcyclicIff` | src/collector/services/storage-entity.service.ts:225-269 | writing a new parent link keeps the parent relation acyclic if and only if the new parent is outside the moved subtree |
| `Forest.ReachesAfterMove` | src/collector/services/storage-entity.service.ts:259-268 | exactly who reaches whom after a subtree is hung below a new parent outside it |
| `Forest.RemoveKeepsForest` | src/collector/services/storage-entity.service.ts:195-223 | removing a downward-closed set leaves reachability among the rest unchanged |
| `ClosureTable.AddLeafClosure` | database/migrate_to_storage_enity.sql:13-21 | the two closure inserts of a new child never violate the primary key and give exactly the reachability of the grown forest |
| `ClosureTable.MoveClosure` | src/collector/services/storage-entity.service.ts:248-266 | with the new parent outside the subtree, delete then cross-join insert turn the closure of the old forest into that of the new one, and no inserted pair meets a surviving row |
| `ClosureTable.MoveCollidesIff` | src/collector/services/storage-entity.service.ts:259-266 | the insert of a move violates the primary key exactly when the new parent lies in the moved subtree |
| `ClosureTable.MoveFrame` | src/collector/services/storage-entity.service.ts:248-266 | pairs outside (old proper ancestors plus new ancestors) x subtree are unchanged |
| `ClosureTable.DropSubtreeClosure` | src/collector/services/storage-entity.service.ts:209-216 | the delete query removes exactly the pairs with an end in the subtree and leaves the closure of the remaining forest |
| `StorageEntityTables.AddLeafKeepsInv` | src/collector/services/storage-entity.service.ts:64-66 | a new entity with its closure rows keeps references, acyclicity and the index |
| `StorageEntityTables.CreateMeans` | src/collector/services/storage-entity.service.ts:38-110 | which error a create gives (none for a datacenter; no parent; a name taken, for a system or pool anywhere, otherwise among siblings) and, without one, exactly the row and the index pairs it adds |
| `StorageEntityTables.MoveKeepsInvIff` | src/collector/services/storage-entity.service.ts:225-269 | a move keeps the whole invariant exactly when it is refused or the new parent is outside the moved subtree |
| `StorageEntityTables.MoveMeans` | src/collector/services/storage-entity.service.ts:225-269 | with both entities there and active the entity hangs below the new parent, no other row, data row or id changes, and the index is that of the re-parented forest when the parent lies outside the subtree and otherwise loses the pairs from strictly above into it; in every other case nothing changes |
| `StorageEntityTables.MoveKeepsReferences` | src/collector/services/storage-entity.service.ts:248-268 | after every single statement of a move, rejected insert included, all references are to present entities |
| `StorageEntityTables.DeleteKeepsInv` | src/collector/services/storage-entity.service.ts:195-223 | removing a subtree with its pairs and data keeps the invariant, and its closure equals what the query leaves |
| `StorageEntityTables.DeleteMeans` | src/collector/services/storage-entity.service.ts:195-223 | exactly the entities reached from the deleted one are gone, with exactly the pairs and data rows that refer to one of them |
| `StorageEntityTables.StatusMeans` | src/collector/services/storage-entity.service.ts:141-172 | the status is written on exactly the entities reached from the given one and nothing else changes |
| `StorageEntityTables.SameLinksKeepInv` | src/collector/services/storage-entity.service.ts:155-172 | changes that keep every parent link, such as status changes, keep the invariant |
| `StorageEntityTables.MoveBelowItself` | src/collector/services/storage-entity.service.ts:225-269 | a concrete accepted move that leaves an entity its own parent and the index as it was |
| `StorageEntityTables.CreateAllKeepsInv` | src/collector/services/storage-entity.service.ts:38-67 | any series of creates, refused ones included, keeps the invariant |
| `StorageEntityRuns.StepKeepsInvIff` | src/collector/services/storage-entity.service.ts:38-344 | create, move, delete, status change, duplicate and find-or-create keep the invariant exactly when the step is not a move into its own subtree |
| `StorageEntityRuns.RunKeepsInvIff` | src/collector/services/storage-entity.service.ts:38-344 | over any run of these operations, the forest is acyclic and exactly indexed after every step if and only if no accepted move goes into its own subtree |
| `StorageEntityRuns.FindOrCreateIsStep` | src/collector/repositories/storage-entity.repository.ts:66-117 | what find-or-create promises is one of the steps the runs allow |
| `StorageEntityRepositories.StorageEntityRepository.SaveNew` | src/collector/services/storage-entity.service.ts:64-66 | saving a new entity adds its row under the next id and its closure rows, and keeps the invariant where it held |
| `StorageEntityRepositories.StorageEntityRepository.FindOneByName` | src/collector/repositories/storage-entity.repository.ts:119-135 | returns a row with the name and type, below the parent when one is given, and none only when there is none |
| `StorageEntityRepositories.StorageEntityRepository.FindOrCreate` | src/collector/repositories/storage-entity.repository.ts:78-117 | returns an entity whose ancestors match the key; keeps siblings and system names distinct; writes nothing when the key exists or in fetch mode; changes no existing row; in create mode the new rows are exactly the missing lower end of the path |
| `StorageEntityRepositories.StorageEntityRepository.FetchByStorageEntityKey` | src/collector/repositories/storage-entity.repository.ts:53-76 | fails only without the datacenter or, in fetch mode, without the key; a key that exists is found without a write, otherwise exactly the missing lower end of its path is created; with a system on top a key names one entity only, so a second call returns the same id |
| `StorageEntityRepositories.EndBelowTop` | src/collector/repositories/storage-entity.repository.ts:108-114 | with the top part found, what is missing below it is what is missing of the whole key |
| `StorageEntityRepositories.AddPathRows` | src/collector/repositories/storage-entity.repository.ts:93-114 | a created path is one new row for each missing part, under the next ids, and changes no row |
| `StorageEntityKeys.ComponentKeyShape` | src/collector/utils/storage-entity-key.utils.ts:24-65 | a built key has the shape find-or-create relies on if and only if it does not put a system below a system |
| `StorageEntityKeys.ComponentKeyPath` | src/collector/utils/storage-entity-key.utils.ts:24-65 | the path every component key names: a port below its adapter group, a parity group below its pool, any other component below the system, all in CZ_Chodov |
| `StorageEntityKeys.OneKeyMatch` | src/collector/repositories/storage-entity.repository.ts:78-135 | with distinct siblings and system names a key path names at most one entity |
| `StorageEntityKeys.MatchesKeyByTop` | src/collector/repositories/storage-entity.repository.ts:78-117 | searching from the top part down agrees with checking the ancestors from the bottom up |
| `StorageEntityKeys.DistinctAfterCreate` | src/collector/repositories/storage-entity.repository.ts:88-100 | creating only after the search found nothing keeps (parent, type, name) unique among siblings and system names unique |
| `StorageEntityServices.StorageEntityService.Create` | src/collector/services/storage-entity.service.ts:38-110 | each error exactly when the parent is missing or the name is taken where it has to be free, with unchanged tables; otherwise the one new row with the requested name, type, serial number and parent, and its index pairs; the invariant is kept and no intermediate state refers to a missing entity |
| `StorageEntityServices.StorageEntityService.Move` | src/collector/services/storage-entity.service.ts:225-269 | accepted exactly when both entities are there and active; then the parent of that entity is the new one, every other row, the data and the ids are as they were, and the index is that of the re-parented forest, or the old one cut when the new parent is inside the subtree; refused without effect; invariant kept if and only if the move is safe; references hold in between |
| `StorageEntityServices.StorageEntityService.Delete` | src/collector/services/storage-entity.service.ts:195-223 | terminates and removes exactly the subtree's entities, data rows and pairs; in every intermediate state no child, data row or pair refers to a missing entity |
| `StorageEntityServices.StorageEntityService.DeleteLeaf` | src/collector/services/storage-entity.service.ts:208-222 | data tables one by one, closure query and row of a childless entity remove exactly what belongs to it |
| `StorageEntityServices.EveryTableListed` | src/collector/services/storage-entity.service.ts:346-385 | the per-table deletes cover every table that holds data of an entity |
| `StorageEntityServices.StorageEntityService.UpdateStatus` | src/collector/services/storage-entity.service.ts:141-172 | the recursive update sets the status of exactly the subtree and keeps the invariant |
| `StorageEntityServices.StorageEntityService.Duplicate` | src/collector/services/storage-entity.service.ts:271-306 | completes exactly when the root name is free and the kept part has no name conflict; then the new rows are exactly a fresh copy, same names, types and shape, of the largest top-connected part of listed types; no old row changes |
| `StorageEntityServices.StorageEntityService.DuplicateChildren` | src/collector/services/storage-entity.service.ts:308-344 | the same for the children of one entity; terminates because nothing it creates enters the subtree it still has to read |
| `Duplication.KeptByChildren` | src/collector/services/storage-entity.service.ts:313-344 | the largest top-connected part of listed types is the root plus that part below each listed child |
| `Duplication.RefusedIffTwin` | src/collector/services/storage-entity.service.ts:80-95 | the copy of a child is refused exactly when its type is system or pool or an already copied sibling has its name and type |
| `Duplication.CopyableJoin` | src/collector/services/storage-entity.service.ts:308-344 | conflict-free parts below different children have no conflict across them unless the children themselves are alike |
| `Duplication.PoolChildNeverCopyable` | src/collector/services/storage-entity.service.ts:80-88 | listing POOL for a source with a POOL child always ends in the name-global conflict |
| `Migrations.Migration.AddStorageEntity` | database/migrate_to_storage_enity.sql:2-25 | the id predicted from the sequence is the id the insert assigns, and the closure built is the reachability of the forest |
| `Migrations.Migration.UpdateOwners` | database/migrate_to_storage_enity.sql:145-147 | the update statements of one row renumber its id in exactly the tables of its kind |
| `Migrations.Migration.MigrateRow` | database/migrate_to_storage_enity.sql:142-147 | one fetched row becomes one entity below the entity of its owner and the metric rows of all entities so far follow; `MetricsRenamed` names the tables |
| `Migrations.Migration.MigrateSystem` | database/migrate_to_storage_enity.sql:142-213 | a system's pools, host groups, adapters and their ports are each visited exactly once |
| `Migrations.Migration.Migrate` | database/migrate_to_storage_enity.sql:121-219 | the rows that become entities are exactly the datacenters, their systems, the pools, host groups and adapters of these, and the ports of these adapters; each entity carries its row's name and type below the entity of the row's owner; the closure is the reachability of the forest; with old ids up to 1000 each row of SYSTEM_METRICS, POOL_METRICS, BLOCK_SIZE_LATENCY, HOST_GROUP_METRICS, EXTERNALS, CHA_METRICS and PORT_METRICS ends with the new id of its own system, pool, host group, adapter or port, and all others keep theirs |
| `Migrations.MetricsKeepFollowing` | database/migrate_to_storage_enity.sql:156-162 | after each row the metric tables are the original ones under the updates issued so far, table kind by table kind |
| `Migrations.MetricsRenamed` | database/migrate_to_storage_enity.sql:142-207 | which table follows which kind of entity, table by table: its rows end with the entity's new id when the entity was visited and keep theirs when not; the remaining tables are not touched |
| `Migrations.ScopeMeans` | database/migrate_to_storage_enity.sql:126-213 | a row is visited exactly when its chain of owners, each present in its table, ends in a datacenter |
| `Migrations.AllCarried` | database/migrate_to_storage_enity.sql:2-25 | every new entity carries name, type and owner of one old row and the ids are 1001 onwards without a gap |
| `Renaming.SequentialIsSimultaneousIff` | database/migrate_to_storage_enity.sql:145-207 | the updates in order equal renaming everything at once, for every id, if and only if no later old id equals an earlier new id |
| `Renaming.NoOverlapRenames` | database/migrate_to_storage_enity.sql:145-207 | without overlap every id that had an entity is rewritten exactly once, to its own new id |
| `Renaming.OldBelowNew` | database/migrate_to_storage_enity.sql:59 | old ids up to the start of the sequence never overlap new ids |
| `Dates.ToMinsNearest` | src/utils/date.ts:1-7 | rounding to minutes moves an instant by at most half a minute and not at all on whole minutes |
| `BlobCache.SplitJoins` | src/collector/services/maintainer-cache.service.ts:396-416 | chunks joined give the written rows, for any length and chunk size |
| `BlobCache.ChunkRows` | src/collector/services/maintainer-cache.service.ts:402-412 | chunk i holds the rows from i times the chunk size on, as many as the size or as are left |
| `BlobCache.ReadAll` | src/collector/services/maintainer-cache.service.ts:365-390 | a read without a range gives everything written |
| `BlobCache.ReadSandwich` | src/collector/services/maintainer-cache.service.ts:374-390 | a ranged read lies between the exact filter and the filter by rounded minutes, in order and without duplicates |
| `BlobCache.ReadIsRoundedFilterIff` | src/collector/services/maintainer-cache.service.ts:374-390 | a ranged read equals the filter by rounded minutes for all series and chunk sizes if and only if the range rounds outwards |
| `BlobCache.ReadAligned` | src/collector/services/maintainer-cache.service.ts:374-390 | with both ends on whole minutes a read is the plain filter |
| `Thinning.Thin` | src/collector/services/maintainer-cache.service.ts:289-299 | the filter with its running stamp computes the thinned batch |
| `Thinning.KeptIff` | src/collector/services/maintainer-cache.service.ts:289-299 | a row is kept exactly when it lies at least the resolution after the last kept row before it (or 0) |
| `Thinning.ThinnedSpaced` | src/collector/services/maintainer-cache.service.ts:289-299 | consecutive kept stamps are at least the resolution apart |
| `Thinning.ThinnedFixpointIff` | src/collector/services/maintainer-cache.service.ts:289-299 | thinning leaves a batch alone exactly when it is already spaced |
| `Thinning.ThinnedTwice` | src/collector/services/maintainer-cache.service.ts:289-299 | thinning twice is thinning once |
| `RefreshRuns.FullFetchMember` | src/collector/services/maintainer-cache.service.ts:277-303 | a full fetch stores exactly the rows of the range, by rounded minutes, that carry a value |
| `RefreshRuns.AppendIsFullFetch` | src/collector/services/maintainer-cache.service.ts:265-303 | reading back what is still in range and appending from the cached end plus one minute equals one full fetch |
| `RefreshRuns.AppendIsFullFetchIff` | src/collector/services/maintainer-cache.service.ts:265-303 | that holds for every series if and only if the new start lies on or after the cached start and does not round down |
| `RefreshRuns.RunIsFullFetch` | src/collector/services/maintainer-cache.service.ts:208-330 | over any run of refreshes with advancing starts the stored rows strictly increase and equal one full fetch of the recorded range |
| `RefreshRuns.RunStaysWithin` | src/collector/services/maintainer-cache.service.ts:208-330 | with or without thinning, over any such run the stored rows strictly increase and all belong to the full fetch of the recorded range |
| `RefreshRuns.RefreshStores` | src/collector/services/maintainer-cache.service.ts:219-326 | a refresh that is not skipped records its range and stores, of the rows stored before, exactly those from the new start on, and exactly the rows of the new fetch, which begins a minute after the end recorded before |
| `RefreshRuns.BatchMember` | src/collector/services/maintainer-cache.service.ts:277-303 | a fetch stores exactly the rows with a value that lie in the rounded range and, with a resolution, at least that far after the last row kept before them |
| `RefreshRuns.CacheAnswers` | src/collector/services/maintainer-cache.service.ts:426-461 | for a range that rounds outwards, a read from such a cache is the filter of the whole series, up to the end of what is stored |
| `RefreshRuns.CacheSandwich` | src/collector/services/maintainer-cache.service.ts:426-461 | for any range, a read from such a cache lies between the exact and the rounded filter of the whole series, up to the end of what is stored |
| `MaintainerCache.MetricFiles.WriteToBlob` | src/collector/services/maintainer-cache.service.ts:396-424 | the loop writes file i with the rows of the i-th five days of minutes and lists it with the instants of its first and last row, for exactly the blocks there are |
| `MaintainerCache.MetricFiles.ReadFromBlob` | src/collector/services/maintainer-cache.service.ts:365-394 | going through the map reads exactly what the chunk-wise definition reads of the rows last written |
| `MaintainerCache.MetricFiles.Refresh` | src/collector/services/maintainer-cache.service.ts:219-326 | one pass over a metric: when it is skipped, what is stored and recorded otherwise, for every combination of reuse and thinning |
| `MaintainerCache.MetricFiles.GetData` | src/collector/services/maintainer-cache.service.ts:426-461 | a cache that reaches back far enough answers; its answer lies between the exact and the rounded filter of the whole series, and is the filter when the range rounds outwards |
| `Selection.ChosenColumns` | src/collector/services/maintainer-cache.service.ts:54-73 | the filter picks as many different columns as asked, best first, none worse than one left out |
| `Selection.FilterGivenIff` | src/collector/services/maintainer-cache.service.ts:54-73 | columns are chosen exactly when there are more of them than asked for |
| `Selection.ChosenIsExtreme` | src/collector/services/maintainer-cache.service.ts:54-73 | no other set of as many columns holds more (for bot: less) in all rows together |
| `Selection.ColumnsAddUp` | src/collector/services/maintainer-cache.service.ts:54-73 | the column totals the choice goes by add up to the values of all rows |
| `Selection.Project` | src/collector/services/maintainer-cache.service.ts:512-523 | projection keeps each row's time and lines its values up with the projected variant names; with distinct names the value is the only one the row reads under that name |
| `Selection.PercentileInBoundsIff` | src/collector/services/maintainer-cache.service.ts:29-48 | the percentile index lies in the row exactly when p (n - 1) < n - 1/2 |
| `Selection.PercentileIndexNearest` | src/collector/services/maintainer-cache.service.ts:40-45 | the index is p (n - 1) rounded to the nearest whole number, halves up, and no other number is |
| `Selection.PercentileOutOfBounds` | src/collector/services/maintainer-cache.service.ts:29-48 | a concrete query the syntax allows whose index misses the row |
| `Selection.PercentileIsOrderStatistic` | src/collector/services/maintainer-cache.service.ts:40-45 | for 0 <= p <= 1 and the whole number r nearest to p (n - 1), the result is an element of the row with at least r + 1 entries at most it and at least n - r at least it |
| `Selection.MedianOfThree` | src/collector/services/maintainer-cache.service.ts:40-45 | perc-0.5 of three values is the middle one |
| `PrefetchLock.StepKeepsInv` | src/collector/services/maintainer-cache.service.ts:192-337 | after every event-loop step a system is locked exactly while one prefetch holds its lock |
| `PrefetchLock.MutualExclusion` | src/collector/services/maintainer-cache.service.ts:203-336 | in every interleaving at most one prefetch of a system is between taking and giving back its lock |
| `PrefetchLock.RewriteIsNotInterleaved` | src/collector/services/maintainer-cache.service.ts:305-316 | between a prefetch's unlinking and writing of blobs no other prefetch of that system touches files |
| `PrefetchLock.DoneLoadedAll` | src/collector/services/maintainer-cache.service.ts:203-337 | a prefetch that ends without being skipped or thrown out has gone through all 33 metrics, each with the lock held |
| `PrefetchLock.CanFinish` | src/collector/services/maintainer-cache.service.ts:219-337 | from any reachable state a prefetch that holds the lock and was not thrown out can end and give it back by its own steps, even if every remaining metric fails |
| `PrefetchLock.AloneCompletes` | src/collector/services/maintainer-cache.service.ts:192-337 | a run in which one prefetch rewrites all 33 metrics and ends with the lock free |
| `PrefetchLock.LockFreeIffNoCrash` | src/collector/services/maintainer-cache.service.ts:203-214 | once all prefetches of a system are over its lock is free if and only if none was thrown out of an unguarded await |
| `PrefetchLock.CrashLocksForGood` | src/collector/services/maintainer-cache.service.ts:203-214 | after such a throw the system stays locked and no later prefetch of it enters |
| `Sorting.SortedIsSorted` | src/statistics/utils/sort-storage-entity-by-metric.utils.ts:37-41 | the sort orders by the comparator when that is a total preorder |
| `Sorting.SortedStable` | src/statistics/utils/sort-storage-entity-by-metric.utils.ts:37-41 | elements that compare equal keep their order |
| `SortKeys.CompareOrder` | src/statistics/utils/sort-storage-entity-by-metric.utils.ts:44-71 | the comparator is antisymmetric and transitive for any mix of directions and missing values |
| `SortKeys.NotAfterOrder` | src/statistics/utils/sort-storage-entity-by-metric.utils.ts:44-109 | entities compared by their own values form a total preorder |
| `SortKeys.CompareDecides` | src/statistics/utils/sort-storage-entity-by-metric.utils.ts:44-71 | one entity comes before another if and only if the first key under which they differ puts it first in that key's direction |
| `SortKeys.TierIsExtreme` | src/statistics/utils/sort-storage-entity-by-metric.utils.ts:87-101 | the tier used is the least one for an ascending key, the greatest for a descending one, and missing exactly without tiers |
| `TreeSort.SortShuffles` | src/statistics/utils/sort-storage-entity-by-metric.utils.ts:12-31 | sorting only rearranges siblings |
| `TreeSort.ParentValuesAreLeftmost` | src/statistics/utils/sort-storage-entity-by-metric.utils.ts:122-136 | inner nodes are compared by the values of their leftmost leaf |
| `TreeSort.SortOrders` | src/statistics/utils/sort-storage-entity-by-metric.utils.ts:12-31 | on uniform trees every level ends ordered and the leftmost leaf of each node is a least leaf below it |
| `TreeSort.SortOrdersIff` | src/statistics/utils/sort-storage-entity-by-metric.utils.ts:12-31 | that holds for all metrics and keys if and only if no siblings mix leaves with inner nodes |
| `TreeSort.SortForestOrders` | src/statistics/utils/sort-storage-entity-by-metric.utils.ts:12-31 | the list handed in ends ordered by least leaf across its roots |
| `HierarchicalSort.CompareUnder` | src/statistics/utils/sort-storage-entity-by-metric.utils.ts:111-136 | comparing two objects key by key down their first children equals comparing their trees |
| `HierarchicalSort.SortSame` | src/statistics/utils/sort-storage-entity-by-metric.utils.ts:33-42 | sorting entity objects sorts their trees |
| `HierarchicalSort.Sort` | src/statistics/utils/sort-storage-entity-by-metric.utils.ts:12-31 | rewriting the children lists of entity objects in place gives the sorted forest of their trees, returns a permutation of the list, and keeps every object's children unshared; for uniform trees the leaves end in the order of their own names, serial numbers, tiers or metrics under the keys |
| `HierarchicalSort.SortBelow` | src/statistics/utils/sort-storage-entity-by-metric.utils.ts:16-29 | one entity's children are reassigned to a permutation of themselves; children with metrics end in the order of what they carry under the keys, others are sorted below in turn |
| `SortMeaning.TextLessMeans` | src/statistics/utils/sort-storage-entity-by-metric.utils.ts:44-71 | text comparison goes by the first differing character or a proper prefix |
| `SortMeaning.AheadMeans` | src/statistics/utils/sort-storage-entity-by-metric.utils.ts:44-109 | an entity is compared in front of another exactly when the first key that tells them apart puts it there by its own name, its parent's serial number, its least or greatest tier, or its first metric of the type, missing values first when ascending and last when descending |
| `SortMeaning.NotAfterMeans` | src/statistics/utils/sort-storage-entity-by-metric.utils.ts:44-109 | not after means that the other one is not ahead in these terms |
| `SortMeaning.MetricSiblingsInOrder` | src/statistics/utils/sort-storage-entity-by-metric.utils.ts:12-31 | siblings with metrics end in the order of what they carry under the keys |
| `SortMeaning.OrderedMeans` | src/statistics/utils/sort-storage-entity-by-metric.utils.ts:12-31 | in a sorted tree no leaf is ahead of the leftmost one, and no sibling's leftmost leaf is ahead of an earlier sibling's |
| `SortMeaning.ForestInOrder` | src/statistics/utils/sort-storage-entity-by-metric.utils.ts:12-31 | the sorted list has its roots in the order of their leftmost leaves, each a least leaf of its tree |
| `UpdateDebounce.EmissionAfterRefreshes` | src/collector/services/maintainer.service.ts:134-148 | every emission comes at least 60 s after every earlier successful refresh of its system |
| `UpdateDebounce.EmissionsApart` | src/collector/services/maintainer.service.ts:134-148 | two emissions for one system are at least 60 s apart |
| `UpdateDebounce.FoundIffOpenSinceRefresh` | src/collector/services/maintainer.service.ts:101-104 | the info record exists at an emission if and only if the socket has not closed since the last successful refresh |
| `UpdateDebounce.MaintainerService.OneTimerPerSystem` | src/collector/services/maintainer.service.ts:134-138 | at most one live timer per system |
| `UpdateDebounce.MaintainerService.UpdateSucceeded` | src/collector/services/maintainer.service.ts:107-114 | a refresh records the info and leaves one timer for the system, due in 60 s |
| `UpdateDebounce.MaintainerService.UpdateFailed` | src/collector/services/maintainer.service.ts:115-125 | a failed refresh drops the info, and the queued timer only when there was info |
| `UpdateDebounce.MaintainerService.TimerFired` | src/collector/services/maintainer.service.ts:137-147 | a due timer ends its queue entry and emits the info, or fails where there is none |
| `UpdateDebounce.EmissionWithoutInfo` | src/collector/services/maintainer.service.ts:101-147 | a concrete run that ends in an emission without an info record |
| `LatencyHistogram.FrequencyByLatencyBlockSize` | src/collector/services/latency-metric.service.ts:71-140 | an entry for exactly the cells of the database and those (operation, 2^latencyExp, 2^blockSizeExp) of rows a maintainer reports for a pool that passes the pool, operation, latency and block-size filters; its count is the database count plus the counts of these rows, each system, pool and operation 1 and 2 read once; the totals add up |
| `LatencyHistogram.SystemsMean` | src/collector/services/latency-metric.service.ts:84-130 | the rows merged for a cell add up, system by system, pool by pool and for both operations, to the counts of the rows that count there |
| `LatencyHistogram.ReportedMeans` | src/collector/services/latency-metric.service.ts:84-130 | a cell gets a maintainer entry exactly when some row reported for a system's pool and an operation counts at it |
| `LatencyHistogram.PowerOfTwoMeans` | src/collector/services/latency-metric.service.ts:106-118 | the powers by doubling from 1, for negative exponents as well |
| `LatencyHistogram.OneRowHistogram` | src/collector/services/latency-metric.service.ts:71-140 | the histogram of one read row with exponents 3 and 12 is one entry of latency 8 and block size 4096 |
| `LatencyHistogram.Respond` | src/statistics/services/latency-block-size.service.ts:37-66 | for each listed operation its entries in order, block size, latency and count each in its own place |
| `LatencyHistogram.AddAllTotals` | src/collector/services/latency-metric.service.ts:72-118 | merging keeps the total overall and in every cell and never repeats a cell |
| `LatencyHistogram.GroupBy` | src/statistics/utils/array.utils.ts:5-15 | a bucket for exactly the operations that occur, holding their entries in order |
| `LatencyHistogram.SplitConservesIff` | src/statistics/services/latency-block-size.service.ts:57-65 | the response carries the whole total for every histogram the filter lets through if and only if the filter lists some operation and none twice |
| `DeviceMap.TextRoundTrip` | src/statistics/workers/device-map.service.ts:105-115 | the serial number written for a pool reads back as its reported id |
| `DeviceMap.DeviceMapService.SettlePool` | src/statistics/workers/device-map.service.ts:92-115 | a reported pool is found or created below the system and ends active under its serial number; nothing else changes |
| `DeviceMap.DeviceMapService.SettleGroup` | src/statistics/workers/device-map.service.ts:132-178 | a listed parity group is found among the system's pools and moved and activated, or created below its pool |
| `DeviceMap.DeviceMapService.UpdatePools` | src/statistics/workers/device-map.service.ts:77-180 | the outcome for pools, parity groups and every other row; nothing changes when the store already agrees with the report |
| `DeviceMap.DeviceMapService.UpdateHostGroups` | src/statistics/workers/device-map.service.ts:233-266 | host groups end active exactly when reported, missing ones are created, nothing else changes |
| `DeviceMap.DeviceMapService.UpdateSystem` | src/statistics/workers/device-map.service.ts:48-266 | a run ends reconciled, or leaves all as it was without maintainer or system; it fails exactly when something is reported and the datacenter is missing; what it requires of the store holds again afterwards |
| `DeviceMap.DeviceMapService.UpdateSystemTwice` | src/statistics/workers/device-map.service.ts:31-37 | a second run with the same report leaves every table as the first run left it |
| `DeviceMap.SecondRunSame` | src/statistics/workers/device-map.service.ts:72-266 | reconciling a reconciled store with the same report changes no row, whatever pool ids and entity ids are |
| `DeviceMap.ReconciledMeans` | src/statistics/workers/device-map.service.ts:72-266 | active pools are exactly the reported ones with the reported id as serial number, active host groups exactly the reported ones, every listed parity group hangs below the pool that lists it, and the effect on every other row |
| `DeviceMap.OutsideUntouchedIff` | src/statistics/workers/device-map.service.ts:117-130 | rows outside the report stay unchanged if and only if none is an active parity group whose parent's id is the id of a reported pool that does not list it |
| `DeviceMap.OtherSystemIsHit` | src/statistics/workers/device-map.service.ts:117-130 | a concrete store in which a report for one system deactivates a parity group of another |
| `DeviceMap.TakenDown` | src/statistics/workers/device-map.service.ts:117-130 | a listed group whose pool's entity id is a later reported pool's id ends inactive below that pool |
| `DeviceMap.LaterPoolTakesGroup` | src/statistics/workers/device-map.service.ts:117-130 | the same for a concrete report of two pools |
| `DeviceMap.ClashingRun` | src/statistics/workers/device-map.service.ts:92-180 | the run of that report from a concrete store, after which the listed group is inactive |
| `DeviceMap.ReconciledSettles` | src/statistics/workers/device-map.service.ts:72-266 | when pool ids and entity ids do not clash, every single statement of a second run is without effect |
| `DeviceMap.ReparentKeepsClosureIff` | src/statistics/workers/device-map.service.ts:168-175 | writing a parity group's parent without touching the closure table keeps the invariant exactly when the parent does not change |

## Left out

- TypeORM and Prisma query builders and the ORM's own closure maintenance: `save` of a new entity is its row plus the two closure inserts the SQL function spells out; `save` in a move writes the parent link only.
- Unawaited queries of a move: the two statements are taken to run in order and before the save; a rejected insert leaves the table as the delete left it.
- Not found is an option; the difference between `undefined` and `null` in `findOne` results is not modelled.
- FindOneByName: among several matching rows any one is returned, because the query fixes no order.
- FindOrCreate: the in-memory `parent` field of the returned entity is not modelled; nothing saves it.
- UpdateStatus: siblings are updated one after another, not in parallel; the lookup by key before it is `FetchByStorageEntityKey`.
- Duplicate: the system details written beside the copy are not modelled, and on a refused copy the entities created so far stay, as in the code.
- Move: sibling names stay unique under find-or-create and create only, because a move checks no names.
- Moves that reparent parity groups during reconciliation: outside the forest invariant; `ReparentKeepsClosureIff` says exactly when they break it.
- UpdateSystem: host ports, channel board pairs and port pairs, which come between and after the modelled parts, only create or touch entities of other types.
- UpdateSystem: reported names are not empty and no two parity groups of the system share a name to begin with (runs keep it so); an empty name would turn into the key of the system itself.
- UpdateSystem: parity groups that are no longer reported are not deactivated by the code, whose statement looks for the maintainer's pool id; the model states what it does to every row instead.
- The remote maintainer is one fixed series with increasing stamps, answering a range with both rounded minutes included; variants, units and the summary JSON are taken as read back unchanged, and lz4 and JSON decoding as inverse to encoding.
- Refresh: a failure between unlinking and writing blobs leaves a map without files; it is not modelled as a state to read from.
- Refresh: thinning is stated per fetched batch; the running stamp restarts at 0 for each batch, so gaps across batches are not bounded, and which rows of the full fetch a thinned run keeps depends on its batches.
- GetData: custom `$metric@pool` names and the server-side sum and average are calls to the maintainer; top, bottom and percentile are in `Selection`.
- Selection: metric values are reals without NaN, so rounding of floating-point sums is not modelled.
- Sort: the list handed in is returned sorted rather than rearranged in place; the children lists below it are rewritten in their objects. The library sort is taken to be stable.
- CompareOrder: a number is never compared with a text, and texts are ordered by character; an empty list of sort keys, on which the code throws, compares equal.
- PrefetchLock: memory of `vmwCache` and the contents of the files are not part of the lock's state machine; they are in `MaintainerCache`.
- UpdateDebounce: timers and socket events are explicit steps; an update is one step at the moment its answers are in; the retry timer after a failure is just a later step.
- FrequencyByLatencyBlockSize: the grouped database rows are an input, and the text key of a cell is taken to tell cells apart.
- Migrations: creation dates, foreign-key changes and column renames are not modelled; each cursor reads an unchanging table.
- Controllers, DTOs, transformers, error filters, notification mails, file parsing and region aggregation, which would only add mappings and sums.
