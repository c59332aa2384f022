# A verified model of the import and lookup core

This project models, in Dafny, the parts of the Mimir geocoder that have to agree with a simple
statement of what they are for, and proves that they do. `dafny verify dfyconfig.toml` checks it.

**Publishing an index** (`naming`, `elasticsearch`, `publication`, `publication_safety`,
`publication_names`, `storage`). An import creates a timestamped index, fills it, refreshes it, finds the previous indices of its
document type and dataset by a name pattern, moves one or three aliases, and deletes the previous
indices. None of this is a transaction. A run is a machine that performs one cluster request a step;
a world is one cluster with the latest run of every pair of document type and dataset, where runs of
distinct pairs interleave freely and a run may be abandoned after any step. Cluster requests are
atomic, deleting an index drops it from every alias, and the cluster may refresh any index at any
time. An invariant of every reachable world gives safety, recovery and the exact circumstances of
downtime. The storage adapter is a class whose methods are proved to be runs of that machine for any
number of requests that get through before the connection breaks, the last of which may take effect
although its answer is lost, and for any documents that the cluster rejects. The non-interference of
pairs rests on lemmas about real character sequences: the regular expression that reads a pair back from a name,
and the wildcard pattern, are both characterised by the pieces of the name between underscores.

**Listing and writing** (`paging`, `listing`, `bulk`). The paged listing over a point in time is an unfold over
an explicit state; it yields the snapshot once, in order. Chunked concurrent writing is any order in
which the documents reach the index and any order in which the chunks complete.

**Regions around a point** (`hierarchy`, `rtree`, `admin_geofinder`, `admin_geofinder_properties`,
`admin_geofinder_nesting`, `admin_geofinder_exact`).
A class with a spatial index and an id map. Geometry is a parameter of which two laws are used: the
interior is part of the boundary, and the boundary lies in its bounding box. Both lookups are proved
equal to declarative definitions, about which the properties are then proved. `Get` ends for every
parent map, with or without cycles.

**Streets** (`osm_store`, `osm_store_agreement`, `document_ids`, `branch_order`, `street`, `street_passes`,
`street_properties`, `street_exact`). The map store and the buffered table are classes; the extraction is a method
over either, and its result is determined up to order by the stored objects.

**Smaller cores** (`cosmogony`, `walk_files`, `dsl`). The regions of a zone file and the regions above
each; the directory walk with an explicit stack; the meaning of the compiled search query.

Where the code does less than its documentation says, the model follows the code:

* `docs/architecture.md:153-155` promises imports without downtime. That holds for public runs
  (`PublicationSafety.NoDowntime`). A complete import leaves its pair served by all three aliases
  exactly when it is public (`Storage.CompleteImportServesExactlyIfPublic`): a private one after a
  public one deletes the index that the public aliases still show
  (`Storage.PrivateImportEndsService`), and no other kind of event does that
  (`PublicationSafety.DowntimeOnlyByPrivateDeletion`).
* The pair that publication works with is read back from the index name. This inverts the formatting
  exactly when both parts are non-empty and free of `_` (`Naming.SplitInvertsFormat`). With the
  timestamps that are made, a run deletes only indices of its own pair exactly when that is so
  (`PublicationNames.TimestampedRunDeletesOnlyOwnExactly`; for any timestamp,
  `PublicationNames.DeletesOnlyOwnExactly`). A dataset `a_b` is read back as `a`, and its publication
  deletes the indices of `a` (`PublicationNames.UnderscoreRunDeletesOtherDataset`). Statements about
  whole runs ask that started pairs be `Clean`: non-empty parts without `_`, and without `*`, which no
  index name may contain.
* `GetAdminsIf` may return a chain that starts above the start of another. With unique ids
  (`UniqueIds`: each id was inserted once, which `GeoFinder.InsertKeepsUniqueIds` relates to
  insertion) and no cycles, this never happens exactly when of two regions around a common point the
  lower one sorts first (`GeoFinderNesting.NeverNestedExactly`), and for one lookup
  `GeoFinderNesting.LookupIsNestedExactly` has the exact condition. Zone types that increase upwards
  suffice when every stored entry is current (`GeoFinderNesting.HeadsAreNotNested`), and do not when
  an id was inserted twice (`GeoFinderNesting.ReinsertedParentIsNested`).
* The two object stores agree when every id is inserted at most once (`OsmStore.DbAgreesWithMap`).
  With repeated ids they agree all along, on lookups and on visits, exactly when no id is inserted
  again once its object has left the buffer (`StoreAgreement.StoresAgreeExactly`, of which
  `StoreAgreement.DistinctIdsNeverReturn` and `StoreAgreement.RoomyBufferNeverReturns` are instances).
  On lookups alone they agree exactly when no flush finds another object under a buffered id
  (`StoreAgreement.LookupsAgreeExactly`). With a buffer of one object, another object inserted under an
  id is lost (`StoreAgreement.ReinsertionDisagrees`), and the same object inserted again is visited
  twice (`StoreAgreement.SameObjectIsVisitedTwice`).
* A street's coordinates can be the origin although its regions are found by a real node
  (`StreetProperties.StreetCanBeElsewhere`; `StreetProperties.StreetIsWhereItsRegionsAre` says exactly
  when they agree).

## Model

| member | source | states |
|---|---|---|
| Naming.SplitFindsFirstTriple | libs/mimir/src/domain/model/configuration.rs:77-90 | for every name, the leftmost greedy match of the regular expression captures the second and third of the first three consecutive non-empty pieces between underscores |
| Naming.SplitInvertsFormat | libs/mimir/src/domain/model/configuration.rs:45-90 | reading a formatted index name back gives the document type and dataset if and only if both are non-empty and free of the separator, whatever the timestamp |
| Naming.SplitCutsDataset | libs/mimir/src/domain/model/configuration.rs:75-90 | a dataset with the separator in it is read back cut at its first separator |
| Naming.TimestampFormat | libs/mimir/src/domain/model/configuration.rs:45-53 | a date, a time and a fraction joined by the separator are three non-empty pieces |
| Naming.TimestampedNameIsReadable | libs/mimir/src/domain/model/configuration.rs:77-90 | with a timestamp at its end a name can always be read, whatever its type and dataset, though perhaps as another pair |
| Naming.GlobIsPrefix | libs/mimir/src/adapters/secondary/elasticsearch/internal.rs:703-715 | matching a literal stem followed by a wildcard is having that stem as a prefix |
| Naming.MatchesIsSegments | libs/mimir/src/adapters/secondary/elasticsearch/internal.rs:703-715 | the pattern of previous indices matches a name if and only if its first three pieces are the root, the type and the dataset and a fourth follows |
| Naming.MatchesOwn | libs/mimir/src/adapters/secondary/elasticsearch/internal.rs:876-885 | every index of a pair is found by the pattern of that pair |
| Naming.MatchesDisjoint | libs/mimir/src/adapters/secondary/elasticsearch/internal.rs:710-712 | no name is matched by the patterns of two distinct pairs, even where one dataset name begins with the other |
| Naming.StemMatches | libs/mimir/src/adapters/secondary/elasticsearch/internal.rs:703-715 | the stem of a pair whose parts are free of the separator is matched by that pair and by no other, clean or not, without wildcards |
| Naming.AliasesDistinct | libs/mimir/src/domain/model/configuration.rs:55-65 | the dataset alias identifies its pair and is never a type alias or the root alias, nor is a type alias the root alias |
| Publication.StepFrame | libs/mimir/src/adapters/secondary/elasticsearch/storage.rs:125-187 | a step of a run leaves indices, contents and alias memberships of a pair alone that matches neither its index nor those it replaces |
| Publication.NonInterference | libs/mimir/src/adapters/secondary/elasticsearch/storage.rs:125-187 | in every invariant state, no event of another pair's run changes the indices, contents, aliases or run of a pair |
| PublicationSafety.SwitchExposesNew | libs/mimir/src/adapters/secondary/elasticsearch/internal.rs:646-701 | after one alias request the alias shows exactly the new index of the pair and no other alias changes |
| PublicationSafety.NextKeepsInv | libs/mimir/src/adapters/secondary/elasticsearch/storage.rs:125-187 | every step of every run, and every refresh by the cluster, keeps the invariant of every pair |
| PublicationSafety.ReachableInv | libs/mimir/src/adapters/secondary/elasticsearch/storage.rs:125-187 | the invariant holds after any interleaving of runs, each stopped anywhere |
| PublicationSafety.AliasesExposeWholeIndices | libs/mimir/src/domain/ports/primary/generate_index.rs:66-151 | in every reachable state any index behind any alias belongs to a pair that can be named, exists and shows searches all of its documents and nothing else, and the alias shows no other index of that pair |
| PublicationSafety.FilledWithDistinctIds | libs/mimir/src/domain/ports/primary/generate_index.rs:66-117 | contents filled from documents with distinct ids are exactly those documents |
| PublicationSafety.FinishedRunLeavesItsIndex | libs/mimir/src/adapters/secondary/elasticsearch/storage.rs:125-187 | whatever runs were abandoned before, a finished run leaves its index as the only one of the pair, the dataset alias equal to it, and the public aliases holding it if and only if the run was public |
| PublicationSafety.OldOrNew | libs/mimir/src/adapters/secondary/elasticsearch/storage.rs:142-172 | every event but a deletion leaves each alias showing of the pair what it showed, or exactly the new index |
| PublicationSafety.DowntimeOnlyByPrivateDeletion | libs/mimir/src/adapters/secondary/elasticsearch/storage.rs:142-176 | an event takes one of the three aliases of a served pair away if and only if it deletes an index that a public alias still shows, and only a private run does that |
| PublicationSafety.NoDowntime | docs/architecture.md:153-155 | after a finished public run, in every later state with public runs of the pair stopped anywhere and other pairs interleaved, each of the three aliases shows exactly one index of the pair; that it is a whole one is `AliasesExposeWholeIndices` |
| PublicationSafety.RunCanFinish | libs/mimir/src/adapters/secondary/elasticsearch/storage.rs:125-187 | from every invariant state a run whose index name is free reaches its end by its own steps |
| PublicationNames.UnderscoreRunDeletesOtherDataset | libs/mimir/src/adapters/secondary/elasticsearch/internal.rs:876-885 | a dataset containing the separator: its run deletes any index of the dataset its name is cut to |
| PublicationNames.DeletesOnlyOwnExactly | libs/mimir/src/adapters/secondary/elasticsearch/internal.rs:876-885 | in every cluster a run deletes only indices that the pattern of its own pair matches, if and only if both parts are non-empty and free of the separator, or the name makes no index because it holds a wildcard or cannot be read |
| PublicationNames.TimestampedRunDeletesOnlyOwnExactly | libs/mimir/src/domain/model/configuration.rs:45-53 | with timestamps as they are made and without wildcards, if and only if both parts are non-empty and free of the separator |
| Storage.ActionsAnswer | libs/mimir/src/adapters/secondary/elasticsearch/internal.rs:646-671 | applying the list of add and remove actions of one request in order amounts to a single update of the alias |
| Storage.ElasticsearchStorage.Send | libs/mimir/src/adapters/secondary/elasticsearch/internal.rs:646-701 | one request takes one from what the connection carries; it succeeds if and only if its answer comes back and is no refusal, and may take effect although its answer is lost |
| Storage.ElasticsearchStorage.SendBulk | libs/mimir/src/adapters/secondary/elasticsearch/internal.rs:586-644 | one bulk request: the accepted documents are written, all of them when the answer comes back and as many as the connection let through when it is lost; it succeeds if and only if the answer comes back and rejects nothing |
| Storage.ElasticsearchStorage.UpdateAlias | libs/mimir/src/adapters/secondary/elasticsearch/internal.rs:646-701 | one atomic request whose effect is the added minus the removed indices, refused when an index is unknown or it only removes what is not there, none when there is nothing to do; it may take effect although its answer is lost |
| Storage.ElasticsearchStorage.GetPreviousIndices | libs/mimir/src/adapters/secondary/elasticsearch/internal.rs:876-885 | the indices found by the pattern of the pair, each once, without the index itself |
| Storage.ElasticsearchStorage.CreateContainer | libs/mimir/src/adapters/secondary/elasticsearch/storage.rs:23-42 | two requests leave a state of the run, with the pair read from the name; success if and only if both answers come back, the name is no index and no alias and holds no wildcard, and it can be read |
| Storage.ElasticsearchStorage.InsertDocuments | libs/mimir/src/adapters/secondary/elasticsearch/storage.rs:61-86 | pipeline request, then one bulk request a chunk, the chunks arriving in any order and some still after one has failed; success if and only if every answer comes back, the index is there and no document is rejected, and then every document is written and nothing else done; a failure leaves the run still inserting |
| Storage.ElasticsearchStorage.InsertChunks | libs/mimir/src/adapters/secondary/elasticsearch/internal.rs:561-584 | the loop over the chunks makes one request a chunk, in any order, and succeeds if and only if all of them do |
| Storage.ElasticsearchStorage.InsertChunk | libs/mimir/src/adapters/secondary/elasticsearch/internal.rs:561-584 | the documents of a chunk that are written are as many steps of the run; it succeeds if and only if its answer comes back, the index exists and no document is rejected |
| Storage.WriteAllStoresLast | libs/mimir/src/adapters/secondary/elasticsearch/internal.rs:586-644 | of several documents with one id in a bulk request the last one is stored |
| Storage.ElasticsearchStorage.SwitchAlias | libs/mimir/src/adapters/secondary/elasticsearch/storage.rs:142-172 | one request, after which the run is in its next phase; it succeeds if and only if its answer comes back and the indices it names exist; a failure leaves a state of the run that is not its end |
| Storage.ElasticsearchStorage.SwitchAliases | libs/mimir/src/adapters/secondary/elasticsearch/storage.rs:142-172 | one switch for a private run and three for a public one take the run to its deletions, if and only if as many answers come back and the indices exist |
| Storage.ElasticsearchStorage.DeletePrevious | libs/mimir/src/adapters/secondary/elasticsearch/storage.rs:174-176 | one request for each previous index; success if and only if all answers come back and the indices exist, and then the run is at its end |
| Storage.ElasticsearchStorage.PublishIndex | libs/mimir/src/adapters/secondary/elasticsearch/storage.rs:125-187 | from a filled index, leaves the cluster in a state of the run whichever request was the last; success if and only if the index exists and the answers come back to refresh, listing, one or three switches, one deletion for each previous index, and the configured merge; a failure at the end of the run is that of the merge |
| Storage.ElasticsearchStorage.GenerateIndex | libs/mimir/src/domain/ports/primary/generate_index.rs:66-151 | an import succeeds if and only if its name is no index and no alias, holds no wildcard and can be read, no document is rejected, and the connection carries all its requests, whose number is stated; success is the end of the run, any failure leaves a state of the run, and one at its end a finished run |
| Storage.RunIsExecution | libs/mimir/src/domain/ports/primary/generate_index.rs:66-82 | a run driven alone is an execution of the world, so that everything proved of reachable worlds holds of it |
| Storage.CompleteImportLeavesItsIndex | libs/mimir/src/domain/ports/primary/generate_index.rs:66-82 | a whole import run to its end from any reachable state leaves its index as the only one of the pair, filled with its documents, behind the aliases its visibility asks for |
| Storage.CompleteImportServesExactlyIfPublic | libs/mimir/src/adapters/secondary/elasticsearch/storage.rs:125-187 | after a complete import from any reachable state, each of the three aliases shows exactly one index of the pair if and only if the import was public |
| Storage.PrivateImportEndsService | libs/mimir/src/adapters/secondary/elasticsearch/storage.rs:157-176 | from any reachable state in which a pair is served, a private import under a free name can run to its end, and then the pair is no longer served |
| Storage.StoppedImportKeepsServing | docs/architecture.md:153-155 | a public import of a served pair, from any reachable state and stopped after any request, leaves each of the three aliases showing exactly one index of the pair: what it showed before the import, or the new index |
| Listing.SearchShrinks | libs/mimir/src/adapters/secondary/elasticsearch/internal.rs:1000-1008 | continuing after the last key of a page leaves fewer documents, for any snapshot |
| Listing.ListingIsComplete | libs/mimir/src/adapters/secondary/elasticsearch/internal.rs:951-1043 | as many documents are yielded as the snapshot has hits, the one at each place being that of the hit at that place; ceil(n/k)+1 searches, the first sending the initial snapshot id and each other the id the one before brought back; the last id is closed |
| Listing.CompleteIffPaged | libs/mimir/src/adapters/secondary/elasticsearch/internal.rs:951-1043 | with working searches the listing is complete if and only if the page size is positive or the snapshot is empty |
| Listing.BrokenListingYieldsPrefix | libs/mimir/src/adapters/secondary/elasticsearch/internal.rs:979-1013 | a listing broken at any search yields at each place the document of the hit at that place, for the pages before it and no more, ends with the error, and closes nothing |
| Paging.CeilDivBounds | libs/mimir/src/adapters/secondary/elasticsearch/internal.rs:951-1043 | the number of pages is the least whose total size holds the snapshot |
| Bulk.BulkBlock | libs/mimir/src/adapters/secondary/elasticsearch/internal.rs:586-644 | a chunk fails if and only if a document of it is rejected, and otherwise counts the created and the updated ones |
| Bulk.Chunks | libs/mimir/src/adapters/secondary/elasticsearch/internal.rs:566-567 | cutting gives ceil(n/k) chunks of at most k documents, all but the last of exactly k, which joined are the stream |
| Bulk.FoldCountsIds | libs/mimir/src/adapters/secondary/elasticsearch/internal.rs:561-584 | for any interleaving of the chunks and any order of completion, the summed counts are the ids that were new and the documents written |
| Bulk.ProcessKeepsLast | libs/mimir/src/adapters/secondary/elasticsearch/internal.rs:561-584 | of the documents with one id the one that reaches the index last stays |
| Bulk.BulkRefinesStream | libs/mimir/src/adapters/secondary/elasticsearch/internal.rs:561-644 | writing into a fresh index creates as many documents as there are ids, counts every document once, and fills the index in the sense that publication needs |
| Bulk.BulkOfDistinctIds | libs/mimir/src/adapters/secondary/elasticsearch/internal.rs:561-644 | with distinct ids the contents are exactly the stream and nothing is counted as updated |
| Hierarchy.AncestorsAreTheWalk | src/admin.rs:174-192 | the list of ancestors is the walk over resolvable parents: complete and nearest first |
| Hierarchy.AncestorsAreDistinct | src/admin.rs:174-192 | no region is twice among its ancestors or among its own |
| Hierarchy.CycleIsInfinite | src/admin_geofinder.rs:171-182 | a region met again on its own way up has a walk without end |
| Hierarchy.IncreasingIsAcyclic | src/admin_geofinder.rs:171-182 | zone types that increase towards the parent leave no room for cycles |
| Hierarchy.ZonesInOrder | docs/concepts.md:43-50 | zone types sort in the documented order, regions without one first |
| Hierarchy.AncestorIdIsStoredAbove | src/admin_geofinder.rs:232-244 | the ids met on the walk over parent ids are those of the regions met on the walk over regions |
| SpatialIndex.LocateIsScan | src/admin_geofinder.rs:55-66 | on any tree whose envelopes cover their children, the pruned search equals a scan of all leaf envelopes |
| SpatialIndex.EnvelopeHoldsItsBorder | src/admin_geofinder.rs:55-66 | an envelope contains its border and the points of the envelopes it covers |
| SpatialIndex.SortByZoneSorts | src/admin_geofinder.rs:164 | the sort permutes, orders by zone type with untyped regions first, and is stable |
| SpatialIndex.SortedAsOrdered | src/admin_geofinder.rs:164 | two entries stand in the sorted list only as their zone types and then their places in the tree order them, repeated entries included |
| GeoFinder.InsertKeepsIndexed | src/admin_geofinder.rs:112-137 | insertion keeps the tree and the id map in agreement: the ids of the tree are the keys of the map |
| GeoFinder.InsertKeepsUniqueIds | src/admin_geofinder.rs:112-137 | ids stay unique in the tree if and only if the inserted id is new |
| GeoFinder.NothingMissed | src/admin_geofinder.rs:203-212 | the candidates are the leaves whose envelope contains the point, and include every region whose boundary meets it |
| GeoFinder.AdminGeoFinder.Insert | src/admin_geofinder.rs:112-137 | a region goes into both indexes exactly when its boundary has a bounding box, and otherwise into neither; ids stay unique exactly when its id is new |
| GeoFinder.MarkedIsAll | src/admin_geofinder.rs:232-244 | stopping at an id already marked loses nothing: the marked ids are all ancestors of all accepted regions, with all their zone types |
| GeoFinder.MarkHierarchy | src/admin_geofinder.rs:228-245 | the loop with the early exit marks exactly the ids on the way up, and ends for every parent map, cyclic ones included |
| GeoFinder.AdminGeoFinder.Get | src/admin_geofinder.rs:203-252 | returns the candidates accepted by their own boundary and those above an earlier accepted one, in order |
| GeoFinder.CollectChain | src/admin_geofinder.rs:171-184 | a chain is the region and all its ancestors, and exactly their ids become visited |
| GeoFinder.AdminGeoFinder.GetAdminsIf | src/admin_geofinder.rs:143-191 | wherever no head of a chain has a cycle above it, returns the chains of the candidates that meet the point and are above no earlier head |
| GeoFinderProperties.ContainingRegionReturnedOrReplaced | src/admin_geofinder.rs:203-252 | a stored region that contains the point is returned, or a region that stands before it in the sort, was accepted by its own boundary test and is returned brings its zone type |
| GeoFinderProperties.ReturnedRegionIsJustified | src/admin_geofinder.rs:203-252 | a returned region contains the point or is an ancestor of a returned one that does |
| GeoFinderProperties.ReturnedTypesDistinct | src/admin_geofinder.rs:216-249 | two regions returned on the strength of their own boundary test have distinct zone types; every other one is returned as an ancestor of a returned region that contains the point, and where entries are current it is the later of two with one type |
| GeoFinderProperties.ResultIsOrdered | src/admin_geofinder.rs:213-214 | the result is ordered by zone type |
| GeoFinderExact.AncestorOfAcceptedIsReturned | src/admin_geofinder.rs:223-224 | a candidate above an earlier accepted region is returned without a test of its own boundary |
| GeoFinderExact.RegionsAboveAreReturned | src/admin_geofinder.rs:216-251 | where zone types increase and entries are current, every stored region above a returned one whose envelope contains the point is returned |
| GeoFinderExact.AcceptedRegionExactly | src/admin_geofinder.rs:221-230 | with unique ids a region is taken on the strength of its own boundary if and only if it contains the point and no region so taken that sorts before it is below it or brings its zone type, by itself or by a region above it |
| GeoFinderExact.RegionReturnedExactly | src/admin_geofinder.rs:203-252 | with unique ids a stored region is returned if and only if it is so taken, or its envelope contains the point and it is above one so taken that sorts before it |
| GeoFinderExact.ResultIsDistinct | src/admin_geofinder.rs:203-252 | with unique ids no region is returned twice |
| GeoFinderProperties.QualifyingRegionInSomeChain | src/admin_geofinder.rs:143-191 | every region that meets the condition and the point is in some returned chain |
| GeoFinderProperties.ChainIsRegionAndAllAbove | src/admin_geofinder.rs:143-191 | each chain is a qualifying region followed by its complete walk up |
| GeoFinderExact.ChainsStartInOrder | src/admin_geofinder.rs:164-185 | the chains start at qualifying regions in the order of their zone types, for equal ones in that of the tree, for any tree |
| GeoFinderExact.ChainsStartDistinct | src/admin_geofinder.rs:165-185 | with unique ids no two chains start at one region |
| GeoFinderExact.RegionStartsChainExactly | src/admin_geofinder.rs:143-191 | with unique ids and no cycles a stored region starts a chain if and only if it qualifies and no qualifying region below it sorts before it |
| GeoFinderExact.AboveIsStoredAbove | src/admin_geofinder.rs:171-182 | the regions of a chain after its first are those that the walk up meets |
| GeoFinderNesting.HeadsAreNotNested | src/admin_geofinder.rs:143-191 | with zone types increasing upwards, and every stored entry being the region its id stands for, no lookup returns a chain that starts above the start of another |
| GeoFinderNesting.LookupIsNestedExactly | src/admin_geofinder.rs:143-191 | with unique ids and no cycles, a lookup returns a chain that starts above the start of another if and only if some qualifying region has qualifying regions below it and sorts before all of them |
| GeoFinderNesting.NeverNestedExactly | src/admin_geofinder.rs:143-191 | with unique ids and no cycles, no lookup for any point and condition returns nested chains if and only if, of two regions around a common point one below the other, the lower always has the smaller zone type, or the same one and stands earlier in the tree |
| GeoFinderNesting.PairNestsExactly | src/admin_geofinder.rs:164-191 | of a region and one above it, stored in that order, both head a chain if and only if the upper one has the smaller kind of zone |
| GeoFinderNesting.ReinsertedParentIsNested | src/admin_geofinder.rs:112-137 | with one id inserted twice, as a suburb and then as a city, zone types increase upwards in the id map and yet the old entry heads a chain beside that of its child |
| OsmStore.InsertOnce | src/osm_reader/osm_store.rs:271-276 | inserting a new id adds exactly that object to what is seen and keeps the buffer within its bound, at least one |
| OsmStore.DbAgreesWithMap | src/osm_reader/osm_store.rs:230-276 | after any insertions with each id at most once, the buffered table holds what the map holds, for every buffer size |
| OsmStore.LookupsAgree | src/osm_reader/osm_store.rs:155-178 | lookups in the two stores answer alike after such insertions, and the buffer is bounded |
| StoreAgreement.InsertAgreesExactly | src/osm_reader/osm_store.rs:230-276 | in any state, inserting any object, new or not, acts on what lookups see as it does on a map if and only if the buffer has room or the table has no other object under a buffered id |
| StoreAgreement.LookupsAgreeExactly | src/osm_reader/osm_store.rs:230-276 | over any insertions, repeated ids included, lookups in the two stores agree all along if and only if no flush loses an object |
| StoreAgreement.VisitsOnceExactly | src/osm_reader/osm_store.rs:203-228 | every visit yields each object that is seen exactly once, if and only if no id is both buffered and in the table |
| StoreAgreement.StoresAgreeExactly | src/osm_reader/osm_store.rs:203-276 | over any insertions, repeated ids included, the two stores agree all along on lookups and on visits, if and only if no id is inserted again once its object has left the buffer |
| StoreAgreement.SameObjectIsVisitedTwice | src/osm_reader/osm_store.rs:203-228 | with a buffer of one object, inserting the same object again after another one keeps lookups in agreement, and has the object visited twice |
| StoreAgreement.DistinctIdsNeverReturn | src/osm_reader/osm_store.rs:230-276 | ids inserted at most once never return, so the stores then agree on lookups and visits |
| StoreAgreement.RoomyBufferNeverReturns | src/osm_reader/osm_store.rs:271-276 | with a buffer as large as the number of insertions, ids may be inserted again without any disagreement |
| StoreAgreement.ReinsertionDisagrees | src/osm_reader/osm_store.rs:243-256 | with a buffer of one object, the second object under an id is lost when a third is inserted, and the map keeps it |
| OsmStore.Db.FlushBuffer | src/osm_reader/osm_store.rs:230-266 | moves the buffer into the table, where existing rows win |
| OsmStore.Db.Insert | src/osm_reader/osm_store.rs:271-276 | flushes first when the buffer is full, then buffers the object |
| OsmStore.Db.GetFromId | src/osm_reader/osm_store.rs:155-178 | the buffered object, else the row |
| OsmStore.Db.ContainsKey | src/osm_reader/osm_store.rs:278-294 | true exactly where a lookup finds something |
| OsmStore.Db.ForEachFilter | src/osm_reader/osm_store.rs:203-228 | visits the buffered objects of the kind and then the rows of the kind, each once in its part |
| OsmStore.ObjWrapper.Get | src/osm_reader/osm_store.rs:359-366 | either store finds exactly what it holds |
| OsmStore.ObjWrapper.ForEachFilter | src/osm_reader/osm_store.rs:346-355 | visits what the store has, and each stored object of the kind exactly once when no id is both buffered and in the table |
| DocumentIds.DigitsReadBack | src/osm_reader/street.rs:177-183 | decimal digits read back as the number |
| DocumentIds.DocIdInjective | src/osm_reader/street.rs:177-183 | document ids of one kind coincide only for the same object, the same form and the same number |
| DocumentIds.DocIdKindsDiffer | src/osm_reader/street.rs:177-183 | a relation's document id is never a way's |
| BranchOrder.SortIsCanonical | src/osm_reader/street.rs:175 | the sorted branches depend only on which branches there are, where ids tell branches apart |
| BranchOrder.LessExactly | libs/places/src/admin.rs:129-145 | branches compare by the ids of the first regions that differ in id, a proper prefix first |
| BranchOrder.StrLessExactly | libs/places/src/admin.rs:129-133 | ids compare by their first different character, a proper prefix first |
| StreetProperties.DocumentsDoNotDependOnOrder | src/osm_reader/street.rs:172-187 | a street gets the same documents, ids included, in whatever order its branches were found |
| StreetProperties.FoundBranchesAreTold | src/osm_reader/street.rs:304-341 | the branches found around a way are told apart by their ids when stored entries are current |
| Streets.MergeBranchesEffect | src/osm_reader/street.rs:250-267 | a way takes over the entry of its name and each of its cities exactly when the entry is missing or has a greater id, with its first branch there |
| Streets.BestMapIsUnique | src/osm_reader/street.rs:239-269 | only one map sends each name and city to the least eligible way |
| Streets.AddWaysFindsBest | src/osm_reader/street.rs:241-269 | after any ways in any order, an entry is the claim of least id among those ways |
| Streets.AllWaysGiveBestMap | src/osm_reader/street.rs:237-269 | visiting each stored way once, in any order, sends each name and city to the least way outside every relation that has them |
| StreetPasses.KeysInOrder | src/osm_reader/street.rs:276 | the entries are taken in increasing order of name and city |
| StreetPasses.Regroup | src/osm_reader/street.rs:274-281 | the groups hold, for each way, the branches of its entries in that order |
| StreetPasses.WayCoord | src/osm_reader/osm_utils.rs:37-57 | the loop over the second half of the nodes finds the first that the store has, or the origin |
| StreetPasses.StreetAdmin | src/osm_reader/street.rs:304-341 | looks the regions up at the first stored node of the second half, then of the first, wherever no head there has a cycle above it |
| StreetPasses.StreetWay | src/osm_reader/street.rs:211-222 | the loop over the members finds the first stored way of role street that gives a name |
| StreetPasses.RelationPass | src/osm_reader/street.rs:199-235 | yields the streets of all stored relations under distinct ids, and marks exactly the ways that are members of one |
| StreetPasses.MergeWay | src/osm_reader/street.rs:250-267 | the loop over the branches of a way is the merge |
| StreetPasses.WayPass | src/osm_reader/street.rs:241-269 | adds each visited way that has a name and is in no relation |
| StreetPasses.EmitWays | src/osm_reader/street.rs:283-299 | yields the streets of every group, under distinct ids |
| StreetPasses.InnerStreets | src/osm_reader/street.rs:197-301 | reading through either store, returns exactly the relation streets and the way streets of the best map, with pairwise distinct document ids, wherever each lookup it makes ends |
| Streets.AcyclicLookupsEnd | src/osm_reader/street.rs:304-341 | without cycles in the hierarchy every lookup of the extraction ends |
| StreetProperties.ExtractionsAgree | src/osm_reader/street.rs:197-301 | extractions from the same objects return the same multiset of streets, whatever the visit orders |
| StreetProperties.StreetsDoNotDependOnStore | src/osm_reader/street.rs:100-302 | after the same insertions, the two stores give the same multiset of streets |
| StreetExact.OneStreetPerNameAndCity | src/osm_reader/street.rs:237-299 | two streets of ways with one name whose branches have the same first region of type city are the same document |
| StreetExact.WayStreetsAreNameCityPairs | src/osm_reader/street.rs:237-299 | there is a street of a way for a name and a city if and only if some stored way in no relation bears the name and has a branch whose first region of type city it is; the street is that of the way of least id, with its first such branch, at its place |
| StreetExact.EveryStreetIsAccountedFor | src/osm_reader/street.rs:197-301 | every street is that of a stored relation, or of a way under its name and the first city of its branch |
| StreetExact.RelationStreetsAreReturned | src/osm_reader/street.rs:199-235 | no street of a stored relation is missing |
| StreetExact.RelationStreetsExactly | src/osm_reader/street.rs:211-230 | the streets of a relation are one document for each branch of its first member that is a stored way of role street with a name or in a named relation, under the name of the relation if it has one, else of the way, at the place of the way; without such a member there are none |
| StreetExact.BuildStreetsExactly | src/osm_reader/street.rs:172-187 | one document for each branch, repeated ones included, in the order of the ids of their regions, all with the given name and place, with a number in the id only where there are several |
| StreetExact.CityOfExactly | src/osm_reader/street.rs:250-256 | a branch is merged under the id of its first region of type city, and under none if it has none |
| StreetExact.UpToCityExactly | src/osm_reader/street.rs:333-338 | regions are looked up from suburbs, city districts and cities |
| StreetExact.WayCoordExactly | src/osm_reader/osm_utils.rs:37-57 | a street is placed at the first stored node from the middle of the way on, or at the origin if none of those is stored |
| StreetExact.LookupPointExactly | src/osm_reader/street.rs:317-329 | its regions are looked up at the first stored node from the middle on, else from the start |
| StreetProperties.WayStreetsComeFromAcceptedWays | src/osm_reader/street.rs:117-144 | every way street comes from a way with a name and a highway tag that is not excluded, nor its public transport tag, although other ways are stored as dependencies |
| StreetProperties.StreetIsWhereItsRegionsAre | src/osm_reader/osm_utils.rs:37-57 | the coordinates of a street are the point its regions were looked up at if and only if a node of the second half is stored, or the first stored node of the first half is the origin |
| StreetProperties.StreetCanBeElsewhere | src/osm_reader/osm_utils.rs:37-57 | a way whose first node alone is stored has its regions looked up there, and the origin as its coordinates |
| Cosmogony.CollectIds | src/admin.rs:214-221 | the first pass records the ids of every zone, the municipal code only for cities |
| Cosmogony.AdministrativeRegions | src/admin.rs:174-192 | the loop over parent ids returns the ancestors, nearest first, up to the first absent parent |
| Cosmogony.IndexCosmogony | src/admin.rs:205-250 | each zone becomes its region, with the regions above it among those of the whole file |
| Cosmogony.FormatIdCollides | src/admin.rs:127-134 | exactly when two formatted ids are equal |
| Cosmogony.ParentIdIsIdOfParent | src/admin.rs:135-148 | a formatted parent id is the id the parent zone itself receives |
| Cosmogony.RegionOfZone | src/admin.rs:112-158 | a region has the type of its zone, the id made of the municipal code for French cities that keep it and of the OpenStreetMap id otherwise, and as parent id that of the parent zone if the file has it |
| Cosmogony.RegionsFollowZones | src/admin.rs:205-250 | the regions above a region are those of the zones above its zone in the file, nearest first, up to the first missing parent |
| Cosmogony.AcyclicFileGivesAcyclicRegions | src/admin.rs:224-237 | zones with finite chains and distinct formatted ids give regions without cycles |
| WalkFiles.PopShrinks | src/utils/fs.rs:16-27 | replacing a directory on the stack by its entries makes the stack smaller |
| WalkFiles.PopConserves | src/utils/fs.rs:16-27 | at each step the files yielded and those below the stack are conserved |
| WalkFiles.WalkFilesRecursive | src/utils/fs.rs:10-32 | yields every file below the path exactly once and no directory; it succeeds if and only if every entry can be read, and yields no more than the files below otherwise |
| WalkFiles.FilesBelowExactly | src/utils/fs.rs:10-32 | the paths below an entry are exactly those whose names lead down through directories to a file |
| WalkFiles.FilesAreDistinct | src/utils/fs.rs:10-32 | where directories list distinct names, no path is yielded twice |
| Dsl.SeveralWords | libs/mimir/src/adapters/primary/common/dsl.rs:203 | splitting counts more than one word exactly when white space separates two words |
| Dsl.JoinedTextsAreSeveralWords | libs/mimir/src/adapters/primary/common/dsl.rs:203 | two texts that are not blank with a space, tab or line break between them are several words |
| Dsl.LettersAreOneWord | libs/mimir/src/adapters/primary/common/dsl.rs:203 | letters, digits, hyphens and apostrophes alone are at most one word |
| Dsl.HouseNumberConditionMeans | libs/mimir/src/adapters/primary/common/dsl.rs:202-242 | accepts a place if and only if, having a house number, it matches a query of several words |
| Dsl.ShapeClauseMeans | libs/mimir/src/adapters/primary/common/dsl.rs:406-439 | accepts a place if and only if a type in scope implies that it meets the shape |
| Dsl.TypedClauseMeans | libs/mimir/src/adapters/primary/common/dsl.rs:454-534 | accepts a place if and only if being of the type implies a listed point-of-interest or zone type |
| Dsl.BuildFilters | libs/mimir/src/adapters/primary/common/dsl.rs:152-169 | the pushed clauses accept together exactly what the requested shape, point-of-interest and zone restrictions allow |
| Dsl.TextClausesMean | libs/mimir/src/adapters/primary/common/dsl.rs:60-111 | some text clause accepts a place exactly when the text is found in one of the searched fields |
| Dsl.PlaceTypeClauseMeans | libs/mimir/src/adapters/primary/common/dsl.rs:304-318 | accepts exactly the five kinds of places |
| Dsl.WholeQueryMeans | libs/mimir/src/adapters/primary/common/dsl.rs:33-55 | the accepted set is that of the must and filter clauses and never depends on the boosts |
| Dsl.BuildQuery | libs/mimir/src/adapters/primary/common/dsl.rs:16-58 | the compiled query accepts a place if and only if type, text, scope, label match and house-number rule all hold |

## Left out

- Storage.ElasticsearchStorage.InsertDocuments: chunk size 0, at which the source panics; chunks still under way when another one fails are written before the failure is reported.
- Storage.ElasticsearchStorage.GetPreviousIndices: the wildcard is matched against index names only; the aliases it may also match belong to indices of longer dataset names, which `Clean` excludes.
- PublicationSafety.ReachableInv: two runs of one pair at the same time are not interleaved, since each would take the other's index for a previous one; and updates of documents between insertion and publication.
- Bulk.BulkRefinesStream: chunk size 0, at which the stream combinator panics, and the limit on requests in flight, which only narrows the orders allowed here; update operations and pipelines.
- GeoFinder.AdminGeoFinder.GetAdminsIf: requires that no head of a chain has a cycle above it, because there the loop of the source does not end.
- Cosmogony.IndexCosmogony: requires an acyclic hierarchy, because on a cycle the loop of the source does not end; labels, weights, codes, boundaries and unreadable zones are left out.
- StreetPasses.InnerStreets: the reader that loads the objects is its contract `LoadedClosure`, and each lookup is taken to end, as on a cycle the loop of the source does not; labels, zip codes and country codes are left out.
- BranchOrder.SortIsCanonical: the unstable sort is modelled by one fixed sort, which decides the order of branches whose ids are all equal.
- OsmStore.Db.FlushBuffer: failures of the database and of serialisation, which the source logs and skips, and the on-disk format.
- WalkFiles.WalkFilesRecursive: links that make a directory contain itself; the tree is finite.
- Dsl.BuildQuery: scores and boost values, the list of excluded source fields, reverse and feature queries.
- SpatialIndex.LocateIsScan: how the tree is rearranged on insertion is left open (`Inserted` allows any well-covered tree), and coordinates are exact numbers.
- HTTP, JSON, timeouts, mappings and shards of the cluster, the web service, metrics, settings and the command-line programs: no state of their own worth a theorem.
- The sort order of stop lines: it relies on a comparison outside the repository.
