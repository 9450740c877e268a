# Timeline filter compiler and cluster merge, in Dafny

This project models two pure, in-memory cores of the Sleuth Kit timeline manager
(`TimelineManager`):

- **The filter compiler.** The `getSQLWhere` family lowers a timeline filter tree to the
  text of an SQL `WHERE` condition. The tree's variants are description, tags, hash hits,
  data source, data sources, hide-known, text, event type, intersection and union.
  Inactive leaves compile to the dialect's true literal. Combinators join the conditions
  of their active children. A type filter collects the sub-type ids of its active
  leaves (`getActiveSubTypes`). Every dispatched result then goes through a
  whitespace-insensitive collapse, which turns `(1and1and1)` and `()` into the true
  literal. An unknown filter class is an error.
- **The cluster-to-stripe merge.** `mergeClustersToStripes` groups event clusters by
  (event type, description). Within each key it sorts them by start and walks them with
  a running current cluster. The next cluster is merged in when the two spans overlap or
  abut, or when the gap between them is at most a quarter of the zoom period. The emitted
  clusters are folded into one stripe per key, and the stripes are returned sorted by
  start.

Beside them sit the small lookups the queries use: the true and false literals, the
description and type columns, the `strftime` bucket formats, the group-concat call
(`csvAggFunction`) and the splitting of a group-concat payload (`unGroupConcat`). Also
modelled is the widening of an empty time range before a query.

Modules:

- `Wrappers`: Option and Result.
- `JavaStrings`: the parts of `java.lang` and commons-lang the code relies on.
  These are `Character.isWhitespace`, `isBlank`, `strip`, `deleteWhitespace`,
  `String.join`, `split(",")` and `Long.toString`/`Long.valueOf`.
- `Timeline`: the shared enumerations, including the database type.
- `Sorting`: a stable sort by key, the model of `stream().sorted(Comparator.comparing(...))`.
- `QueryText`: literals, lookups, `csvAggFunction` and `unGroupConcat`.
- `QueryRanges`: truncation to seconds and range widening.
- `FilterCompiler`: the filter tree and `getSQLWhere`.
- `StripeMerge`: `mergeClustersToStripes`.

The database type (SQLite or PostgreSQL) is a parameter of every member that depends on
it. Filters are values. The merge is imperative, like the source: a method fills a map
from key to clusters, runs a loop with a mutable current cluster, and folds the result
into a map of stripes. Each of these methods is proved against a specification function
(`WithKey`, `Walk`, `FoldStripes`, `KeyStripe`). The lemmas about those functions carry
the properties.

## Model

| member | source | states |
|---|---|---|
| `QueryRanges.MillisToSeconds` | bindings/java/src/org/sleuthkit/datamodel/TimelineManager.java:301-302 | Milliseconds to seconds as Java's `long` division computes them: truncated toward zero, so the remainder has the sign of the input and is less than a second |
| `QueryRanges.MillisToSecondsMonotonic` | bindings/java/src/org/sleuthkit/datamodel/TimelineManager.java:301-302 | Converting milliseconds to seconds by Java's truncating division preserves order |
| `QueryRanges.WidenEqualEnd` | bindings/java/src/org/sleuthkit/datamodel/TimelineManager.java:304-306 | Equal bounds are widened by one second; other bounds are kept; a range with start <= end comes out non-empty |
| `QueryRanges.QueryBounds` | bindings/java/src/org/sleuthkit/datamodel/TimelineManager.java:301-306 | The seconds range that getEventIDs and getCombinedEvents query is never empty when the interval is well formed, and it starts at the truncated start |
| `QueryRanges.ZeroWidthQueriesOneSecond` | bindings/java/src/org/sleuthkit/datamodel/TimelineManager.java:301-306 | A zero-width interval at second t queries [t, t+1), the same range as the interval [t, t+1 s) |
| `QueryRanges.WidenStripeEnd` | bindings/java/src/org/sleuthkit/datamodel/TimelineManager.java:1130-1133 | `max(end, start + 1)` is strictly after start and not before end, and it leaves a non-empty range unchanged |
| `QueryRanges.WideningsAgree` | bindings/java/src/org/sleuthkit/datamodel/TimelineManager.java:1133 | On ranges with start <= end, the stripe widening and the equal-bounds widening coincide |
| `QueryText.FalseLiteral` | bindings/java/src/org/sleuthkit/datamodel/TimelineManager.java:1544-1546 | `getFalseLiteral`: `FALSE` on PostgreSQL, `0` otherwise |
| `QueryText.TrueLiteral` | bindings/java/src/org/sleuthkit/datamodel/TimelineManager.java:1548-1550 | `getTrueLiteral`: `TRUE` on PostgreSQL, `1` otherwise |
| `QueryText.LiteralsWellFormed` | bindings/java/src/org/sleuthkit/datamodel/TimelineManager.java:1544-1550 | The true and false literals of each dialect differ, are non-empty, and contain no whitespace or parenthesis |
| `QueryText.DescriptionColumn` | bindings/java/src/org/sleuthkit/datamodel/TimelineManager.java:1532-1542 | `getDescriptionColumn`: the full, medium or short description column of a level of detail |
| `QueryText.DescriptionColumnInjective` | bindings/java/src/org/sleuthkit/datamodel/TimelineManager.java:1532-1542 | Each description level of detail maps to its own column |
| `QueryText.TypeColumn` | bindings/java/src/org/sleuthkit/datamodel/TimelineManager.java:1272-1274 | `typeColumnHelper`: `sub_type` when grouping by sub-types, `base_type` otherwise |
| `QueryText.TypeColumnInjective` | bindings/java/src/org/sleuthkit/datamodel/TimelineManager.java:1272-1274 | The sub-type and base-type choices give different columns |
| `QueryText.StrfTimeFormat` | bindings/java/src/org/sleuthkit/datamodel/TimelineManager.java:1514-1530 | `getStrfTimeFormat`: the `strftime` pattern that buckets a time by year, month, day, hour, minute or second |
| `QueryText.StrfTimeFormatTruncates` | bindings/java/src/org/sleuthkit/datamodel/TimelineManager.java:1514-1530 | Each bucket format keeps exactly the fields down to its unit and floors every finer field; seconds and unknown units keep all six fields |
| `QueryText.CsvAggFunctionWith` | bindings/java/src/org/sleuthkit/datamodel/TimelineManager.java:95-97 | `csvAggFunction(args, separator)`: the dialect's group-concat call (`group_concat` or `string_agg`) over `args` with the quoted separator |
| `QueryText.CsvAggFunction` | bindings/java/src/org/sleuthkit/datamodel/TimelineManager.java:91-93 | `csvAggFunction(args)`: the same call with a comma separator |
| `QueryText.CsvAggFunctionInjective` | bindings/java/src/org/sleuthkit/datamodel/TimelineManager.java:91-97 | The group-concat call text determines the dialect's function, the aggregated expression and a quote-free separator |
| `QueryText.UnGroupConcat` | bindings/java/src/org/sleuthkit/datamodel/TimelineManager.java:1302-1309 | Yields one mapped element per piece of `split(",")`, in order |
| `JavaStrings.SplitOnComma` | bindings/java/src/org/sleuthkit/datamodel/TimelineManager.java:1304 | No piece of a split contains a comma |
| `JavaStrings.SplitOnCommaOfJoin` | bindings/java/src/org/sleuthkit/datamodel/TimelineManager.java:1304 | `split(",")` undoes a comma join of comma-free pieces whose last piece is non-empty |
| `QueryText.ParseEach` | bindings/java/src/org/sleuthkit/datamodel/TimelineManager.java:1192 | `Long::valueOf` over the pieces succeeds exactly when every piece is a decimal long, and then yields each piece's value in order |
| `QueryText.IdsFromPayloadAsWritten` | bindings/java/src/org/sleuthkit/datamodel/TimelineManager.java:1192-1197 | `unGroupConcat(payload, Long::valueOf)` as written: a null payload throws, otherwise every piece of `split(",")` is parsed, failing on the first piece that is not a decimal long |
| `QueryText.NoIdsPayloadFails` | bindings/java/src/org/sleuthkit/datamodel/TimelineManager.java:1196-1197 | As written, the payload of a group without ids (SQL NULL), and the empty payload, make the parse fail |
| `QueryText.IdsFromPayload` | bindings/java/src/org/sleuthkit/datamodel/TimelineManager.java:1192-1197 | The corrected reading: a null or blank payload holds no ids, any other is parsed as written |
| `QueryText.IdsFromPayloadRoundTrip` | bindings/java/src/org/sleuthkit/datamodel/TimelineManager.java:1302-1309 | With a NULL or blank payload read as no ids, parsing a group-concat payload gives back exactly the group's ids, in order, for every list of ids |
| `JavaStrings.DeleteWhitespace` | bindings/java/src/org/sleuthkit/datamodel/TimelineManager.java:1390-1391 | `deleteWhitespace` leaves no whitespace and is empty exactly for blank input |
| `JavaStrings.Strip` | bindings/java/src/org/sleuthkit/datamodel/TimelineManager.java:1461 | `strip` is empty exactly for blank text; otherwise it neither starts nor ends with whitespace |
| `FilterCompiler.ActiveOnly` | bindings/java/src/org/sleuthkit/datamodel/TimelineManager.java:1321-1322 | Keeps exactly the active children, in order |
| `FilterCompiler.ActiveOnlyIsFilter` | bindings/java/src/org/sleuthkit/datamodel/TimelineManager.java:1321-1322 | A single child is kept exactly when it is active, and filtering distributes over concatenation, so the active children keep their order and their repeats |
| `FilterCompiler.SelectedIds` | bindings/java/src/org/sleuthkit/datamodel/TimelineManager.java:1414-1416 | The ids kept are exactly those of the sub-filters that are selected and not disabled |
| `FilterCompiler.SqlWhere` | bindings/java/src/org/sleuthkit/datamodel/TimelineManager.java:1361-1393 | `getSQLWhere(Filter)` on a non-null filter: the dispatched condition, then the collapse; an error propagates |
| `FilterCompiler.Dispatch` | bindings/java/src/org/sleuthkit/datamodel/TimelineManager.java:1365-1389 | The `instanceof` chain: each variant goes to its own overload; an unknown class is an error naming it |
| `FilterCompiler.ActiveSqlWheres` | bindings/java/src/org/sleuthkit/datamodel/TimelineManager.java:1321-1323 | `filter(Filter::isActive).map(this::getSQLWhere)`: the conditions of the active children in order, stopping at the first error |
| `FilterCompiler.Combine` | bindings/java/src/org/sleuthkit/datamodel/TimelineManager.java:1320-1343 | The combinators' shape: the parts joined by the separator, the true literal when the join is blank, in parentheses |
| `FilterCompiler.Collapse` | bindings/java/src/org/sleuthkit/datamodel/TimelineManager.java:1390-1392 | The two whitespace-insensitive replacements of `(1and1and1)` and `()` by the true literal |
| `FilterCompiler.RootSqlWhere` | bindings/java/src/org/sleuthkit/datamodel/TimelineManager.java:1345-1364 | A null filter compiles to the true literal |
| `FilterCompiler.ErrorIffUnrecognised` | bindings/java/src/org/sleuthkit/datamodel/TimelineManager.java:1361-1387 | Compilation fails exactly when it reaches a filter of an unrecognised class through active children; every other path is total |
| `FilterCompiler.CollapseIdempotent` | bindings/java/src/org/sleuthkit/datamodel/TimelineManager.java:1390-1391 | The collapse yields its input or the true literal, and collapsing twice equals collapsing once |
| `FilterCompiler.ActiveSqlWheresAreMap` | bindings/java/src/org/sleuthkit/datamodel/TimelineManager.java:1321-1324 | The combinators' list of children's conditions exists exactly when every active child compiles; it then holds each active child's condition, in order |
| `FilterCompiler.CombinatorsJoinActiveChildren` | bindings/java/src/org/sleuthkit/datamodel/TimelineManager.java:1320-1343 | An intersection compiles to `(` + its active children's conditions joined by ` and ` + `)`; a union does the same with ` or `; both then go through the collapse |
| `FilterCompiler.NoActiveChildIsTrue` | bindings/java/src/org/sleuthkit/datamodel/TimelineManager.java:1320-1343 | An intersection or union without an active child compiles to `(` + true literal + `)`, which is not the false literal, whatever its own flags |
| `FilterCompiler.InactiveChildAbsorbed` | bindings/java/src/org/sleuthkit/datamodel/TimelineManager.java:1320-1343 | Removing an inactive child from an intersection or union, wherever it stands, changes nothing |
| `FilterCompiler.ThreeTrueConjunctsCollapse` | bindings/java/src/org/sleuthkit/datamodel/TimelineManager.java:1390 | On SQLite, an intersection whose three active children compile to `1` collapses to `1` |
| `FilterCompiler.HideKnownSqlWhere` | bindings/java/src/org/sleuthkit/datamodel/TimelineManager.java:1395-1401 | Hide-known filter: `known_state IS NOT` the known value when active, the true literal otherwise |
| `FilterCompiler.DescriptionSqlWhere` | bindings/java/src/org/sleuthkit/datamodel/TimelineManager.java:1403-1410 | Description filter: `LIKE` or `NOT LIKE` on the level's column when active, the true literal otherwise |
| `FilterCompiler.TagsSqlWhere` | bindings/java/src/org/sleuthkit/datamodel/TimelineManager.java:1412-1425 | Tags filter: the tag join with `tag_name_id IN` the selected tag ids when active with tag names, the true literal otherwise |
| `FilterCompiler.HashHitsSqlWhere` | bindings/java/src/org/sleuthkit/datamodel/TimelineManager.java:1427-1438 | Hash-hits filter: `hash_set_id IN` the selected hash set ids and the hit join when active with hash sets, the true literal otherwise |
| `FilterCompiler.DataSourceSqlWhere` | bindings/java/src/org/sleuthkit/datamodel/TimelineManager.java:1440-1446 | Data-source filter: `datasource_id =` its id when active, the true literal otherwise |
| `FilterCompiler.DataSourcesSqlWhere` | bindings/java/src/org/sleuthkit/datamodel/TimelineManager.java:1448-1454 | Data-sources filter: `datasource_id in` the active sub-filters' ids when active, the true literal otherwise |
| `FilterCompiler.TextSqlWhere` | bindings/java/src/org/sleuthkit/datamodel/TimelineManager.java:1456-1468 | Text filter: `like` on the three description columns with the stripped text when active and not blank, the true literal otherwise |
| `FilterCompiler.InactiveLeafIsTrue` | bindings/java/src/org/sleuthkit/datamodel/TimelineManager.java:1395-1468 | An inactive hide-known, description, tags, hash-hits, data-source, data-sources or text filter compiles to the true literal |
| `FilterCompiler.VacuousLeavesAreTrue` | bindings/java/src/org/sleuthkit/datamodel/TimelineManager.java:1412-1468 | Blank text, and a tags or hash-hits filter without sub-filters, compile to the true literal even when active |
| `FilterCompiler.ActiveTagsCondition` | bindings/java/src/org/sleuthkit/datamodel/TimelineManager.java:1412-1425 | An active tags filter with sub-filters correlates `events.event_id` with `tags.event_id` and restricts `tag_name_id` to the selected, enabled tag names |
| `FilterCompiler.ActiveHashHitsCondition` | bindings/java/src/org/sleuthkit/datamodel/TimelineManager.java:1427-1438 | An active hash-hits filter with sub-filters restricts `hash_set_id` to the selected, enabled hash sets and correlates the hit row's event with the event |
| `FilterCompiler.DeselectedSubFilterIgnored` | bindings/java/src/org/sleuthkit/datamodel/TimelineManager.java:1412-1454 | A deselected or disabled tag name, hash set or data source leaves the condition unchanged, provided another sub-filter remains |
| `FilterCompiler.AllDeselectedTagsMatchNothing` | bindings/java/src/org/sleuthkit/datamodel/TimelineManager.java:1412-1421 | An active tags filter whose sub-filters are all deselected asks for a tag name in the empty list `()` |
| `FilterCompiler.ActiveTextCondition` | bindings/java/src/org/sleuthkit/datamodel/TimelineManager.java:1456-1468 | An active filter with non-blank text searches the medium, full and short descriptions for the stripped text |
| `FilterCompiler.TextConditionUsesStrippedText` | bindings/java/src/org/sleuthkit/datamodel/TimelineManager.java:1458-1461 | Texts that differ only in surrounding whitespace compile alike |
| `FilterCompiler.ActiveSimpleLeafConditions` | bindings/java/src/org/sleuthkit/datamodel/TimelineManager.java:1395-1446 | An active hide-known filter excludes known state 1; an active data-source filter restricts to its own id |
| `FilterCompiler.ActiveDataSourcesCondition` | bindings/java/src/org/sleuthkit/datamodel/TimelineManager.java:1448-1454 | An active data-sources filter restricts to the ids of its active sub-filters |
| `FilterCompiler.ActiveDescriptionCondition` | bindings/java/src/org/sleuthkit/datamodel/TimelineManager.java:1403-1410 | An active description filter matches its own level's column, with LIKE when including and NOT LIKE when excluding |
| `FilterCompiler.TypeSqlWhere` | bindings/java/src/org/sleuthkit/datamodel/TimelineManager.java:1478-1488 | `getSQLWhere(TypeFilter)`: false when unselected, true for a selected root whose two levels are active, otherwise `sub_type IN` the active sub-types |
| `FilterCompiler.ActiveSubTypes` | bindings/java/src/org/sleuthkit/datamodel/TimelineManager.java:1490-1500 | `getActiveSubTypes`: nothing for an inactive filter, its type's index for an active leaf, the concatenation of its children's lists otherwise |
| `FilterCompiler.TypeFilterCondition` | bindings/java/src/org/sleuthkit/datamodel/TimelineManager.java:1478-1488 | A type filter compiles to the false literal exactly when unselected. It compiles to the true literal exactly for a selected root whose children and grandchildren are active. Otherwise it compiles to `sub_type IN` the collected ids |
| `FilterCompiler.ActiveSubTypesAreActiveLeaves` | bindings/java/src/org/sleuthkit/datamodel/TimelineManager.java:1490-1500 | getActiveSubTypes collects exactly the leaf indices reachable through active nodes |
| `FilterCompiler.ActiveSubTypesOfAllConcat` | bindings/java/src/org/sleuthkit/datamodel/TimelineManager.java:1495 | The flatMap over children is an in-order concatenation |
| `FilterCompiler.InactiveSubtreeContributesNothing` | bindings/java/src/org/sleuthkit/datamodel/TimelineManager.java:1490-1500 | An inactive child, wherever it stands, contributes no ids |
| `FilterCompiler.RootCollapseIsSound` | bindings/java/src/org/sleuthkit/datamodel/TimelineManager.java:1480-1486 | On a hierarchy of root, base types and sub-types, for a selected and enabled root whose two levels are active, the id list would hold every leaf, so the collapse to true drops no restriction |
| `FilterCompiler.DisabledRootStillCollapses` | bindings/java/src/org/sleuthkit/datamodel/TimelineManager.java:1479-1500 | The collapse tests selection only: a selected but disabled root with an active leaf compiles to the true literal, while `getActiveSubTypes` lists nothing for it |
| `FilterCompiler.CompiledRootCollapseIsSound` | bindings/java/src/org/sleuthkit/datamodel/TimelineManager.java:1320-1323 | A combinator compiles a type filter only when it is active, so every root collapse reached through an intersection or a union is sound |
| `StripeMerge.Hull` | bindings/java/src/org/sleuthkit/datamodel/TimelineManager.java:1244 | The merged span covers both spans, and each of its bounds is a bound of one of them |
| `StripeMerge.MergeClusters` | bindings/java/src/org/sleuthkit/datamodel/TimelineManager.java:1244 | `EventCluster.merge`: the union of the two clusters' ids, hash hits and tags over the hull of their spans |
| `StripeMerge.Gap` | bindings/java/src/org/sleuthkit/datamodel/TimelineManager.java:1238 | Joda's `Interval.gap`: the interval between two disjoint spans, none when they overlap or abut |
| `StripeMerge.CloseEnough` | bindings/java/src/org/sleuthkit/datamodel/TimelineManager.java:1238-1242 | The merge test: no gap, or a gap of at most the quarter period |
| `StripeMerge.GapCharacterised` | bindings/java/src/org/sleuthkit/datamodel/TimelineManager.java:1238 | There is no gap exactly when the spans overlap or abut; a gap is never empty and is symmetric |
| `StripeMerge.MergeStripes` | bindings/java/src/org/sleuthkit/datamodel/TimelineManager.java:1259-1260 | `EventStripe.merge`: the union of ids, hash hits, tags and clusters over the hull of the spans |
| `StripeMerge.MergeStripesCommutativeAssociative` | bindings/java/src/org/sleuthkit/datamodel/TimelineManager.java:1257-1260 | Within one key, stripe merge is commutative and associative |
| `Sorting.SortBy` | bindings/java/src/org/sleuthkit/datamodel/TimelineManager.java:1233-1235 | The result is sorted by key and has the input's length |
| `Sorting.SortByPermutes` | bindings/java/src/org/sleuthkit/datamodel/TimelineManager.java:1233-1235 | Sorting is a permutation |
| `Sorting.SortByKeepsDistinct` | bindings/java/src/org/sleuthkit/datamodel/TimelineManager.java:1263 | Sorting the stripes keeps their keys distinct |
| `StripeMerge.GroupByKey` | bindings/java/src/org/sleuthkit/datamodel/TimelineManager.java:1221-1226 | The map has exactly the input's keys, each mapped to that key's clusters in input order |
| `StripeMerge.MergeAdjacent` | bindings/java/src/org/sleuthkit/datamodel/TimelineManager.java:1233-1251 | The loop with a mutable current cluster emits exactly the walk of the sorted clusters |
| `StripeMerge.MergeWithinKeys` | bindings/java/src/org/sleuthkit/datamodel/TimelineManager.java:1228-1253 | The aggregated list holds, for every key, exactly that key's walk, whatever order the keys are visited in |
| `StripeMerge.FoldIntoStripes` | bindings/java/src/org/sleuthkit/datamodel/TimelineManager.java:1255-1261 | The stripe map has exactly the keys of the clusters, each mapped to the fold of that key's clusters in order |
| `StripeMerge.StripeList` | bindings/java/src/org/sleuthkit/datamodel/TimelineManager.java:1263 | Lists every stripe of the map exactly once |
| `StripeMerge.MergeClustersToStripes` | bindings/java/src/org/sleuthkit/datamodel/TimelineManager.java:1215-1264 | The output is sorted by start and has exactly one stripe per key present in the input; each stripe is its key's clusters sorted, walked and folded |
| `StripeMerge.KeyStripeContents` | bindings/java/src/org/sleuthkit/datamodel/TimelineManager.java:1215-1264 | A key's stripe has exactly the event, hash-hit and tagged ids of that key's input clusters, spans their hull, and is made of the walk's clusters |
| `StripeMerge.EveryClusterInItsStripe` | bindings/java/src/org/sleuthkit/datamodel/TimelineManager.java:1215-1264 | Every input cluster's ids are in the stripe of its key, and its span lies within that stripe's span |
| `StripeMerge.WalkFrom` | bindings/java/src/org/sleuthkit/datamodel/TimelineManager.java:1236-1249 | The walk from a current cluster: merge the next cluster when close enough, otherwise emit the current one and continue from the next |
| `StripeMerge.Walk` | bindings/java/src/org/sleuthkit/datamodel/TimelineManager.java:1233-1251 | The walk over one key's sorted clusters, starting from the first; it emits at least one and at most as many clusters as it reads |
| `StripeMerge.WalkKeepsIds` | bindings/java/src/org/sleuthkit/datamodel/TimelineManager.java:1233-1251 | The walk neither loses nor invents ids |
| `StripeMerge.WalkKeepsSpanHull` | bindings/java/src/org/sleuthkit/datamodel/TimelineManager.java:1233-1251 | The walk's emitted clusters span exactly what its input spans |
| `StripeMerge.WalkSeparates` | bindings/java/src/org/sleuthkit/datamodel/TimelineManager.java:1236-1247 | Over start-sorted valid clusters, consecutive emitted clusters are more than the quarter period apart |
| `StripeMerge.KeyStripeClustersSeparated` | bindings/java/src/org/sleuthkit/datamodel/TimelineManager.java:1233-1251 | Within a key, the walk leaves no two neighbours that the tolerance would merge |
| `StripeMerge.WalkIdempotent` | bindings/java/src/org/sleuthkit/datamodel/TimelineManager.java:1233-1251 | Walking the walk's output again merges nothing more |
| `StripeMerge.WalkRuns` | bindings/java/src/org/sleuthkit/datamodel/TimelineManager.java:1234-1251 | The walk splits its input into consecutive non-empty runs, one per emitted cluster: each emitted cluster is its run merged in order, each cluster after a run's first was close enough to the merge of the clusters before it, and each run ends because the next cluster was not |
| `StripeMerge.MergeRunSpan` | bindings/java/src/org/sleuthkit/datamodel/TimelineManager.java:1244 | Merging a run cluster by cluster spans exactly the hull of the run's spans |
| `StripeMerge.CloseEnoughInOrder` | bindings/java/src/org/sleuthkit/datamodel/TimelineManager.java:1238-1242 | For a span that does not start earlier, being close enough means starting no more than the quarter period after the earlier span ends |
| `StripeMerge.WalkMergesOnlyClose` | bindings/java/src/org/sleuthkit/datamodel/TimelineManager.java:1231-1251 | Over start-sorted valid clusters, each cluster after a run's first starts at most the quarter period after the latest end among the run's earlier clusters, and each new run starts more than the quarter period after the previous run's latest end |
| `StripeMerge.WalkOfTwo` | bindings/java/src/org/sleuthkit/datamodel/TimelineManager.java:1236-1247 | Two sorted clusters are merged exactly when they overlap, abut, or have a gap of at most the quarter period |
| `StripeMerge.TwoClustersOneStripe` | bindings/java/src/org/sleuthkit/datamodel/TimelineManager.java:1236-1247 | For the clusters [100 s, 102 s] and [500 s, 501 s], which the cluster query builds from events at 100 s and 102 s and at 500 s and 501 s, the walk merges them exactly when the quarter period is at least 398 s; either way, the key yields one stripe with all ids, spanning [100 s, 501 s] |

## Left out

- Database access, schema creation and migration, locking, event insertion, tagging and
  row mapping (`eventClusterHelper`, `constructTimeLineEvent`) are store I/O and are not
  modelled. The query builders' time-range code is modelled only as far as the range
  widening goes.
- `useHashHitTablesHelper` and `useTagTablesHelper` choose the joins for the tags and
  hash-hits conditions. They are not part of this model; the conditions themselves are.
- Filter classes are not part of this model. `isActive()` is taken as "selected and not
  disabled" for every filter. A type filter's event type is reduced to its index in
  `RootEventType.allTypes` and to whether it is the root type.
- `StripeMerge.MergeClusters` and `StripeMerge.MergeStripes`: the real `EventCluster`
  and `EventStripe` classes are not part of this model. Their merges are taken as the
  union of the id sets (and, for stripes, of the clusters) with the hull of the spans.
- `StripeMerge.CloseEnough`: the tolerance is a fixed quarter of a period given in
  milliseconds (`period / 4`). Calendar-dependent period lengths (`Period.toDurationFrom`
  with time zones) are not modelled.
- `StripeMerge.GroupByKey`: the source's `SetMultimap` drops duplicate clusters, as
  decided by `EventCluster.equals`. The model keeps them. A duplicate overlaps its twin,
  so it changes neither the ids nor the spans of a stripe.
- `StripeMerge.MergeWithinKeys`, `StripeMerge.StripeList`: hash-map iteration order is
  arbitrary in the model. Among stripes with equal starts, the output order is therefore
  unspecified.
- `FilterCompiler.RootCollapseIsSound`: holds for an enabled root only. Like the source,
  `TypeSqlWhere` tests `isSelected()` alone before collapsing to the true literal, so a
  selected but disabled root type filter drops every type restriction while
  `getActiveSubTypes` lists nothing for it (`FilterCompiler.DisabledRootStillCollapses`).
  Intersections and unions skip inactive children, so the case arises only for a type
  filter compiled on its own, never for one inside a root filter
  (`FilterCompiler.CompiledRootCollapseIsSound`).
- `JavaStrings.ParseLong`: 64-bit overflow is not modelled; ids are unbounded integers.
  Only the ASCII digits 0-9 count as decimal digits, whereas Java's Long.valueOf also
  accepts the other Unicode decimal digits; the group-concatenated payloads hold
  database ids written in ASCII, so the difference does not arise.
- `QueryText.UnGroupConcat`: covers a non-null payload and a mapper that does not throw;
  the null payload and the number parse that fails are modelled on values by
  `QueryText.IdsFromPayloadAsWritten`, which parses the same pieces of `split(",")`.
- Joda `Interval` arithmetic is replaced by integer spans `[start, end]`. `gap` returns
  no gap for spans that overlap or abut.

## Findings

| source | as written | input that shows it | evidently intended | confidence | as-written member | corrected member |
|---|---|---|---|---|---|---|
| bindings/java/src/org/sleuthkit/datamodel/TimelineManager.java:1196-1197 | `unGroupConcat` splits the `hash_hits` and `taggeds` columns unconditionally | A cluster with no hash hits: group-concat over only NULLs returns SQL NULL, so `split` dereferences null. An empty payload `""` splits to `[""]`, which `Long.valueOf` rejects | A NULL or blank payload means no ids, so the round trip holds for every list of ids, the empty list included | medium, not executed | `QueryText.NoIdsPayloadFails` | `QueryText.IdsFromPayloadRoundTrip` |
