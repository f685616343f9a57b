# Corridor event hub: a verified model

The corridor event hub takes road events from several agencies, places them on one
linear reference for a corridor, groups the reports that describe one event, and keeps
every version of the result. This project models the algorithms that carry it and proves
what they promise, for all inputs:

- **matching and clustering** (`Floats`, `Scoring`, `ScoreMeaning`, `UnionFind`,
  `Clustering`, `ClusterLaws`, `MergedEvents`, `FeedOrder`, `Sorting`): the pairwise score
  with its gates and what each part of it is worth, the union-find over an array with path
  halving, and the clusters built from it, proved to be exactly the connected components of
  the merge decisions, with the exact conditions under which their extent is bounded and
  the order of the feed is irrelevant;
- **the vector-tile codec** (`Varints`, `BinaryFloats`, `Wire`, `Tiles`, `TileFieldOrder`,
  `TileEncoder`, `TileMeaning`, `TileRoundTrip`, `TileRange`): the decoder and the fixture
  encoder down to bytes, after the Protocol Buffers wire encoding and sections 4.1 and 4.3
  of the Vector Tile Specification 2.1;
- **the versioned event store** (`SortKeys`, `Stores`, `StoreRuns`, `RangeQueries`): the
  dict and the DynamoDB table as two machines stepped by interleaved writers, a
  refinement between them, and the indexed range query;
- **the SQL splitter and the migration plan** (`SqlSplitter`, `SqlTokens`, `SqlReadings`,
  `SqlRoundTrip`, `SqlFilter`, `SqlFilterRows`, `MigrationPlan`): the scanner against a
  declarative definition of tokens, printing and splitting again, the comment filter, and
  what a plan lists;
- **the corridor** (`Polygons`, `PolygonAreas`, `Interpolation`, `CorridorAssembly`,
  `Mileposts`, `Chunker`, `Polylines`): even-odd containment and what it means in the
  plane, the monotone filter, interpolation, state mileposts, the chunked SQL load, and the
  encoded polyline;
- **ids** (`Positional`, `EventIds`): fixed-width encodings whose string order is
  numeric order.

`Wrappers` holds the types that several of them share.

Code that updates state in the source is a method over a class, an array or local
variables, proved equal to a specification function; the properties are lemmas about
those functions. `dafny verify dfyconfig.toml` checks everything.

## Where code and documentation differ

The model follows the code.

- The encoder is described as the exact inverse of the decoder. Values are interned with
  Python's `==`, so a layer holding `8` and `8.0`, or `False` and `0`, comes back with
  one of them twice; and floats are packed as singles, so the `0.82` of the fixture comes
  back as 0.8199999928. `TileRange.LayerSurvivesIff` gives the exact condition.
- `_reraise` is meant to tell a write that already landed from a concurrent one. It looks
  for a text that no cancellation code contains, so every failed condition is reported
  as a version that already exists, where the dict store always reports a concurrent
  modification (`StoreRuns.RefusalsAlwaysDiffer`). Acceptance and stored state agree.
- An extent that could not be placed has NaN measures. Compared second it scores as if it
  coincided, compared first as if it were out of reach. The grouping therefore depends
  on the order of the feed exactly when such a report agrees with a placed one on class,
  direction and time (`FeedOrder.OrderFreeIff`).
- The gates are meant to keep reports in different places apart. One unplaced report that
  merges with two placed ones makes one event of them at any distance
  (`MergedEvents.UnplacedReportFuses`); the bound on a cluster's extent holds exactly
  without such a report (`MergedEvents.HullsHoldIff`).
- The 250-mile lookback of the range query is stated as a limit on length. It also needs
  extents that run forward; `RangeQueries.QueryCompleteIff` has both halves.
- The scanner and the comment filter read comments differently once a line comment holds
  `/*` or block comments nest. `SqlFilterRows` says exactly which chunks the filter drops
  and when that loses executable text; `SqlFilter` proves agreement outside the two cases
  and gives a losing script in each.
- The comment in `build_corridor` says measured offsets make the state-line identity
  exact. Offsets and lengths are rounded separately, so this holds for the first state
  line and wherever the three roundings add up (`CorridorAssembly.StateLineExactIff`);
  elsewhere the segments miss each other by a thousandth of a mile.
- The tolerance of `_on_segment` is described as a distance of 10^-12 degrees. It is
  compared with an area as well, so short edges reach further: a touched edge may be more
  than half a millionth of a degree away (`PolygonAreas.ShortEdgesReachFurther`), and never
  more than a little over a millionth either way (`PolygonAreas.TouchedIsNear`).
- Event ids are described as holding 48 bits of time; ten letters of base 32 hold 50, and
  that is what the code accepts.

## Model

| member | source | states |
|---|---|---|
| Scoring.DecisionCuts | src/corridor_event_hub/core/matcher.py:204-265 | for every pair: the score is in [0, 1]; merge exactly when every gate passes and the unrounded weighted sum is at least 0.74995, distinct exactly when a gate fails or the sum is below 0.49995 |
| Scoring.MergeIsNear | src/corridor_event_hub/core/matcher.py:91-116 | extents more than half a mile apart never merge |
| Scoring.NearMissReachesReview | src/corridor_event_hub/core/matcher.py:105-116 | such a pair, agreeing on all else, is reviewed exactly when the gap past the tolerance is under five miles, and never merged |
| Scoring.TemporalReach | src/corridor_event_hub/core/matcher.py:119-151 | a positive temporal score means the pause is shorter than the reopen window of the first event's class |
| Scoring.MergeAgrees | src/corridor_event_hub/core/matcher.py:231-258 | merging events share a class, have compatible directions, both have a start, and pause less than the window |
| Scoring.CoincidentReportsMerge | src/corridor_event_hub/core/matcher.py:43-59 | place, class and compatible direction with a temporal score of 0.3 merge whoever reports |
| Scoring.WideningEitherRange | src/corridor_event_hub/core/lrs.py:421-440 | the tolerance added to one range or to the other gives the same verdict and gap, and the same overlap unless both cover the shorter range |
| Scoring.SpatialSymmetric | src/corridor_event_hub/core/matcher.py:91-116 | the spatial score is symmetric although the tolerance widens only the first range |
| Scoring.ScoreSymmetric | src/corridor_event_hub/core/matcher.py:204-265 | placed pairs decide alike in either order; within one class the whole score is the same |
| Scoring.ScoreSymmetricIff | src/corridor_event_hub/core/matcher.py:204-265 | the whole score of two placed candidates is the same in both orders exactly when their temporal scores are |
| Scoring.TemporalSymmetricWhen | src/corridor_event_hub/core/matcher.py:119-151 | the temporal scores agree without a start, on overlap, with reopen windows as long as each other and past both windows, and differ whenever the shares left of the two differ by more than a ten-thousandth |
| Scoring.ScoreNotSymmetricAcrossClasses | src/corridor_event_hub/core/matcher.py:119-151 | across classes the score value does depend on the order: a weather and a congestion report score 0.24 one way and 0.115 the other |
| Scoring.UnplacedComparedSecond | src/corridor_event_hub/core/matcher.py:91-116 | an extent whose measures are NaN scores 1 spatially when compared second and 0 when compared first |
| Scoring.DecisionSymmetricIff | src/corridor_event_hub/core/matcher.py:204-265 | the exact condition under which two conflated candidates get one verdict in both orders |
| Scoring.UnplacedMergesIff | src/corridor_event_hub/core/matcher.py:204-265 | an unplaced report merges exactly with a placed one before it that agrees on class, direction and time closely enough; compared first it merges with nothing |
| ScoreMeaning.SpatialIs | src/corridor_event_hub/core/matcher.py:91-116 | what placed extents score, written out over their measures: the rounded share of the shorter one, 1 for a point, past the half mile a tenth of three fading over five miles |
| ScoreMeaning.PartialOverlapVerdict | src/corridor_event_hub/core/matcher.py:91-116 | with class, direction, time and sources in agreement, extents within half a mile merge exactly when they share more than 37.485 % of the shorter one and are kept apart exactly at 0.005 % or less |
| ScoreMeaning.TemporalIs | src/corridor_event_hub/core/matcher.py:119-151 | no start scores 0, overlap in time 1, a pause its share left of the first event's window, rounded; an absent end is still running |
| ScoreMeaning.ClassIs | src/corridor_event_hub/core/matcher.py:155-170 | the four related pairs of classes, in either order, and what they score |
| ScoreMeaning.DirectionIs | src/corridor_event_hub/core/matcher.py:173-190 | which pairs of directions score 1, 0.8, 0.6 and 0 |
| ScoreMeaning.IndependenceIs | src/corridor_event_hub/core/matcher.py:193-201 | sources of one group score 0.3, others 1; a source without a group stands for itself |
| ScoreMeaning.ValueIs | src/corridor_event_hub/core/matcher.py:204-248 | the five weights, the four gates, and 0.49 at most when one fails |
| ScoreMeaning.ConsecutiveZonesReviewed | src/corridor_event_hub/core/matcher.py:91-116 | two work zones that meet end to end go to review |
| UnionFind.Find | src/corridor_event_hub/core/matcher.py:336-340 | terminates, returns the representative and, while halving paths, keeps every representative |
| UnionFind.Union | src/corridor_event_hub/core/matcher.py:342-346 | merges exactly the two classes and leaves the others |
| UnionFind.ForestRootsUnique | src/corridor_event_hub/core/matcher.py:334-346 | the representatives are determined by the links in the array |
| UnionFind.LinkKeepsForest | src/corridor_event_hub/core/matcher.py:342-346 | linking one root under another keeps the links acyclic |
| UnionFind.RootsAreComponents | src/corridor_event_hub/core/matcher.py:336-346 | after any list of unions two indices share a root exactly when a walk over the pairs joins them |
| Clustering.ClusterCandidates | src/corridor_event_hub/core/matcher.py:320-384 | the whole method returns the sorted clusters of the merge pairs, its array loops proved against the specification |
| Clustering.CompareAll | src/corridor_event_hub/core/matcher.py:348-357 | all pairs i < j are scored once, merges joined and recorded, reviews recorded |
| Clustering.GroupMembers | src/corridor_event_hub/core/matcher.py:359-365 | members gathered under their roots, ascending, clusters in order of first member |
| Clustering.AttachJoins | src/corridor_event_hub/core/matcher.py:367-368 | each merge pair is put on the cluster of its first end |
| Clustering.AttachReviews | src/corridor_event_hub/core/matcher.py:370-377 | each review pair is put on the cluster of each end, once if they share one |
| Clustering.BestMatch | src/corridor_event_hub/core/matcher.py:387-402 | the strongest pair that reaches review, the earliest of equals, None exactly when all are distinct |
| ClusterLaws.RootsAreMergeComponents | src/corridor_event_hub/core/matcher.py:334-357 | candidates share a root exactly when a chain of merge decisions connects them |
| ClusterLaws.ClusterAtHolds | src/corridor_event_hub/core/matcher.py:359-377 | a cluster is one component, ascending, and holds exactly the merge and review pairs that touch it, none twice |
| ClusterLaws.ReturnedClustersPartition | src/corridor_event_hub/core/matcher.py:320-384 | the returned list is the partition into components: every index held, clusters disjoint, each holding its pairs |
| ClusterLaws.TogetherIffConnected | src/corridor_event_hub/core/matcher.py:320-384 | two candidates come back in one cluster exactly when merges connect them |
| ClusterLaws.FeedOrderIrrelevant | src/corridor_event_hub/core/matcher.py:320-384 | permuting the feed permutes the partition, for every scorer under which no pair merges in one order only; for the scorer of the source `FeedOrder.OrderFreeIff` says exactly when |
| Sorting.InsertIsStable | src/corridor_event_hub/core/matcher.py:379-384 | inserting an item keeps equal keys in order |
| Sorting.SortOrders | src/corridor_event_hub/core/matcher.py:379-384 | a list sorted by key ascends when all keys are numbers, items with one key in their old order |
| ClusterLaws.ReturnedInOrder | src/corridor_event_hub/core/matcher.py:379-384 | clusters come back by start when all starts are numbers, equal starts in first-member order |
| ClusterLaws.StartIsSmallest | src/corridor_event_hub/core/matcher.py:379-384 | a cluster starts at the smallest of its members' begin measures |
| ClusterLaws.ReturnedWestToEast | src/corridor_event_hub/core/matcher.py:379-384 | of two placed clusters returned, the earlier one has a member that begins no further east than any member of the later one |
| MergedEvents.ClusterAgrees | src/corridor_event_hub/core/matcher.py:231-258 | members of a cluster share a class, and a direction if none is BOTH or UNKNOWN |
| MergedEvents.ClusterHull | src/corridor_event_hub/core/matcher.py:43-59 | whatever else is in the feed: two placed members of a cluster are at most the lengths of its placed members plus half a mile for each join among them apart, unless an unplaced member merges with two placed ones |
| MergedEvents.HullsHoldIff | src/corridor_event_hub/core/matcher.py:91-116 | every cluster keeps the bound wherever the placed reports lie exactly when no unplaced report merges with two placed ones before it |
| MergedEvents.UnplacedReportFuses | src/corridor_event_hub/core/matcher.py:320-384 | one unplaced report makes one event of two incidents any distance apart |
| MergedEvents.AbsorbKeepsHull | src/corridor_event_hub/core/matcher.py:342-346 | the hull bound is an invariant of every union of near extents |
| FeedOrder.OrderFreeIff | src/corridor_event_hub/core/matcher.py:320-384 | the returned grouping is the same in every feed order exactly when no unplaced report agrees with a placed one on class, direction and time closely enough to be merged with it |
| FeedOrder.OrderFreeFeedIsSymmetric | src/corridor_event_hub/core/matcher.py:204-265 | every pair of a feed gets one verdict in both orders, reviews included, exactly under the pair condition |
| FeedOrder.PlacedFeedOrderIrrelevant | src/corridor_event_hub/core/matcher.py:320-384 | placed candidates are grouped alike in every feed order |
| FeedOrder.UnplacedFeedOrderMatters | src/corridor_event_hub/core/matcher.py:320-384 | a placed and an unplaced incident are one event in this order and two in the other |
| Varints.ReadVarintAt | src/corridor_event_hub/core/mvt.py:65-79 | the reading loop, with its truncation and length errors, is the specification at that offset |
| Varints.Varint | src/scripts/make-synthetic-fixtures.py:658-667 | the writing loop produces the base-128 bytes |
| Varints.VarintRoundTrip | src/corridor_event_hub/core/mvt.py:65-79 | a written varint followed by anything reads back with its length exactly when below 2^70, and is refused otherwise |
| Varints.VarintPrefixRejected | src/corridor_event_hub/core/mvt.py:65-79 | no proper prefix of a varint reads as one |
| Varints.ReadBelowRoom | src/corridor_event_hub/core/mvt.py:65-79 | whatever the reader accepts is below 2^70 |
| Varints.ReadIsLocal | src/corridor_event_hub/core/mvt.py:65-79 | only the bytes consumed decide what is read |
| Varints.ZigZagInverse | src/corridor_event_hub/core/mvt.py:82-84 | zigzag decoding and encoding invert each other on all integers and naturals |
| Varints.UnpackVarints | src/corridor_event_hub/core/mvt.py:136-142 | the packed list loop against its specification |
| Varints.PackedRoundTrip | src/scripts/make-synthetic-fixtures.py:761-766 | a packed list of varints below 2^70 unpacks to itself |
| Wire.IterFields | src/corridor_event_hub/core/mvt.py:87-117 | the field walk, every wire type and error, against its specification |
| Wire.FieldsConcatenate | src/corridor_event_hub/core/mvt.py:87-117 | walking a well-formed message followed by anything yields its fields, then those of the rest |
| Wire.ReadTag | src/scripts/make-synthetic-fixtures.py:675-676 | number and wire type come back from a tag |
| Wire.ReadBytesField | src/scripts/make-synthetic-fixtures.py:679-680 | a written length-delimited field is read back whatever follows |
| Wire.ReadVarintField | src/scripts/make-synthetic-fixtures.py:683-684 | a written varint field is read back whatever follows |
| TileMeaning.UnsupportedRefused | src/corridor_event_hub/core/mvt.py:114-117 | wire types 3, 4, 6 and 7 are refused whatever follows |
| TileMeaning.CutShortRefused | src/corridor_event_hub/core/mvt.py:102-113 | a payload or a float of either size cut short is refused |
| TileMeaning.DoubleIs | src/corridor_event_hub/core/mvt.py:112-114 | the sign, exponent and fraction of a double, byte by byte, and what they are worth |
| Tiles.DecodeValue | src/corridor_event_hub/core/mvt.py:120-133 | value messages: the first of the seven known fields decides |
| Tiles.DecodeGeometry | src/corridor_event_hub/core/mvt.py:145-189 | the command loop: cursor, counts, close path and truncation |
| Tiles.DecodeFeature | src/corridor_event_hub/core/mvt.py:244-281 | tags, type and geometry of one feature, properties resolved against the dictionaries |
| Tiles.DecodeLayer | src/corridor_event_hub/core/mvt.py:217-283 | one layer gathered from its fields |
| Tiles.DecodeTile | src/corridor_event_hub/core/mvt.py:210-285 | the layers of a tile by name, a later one replacing an earlier |
| TileMeaning.NumberMeans | src/corridor_event_hub/core/mvt.py:120-133 | what a value message that begins with a varint holds, for every field number: the number, its zigzag, its truth, an error, or whatever follows |
| TileMeaning.BytesMean | src/corridor_event_hub/core/mvt.py:120-133 | the same for one that begins with bytes |
| TileMeaning.FloatsMean | src/corridor_event_hub/core/mvt.py:120-133 | the same for one that begins with a float of either size |
| TileMeaning.TypeMeans | src/corridor_event_hub/core/mvt.py:252-253 | type 1 is a point, 2 a line, 3 a polygon, any other unknown |
| TileMeaning.FloatTypeMeans | src/corridor_event_hub/core/mvt.py:252-253 | a type given as a float is that of the whole number it equals |
| TileMeaning.ExtentMeans | src/corridor_event_hub/core/mvt.py:239-240 | the extent is the number given, 4096 for zero or none |
| TileMeaning.UnknownPassedOver | src/corridor_event_hub/core/mvt.py:210-256 | a field the decoder does not know changes nothing in a feature, a layer or a tile |
| TileMeaning.PiecesJoin | src/corridor_event_hub/core/mvt.py:250-256 | tags and commands in two fields are those of one field with the numbers of both |
| TileMeaning.CommandsConcatenate | src/corridor_event_hub/core/mvt.py:145-189 | what follows complete commands is drawn from the last point they drew |
| TileMeaning.NextCommandMeans | src/corridor_event_hub/core/mvt.py:165-189 | closing a path draws and moves nothing; an unknown command, or one with too few parameters, leaves no coordinates |
| TileMeaning.LastPairDecides | src/corridor_event_hub/core/mvt.py:257-264 | a property has the value of the last tag pair that names it within both dictionaries |
| TileFieldOrder.InterleavingIrrelevant | src/corridor_event_hub/core/mvt.py:224-283 | reordering the fields of a layer while keeping the order within each number gives the same layer, or both raise |
| TileFieldOrder.LayerBytesInterleave | src/corridor_event_hub/core/mvt.py:210-285 | the same for the bytes of two messages |
| BinaryFloats.SingleRoundTrip | src/scripts/make-synthetic-fixtures.py:699-700 | what is unpacked is the packed float narrowed: sign, infinities and subnormals included |
| BinaryFloats.NothingNearer | src/scripts/make-synthetic-fixtures.py:699-700 | narrowing gives the nearest single: none is nearer |
| BinaryFloats.TieIsEven | src/scripts/make-synthetic-fixtures.py:699-700 | half-way between two singles the even one is taken |
| BinaryFloats.UnchangedIff | src/scripts/make-synthetic-fixtures.py:699-700 | packing leaves a float as it is exactly when it is a single |
| BinaryFloats.PointEightTwoIsNarrowed | src/scripts/make-synthetic-fixtures.py:849-849 | the double 0.82 is not a single |
| TileEncoder.Pack | src/scripts/make-synthetic-fixtures.py:761-766 | the packing loop |
| TileEncoder.EncodeGeometry | src/scripts/make-synthetic-fixtures.py:744-759 | move-to, then one line-to with zigzag deltas from a running cursor |
| TileEncoder.EncodeTags | src/scripts/make-synthetic-fixtures.py:734-742 | interning of keys and values by Python equality, None skipped |
| TileMeaning.LayerWithoutDuplicates | src/scripts/make-synthetic-fixtures.py:734-742 | no key is listed twice, and no value beside one that Python holds equal |
| TileMeaning.WholeFloatsEqual | src/scripts/make-synthetic-fixtures.py:740-741 | an int is held equal to a float exactly when it is the same whole number |
| TileMeaning.EncodableIff | src/scripts/make-synthetic-fixtures.py:687-703 | what can be written: text, booleans, ints from 0, and floats below the largest single and half a spacing |
| TileEncoder.EncodeFeatures | src/scripts/make-synthetic-fixtures.py:729-768 | all features against dictionaries that only grow |
| TileEncoder.EncodeLayer | src/scripts/make-synthetic-fixtures.py:722-781 | the layer message: name, features, keys, values, extent |
| TileRoundTrip.ValueRoundTrip | src/scripts/make-synthetic-fixtures.py:687-703 | every encodable value is decoded to itself, its type included, floats narrowed to the nearest single |
| TileRoundTrip.GeometryRoundTrip | src/corridor_event_hub/core/mvt.py:145-189 | a written polyline draws its own pixels |
| TileRoundTrip.TagsResolve | src/corridor_event_hub/core/mvt.py:257-264 | tags written while the dictionaries grow resolve against the finished ones |
| TileRoundTrip.LayerRoundTrip | src/scripts/make-synthetic-fixtures.py:722-781 | a written layer decodes to its name, extent, feature order, pixels and properties, each value as the first one equal to it in Python, narrowed |
| TileRoundTrip.TileRoundTrips | src/scripts/make-synthetic-fixtures.py:722-781 | the same for any list of layers in one tile |
| TileRange.LayerReadsIff | src/corridor_event_hub/core/mvt.py:217-283 | a written layer whose length is in range is read back exactly when everything written in it is |
| TileRange.TileReadsIff | src/corridor_event_hub/core/mvt.py:210-285 | for every list of encodable layers: the tile is read back exactly when every number written, lengths included, is below 2^70 |
| TileRange.LayerSurvivesIff | src/scripts/make-synthetic-fixtures.py:735-742 | every encodable layer comes back unchanged exactly when its numbers are in range, no two different values in it are equal to Python and each of its floats is exactly a single |
| TileRange.OneFloatInRange | src/scripts/make-synthetic-fixtures.py:722-781 | a layer with one point and one float is in range, whichever float a single can hold |
| TileRange.PointEightTwoDoesNotSurvive | src/scripts/make-synthetic-fixtures.py:849-849 | one layer, whose only value is the double 0.82, is read back and comes back changed |
| Positional.DigitsIncrease | src/corridor_event_hub/core/ids.py:59-67 | fixed-width positional strings over an ordered alphabet order as their numbers |
| Positional.ParseDigits | src/corridor_event_hub/core/ids.py:70-85 | the digits of a number parse back to it |
| Positional.LessIff | src/corridor_event_hub/core/ids.py:8-11 | strings compare at their first difference, a prefix first |
| EventIds.Encode | src/corridor_event_hub/core/ids.py:59-67 | the dividing loop writes the fixed-width digits, and refuses exactly what does not fit |
| EventIds.TimestampOf | src/corridor_event_hub/core/ids.py:70-85 | the accumulating loop, case folding (the five characters outside ASCII that become letters of the alphabet included) and the errors for length and alphabet |
| EventIds.EncodeIncreases | src/corridor_event_hub/core/ids.py:59-67 | encoding is strictly increasing under string order |
| EventIds.IdRoundTrip | src/corridor_event_hub/core/ids.py:41-56 | an id exists exactly for milliseconds from 0 to below 32^10, has 26 letters, and gives its milliseconds back |
| EventIds.IdsSortByTime | src/corridor_event_hub/core/ids.py:41-56 | ids of different milliseconds sort by time whatever their entropy |
| EventIds.IdIff | src/corridor_event_hub/core/ids.py:41-67 | an id is made exactly from ten bytes and a time from 0 to below 2^50 |
| EventIds.IdsOrder | src/corridor_event_hub/core/ids.py:41-67 | two ids are equal exactly when time and entropy are, and compare as the times and, within a millisecond, as the entropies byte by byte |
| EventIds.RefusedIff | src/corridor_event_hub/core/ids.py:70-85 | an id is refused exactly when it has not 26 characters or one of the first ten is, in upper case, none of the digits and capitals without I, L, O and U |
| EventIds.CaseIrrelevant | src/corridor_event_hub/core/ids.py:13-15 | an id in lower case holds the same time |
| SortKeys.VersionsSortNumerically | src/corridor_event_hub/core/eventstore.py:53-62 | below 10^10 version and audit keys order as numbers, both ways |
| SortKeys.VersionsSortIff | src/corridor_event_hub/core/eventstore.py:53-62 | the keys of all versions below a bound order as numbers exactly when the bound is at most 10^10 |
| SortKeys.ElevenDigitsSortWrong | src/corridor_event_hub/core/eventstore.py:53-62 | the first eleven-digit version sorts before the last ten-digit one |
| SortKeys.KeysDistinct | src/corridor_event_hub/core/eventstore.py:53-62 | no two versions, audit records or the current item share a sort key |
| SortKeys.KeysRead | src/corridor_event_hub/core/eventstore.py:57-62 | each kind of key has its prefix, and the number behind it is the version or the audit sequence |
| SortKeys.PartitionsDistinct | src/corridor_event_hub/core/eventstore.py:265-278 | state and route are determined by the index partition key |
| Stores.InMemoryEventStore.constructor | src/corridor_event_hub/core/eventstore.py:587-592 | starts empty |
| Stores.InMemoryEventStore.WriteChange | src/corridor_event_hub/core/eventstore.py:603-620 | a change is written step by step and stops at its first refusal, earlier steps kept |
| Stores.InMemoryEventStore.WriteStep | src/corridor_event_hub/core/eventstore.py:604-620 | one step: both guards, the listed-version test, appended history, advanced current event |
| Stores.DynamoEventStore.WriteChange | src/corridor_event_hub/core/eventstore.py:452-517 | one transaction a step, stopping at the first that is cancelled |
| Stores.DynamoEventStore.TransactWriteItems | src/corridor_event_hub/core/eventstore.py:465-517 | three conditions against one table, then three puts or none |
| StoreRuns.NeverAlreadyListed | src/corridor_event_hub/core/eventstore.py:612-616 | the dict store never reaches its own already-exists refusal |
| StoreRuns.RefusalIs | src/corridor_event_hub/core/eventstore.py:604-616 | in any state, which steps the dict refuses as concurrent and which as already listed |
| StoreRuns.StepKeepsGood | src/corridor_event_hub/core/eventstore.py:603-620 | every step, whatever its audit record says, keeps versions consecutive up to the current one with one audit record each |
| StoreRuns.RunKeepsGood | src/corridor_event_hub/core/eventstore.py:603-620 | so does every run of interleaved writers, from any such state |
| StoreRuns.StepKeepsAudited | src/corridor_event_hub/core/eventstore.py:603-620 | a step numbered by its version keeps every audit record under the number of its version |
| StoreRuns.SameAcceptance | src/corridor_event_hub/core/eventstore.py:452-517 | on matching states both stores accept exactly the same steps |
| StoreRuns.StepMirrors | src/corridor_event_hub/core/eventstore.py:452-517 | a step leaves matching states matching |
| StoreRuns.AcceptanceWithAnySequence | src/corridor_event_hub/core/eventstore.py:465-490 | without audit numbering the table additionally refuses exactly the steps whose audit key is taken |
| StoreRuns.RefusalsAlwaysDiffer | src/corridor_event_hub/core/eventstore.py:519-542 | each refused step is a version that already exists to the table and a concurrent modification to the dict |
| StoreRuns.RunsRefine | src/corridor_event_hub/core/eventstore.py:452-620 | every run of interleaved writers gives matching states and the same accepted and refused writers |
| StoreRuns.RunAppends | src/corridor_event_hub/core/eventstore.py:603-620 | a run only ever appends to the versions and audit lists |
| StoreRuns.TableAppends | src/corridor_event_hub/core/eventstore.py:465-517 | no version or audit item is ever overwritten or removed, from any table and for any steps |
| StoreRuns.LandedIsHeld | src/corridor_event_hub/core/eventstore.py:603-620 | in every run from any such state an accepted version is held by the final one |
| StoreRuns.VersionsLandOnce | src/corridor_event_hub/core/eventstore.py:603-620 | at most one writer lands a given version of an event in the dict, once, in every run from any such state |
| StoreRuns.TableLandsOnce | src/corridor_event_hub/core/eventstore.py:465-517 | at most one writer lands a given version in the table, once, from any table and whatever the writers write |
| StoreRuns.SameLandings | src/corridor_event_hub/core/eventstore.py:452-620 | both stores land the same versions by the same writers in every run |
| StoreRuns.WriteChangeIsARun | src/corridor_event_hub/core/eventstore.py:452-517 | one call of write_change is the run of one writer |
| StoreRuns.MemoryWriteIsARun | src/corridor_event_hub/core/eventstore.py:603-620 | the same for the dict |
| StoreRuns.WritesRefine | src/corridor_event_hub/core/eventstore.py:452-620 | one call on matching states leaves matching states, and both stores take it or refuse it together |
| StoreRuns.ChangeLands | src/corridor_event_hub/core/eventstore.py:603-620 | how many steps of a change for one event land, from any good state: the longest prefix of consecutive versions that continues the current one, or begins a new event; the state is that prefix appended, the call refused exactly when a step is left over |
| RangeQueries.QueryAll | src/corridor_event_hub/core/eventstore.py:428-448 | paging returns the concatenated pages, cut at the limit |
| RangeQueries.EventsOverlapping | src/corridor_event_hub/core/eventstore.py:366-395 | the query returns exactly the indexed events of the asked states that reach into the window, each once, by begin measure |
| RangeQueries.ScanOverlapping | src/corridor_event_hub/core/eventstore.py:622-643 | the full scan returns exactly the matching events of the dict, each once, by begin measure |
| RangeQueries.IndexHoldsCurrent | src/corridor_event_hub/core/eventstore.py:304-332 | the index holds exactly the current events with a begin measure, each under its current state and route |
| RangeQueries.HistoryNotIndexed | src/corridor_event_hub/core/eventstore.py:304-332 | version and audit items carry no index keys |
| RangeQueries.QueryReturns | src/corridor_event_hub/core/eventstore.py:366-395 | what the indexed query returns, in terms of current events |
| RangeQueries.QueryIsSound | src/corridor_event_hub/core/eventstore.py:622-643 | every event returned is one the full scan returns |
| RangeQueries.ScannedIff | src/corridor_event_hub/core/eventstore.py:622-643 | the scan takes a placed event of the route and states exactly when its extent and the window, ends included, share a place |
| RangeQueries.QueryReturnsIff | src/corridor_event_hub/core/eventstore.py:366-395 | the indexed query takes exactly those of them that begin in the window or at most 250 miles before it |
| RangeQueries.QueryCompleteIff | src/corridor_event_hub/core/eventstore.py:76-91 | index and scan agree on every window for an event exactly when its extent runs forward and is at most 250 miles long |
| RangeQueries.EveryRunQueriesAlike | src/corridor_event_hub/core/eventstore.py:366-395 | after every run the table meets the precondition of the query, what it returns has begin measures, and query and scan agree on every window exactly when all placed current events of the asked states run forward and are at most 250 miles long |
| RangeQueries.EveryRunListsAlike | src/corridor_event_hub/core/eventstore.py:622-643 | the two returned lists are then permutations of each other, both ascending |
| SqlSplitter.TakeTurn | src/corridor_event_hub/core/migrations.py:233-310 | the branches of the loop: flags, depth, tag, doubled quotes, how far the index moves |
| SqlSplitter.DollarTagIff | src/corridor_event_hub/core/migrations.py:318-328 | a dollar tag is found exactly where two dollars enclose nothing or a name |
| SqlSplitter.ScanStep | src/corridor_event_hub/core/migrations.py:233-310 | one turn advances on every input and keeps what the scan will return |
| SqlSplitter.Scan | src/corridor_event_hub/core/migrations.py:233-312 | the raw chunks of every script |
| SqlSplitter.SplitStatements | src/corridor_event_hub/core/migrations.py:201-315 | chunks that are more than comments, trimmed |
| SqlTokens.CutsAreSemicolons | src/corridor_event_hub/core/migrations.py:233-312 | the chunks are the text between semicolon tokens of any reading as comments, literals, dollar bodies and single characters |
| SqlReadings.EveryScriptReads | src/corridor_event_hub/core/migrations.py:201-315 | every script has such a reading |
| SqlReadings.ChunksRebuild | src/corridor_event_hub/core/migrations.py:233-312 | joining the raw chunks with semicolons rebuilds the script |
| SqlReadings.ScriptCuts | src/corridor_event_hub/core/migrations.py:233-312 | the three facts together, for every script and every reading |
| SqlRoundTrip.SplitReturnsStatements | src/corridor_event_hub/core/migrations.py:201-315 | every returned statement is trimmed, is one chunk by itself, holds more than comments and, the last aside, ends outside every context but a line comment |
| SqlRoundTrip.PrintedSplits | src/corridor_event_hub/core/migrations.py:201-315 | any such list printed with newline, semicolon, newline splits back into itself |
| SqlRoundTrip.SplitIsStable | src/corridor_event_hub/core/migrations.py:201-315 | splitting again what was printed, or any one returned statement, changes nothing, for every script |
| SqlFilter.DroppedIffCommentOnly | src/corridor_event_hub/core/migrations.py:331-339 | with no block opener inside comments: a chunk is dropped exactly when it has no executable token and every block comment is terminated |
| SqlFilter.OpenerInLineCommentSwallows | src/corridor_event_hub/core/migrations.py:331-339 | an opener in a line comment makes the filter drop everything up to the next closing marker |
| SqlFilter.FirstCloseSwallows | src/corridor_event_hub/core/migrations.py:331-339 | two dashes after the first closing marker hide the rest of the line even inside a nested comment |
| SqlFilter.OpenerInLineCommentLosesSql | src/corridor_event_hub/core/migrations.py:331-339 | the script `--/*`, `x--*/` on two lines is dropped although its x is executable |
| SqlFilter.NestedCommentLosesSql | src/corridor_event_hub/core/migrations.py:331-339 | the script `/*/**/--*/x` is dropped although its x is executable |
| SqlFilterRows.DroppedIffRow | src/corridor_event_hub/core/migrations.py:331-339 | for every chunk: the filter drops it exactly when it is a row of blanks, gaps that run to the nearest closing marker, and dashed lines |
| SqlFilterRows.LostIff | src/corridor_event_hub/core/migrations.py:331-339 | executable text of a chunk is lost exactly when it is such a row and has an executable token; comments alone are kept exactly when they are no such row |
| MigrationPlan.MakePlan | src/corridor_event_hub/core/migrations.py:175-198 | pending, drifted and settled files in order |
| MigrationPlan.PlanIs | src/corridor_event_hub/core/migrations.py:175-198 | the three lists, each in migration order: pending exactly when unrecorded, or recorded otherwise and repeatable; drifted when recorded otherwise and not repeatable; settled when recorded as it is; new exactly when unrecorded |
| MigrationPlan.ApplyingSettles | src/corridor_event_hub/core/migrations.py:175-198 | after applying a plan the next one is empty and reports the same drift |
| Polygons.ScanRing | src/corridor_event_hub/core/lrs.py:765-779 | one ring: stop at a touched edge, otherwise toggle at every crossing |
| Polygons.PointInPolygon | src/corridor_event_hub/core/lrs.py:737-782 | true exactly when some part is touched or crossed an odd number of times |
| Polygons.ReversalIrrelevant | src/corridor_event_hub/core/lrs.py:765-779 | reversing a ring changes neither its crossings nor its edges |
| Polygons.StartIrrelevant | src/corridor_event_hub/core/lrs.py:765-779 | nor does starting a closed ring at another vertex |
| Polygons.RingNotationIrrelevant | src/corridor_event_hub/core/lrs.py:737-782 | containment does not depend on the direction or start of any ring |
| Polygons.RingOrderIrrelevant | src/corridor_event_hub/core/lrs.py:737-782 | nor on the order of a polygon's rings |
| Polygons.PartOrderIrrelevant | src/corridor_event_hub/core/lrs.py:737-782 | nor on the order of the parts |
| Polygons.EvenOddRule | src/corridor_event_hub/core/lrs.py:737-782 | off every edge a point is covered exactly when it is inside an odd number of the rings of some part |
| Polygons.HolesAreOutside | src/corridor_event_hub/core/lrs.py:748-755 | a point in a hole and off every edge is outside, for any number of holes and parts |
| Polygons.StraddleParity | src/corridor_event_hub/core/lrs.py:774-776 | a path straddles a height an odd number of times exactly when its ends lie on different sides |
| Polygons.FarPointsAreOutside | src/corridor_event_hub/core/lrs.py:737-782 | beyond the bounding box of every closed ring by more than the tolerance is outside |
| Polygons.FarClaimsIff | src/corridor_event_hub/core/lrs.py:737-782 | a ring claims no point beyond its bounding box exactly when it ends at the height it starts at |
| Polygons.RayDirectionIrrelevant | src/corridor_event_hub/core/lrs.py:769-779 | off every edge of a closed ring the rays to the west and to the east cross it with the same parity |
| Polygons.PolygonRings | src/corridor_event_hub/core/lrs.py:706-734 | rings of four points or more, parts that keep one, an error when none does |
| Polygons.NoUsableRing | src/corridor_event_hub/core/lrs.py:706-734 | the error comes exactly when every ring has fewer than four points |
| Polygons.RingsKept | src/corridor_event_hub/core/lrs.py:728-731 | every ring of four points or more is kept as often as it occurs, and no other |
| Polygons.PartsKept | src/corridor_event_hub/core/lrs.py:728-734 | a point is covered by what is kept exactly when it is in or on the kept rings of some part |
| PolygonAreas.TouchesIff | src/corridor_event_hub/core/lrs.py:785-799 | an edge is touched exactly when it spans an area of at most 10^-12 with the point and its box, 10^-12 wider, holds it |
| PolygonAreas.EdgePointsTouch | src/corridor_event_hub/core/lrs.py:757-758 | every point of an edge counts as on it |
| PolygonAreas.TouchedIsNear | src/corridor_event_hub/core/lrs.py:785-799 | a touched edge is at most 0.000001000001 degrees away either way |
| PolygonAreas.ShortEdgesReachFurther | src/corridor_event_hub/core/lrs.py:785-799 | and a slope a millionth wide is touched by the point a millionth below its upper end |
| PolygonAreas.SeparatedIsOutside | src/corridor_event_hub/core/lrs.py:737-782 | a point that a line of any slope separates from the vertices of each closed ring, by more than that, is not covered |
| PolygonAreas.TriangleRule | src/corridor_event_hub/core/lrs.py:769-779 | off its edges a triangle is crossed an odd number of times exactly when the point is on the same side of all three |
| PolygonAreas.OddTriangles | src/corridor_event_hub/core/lrs.py:737-782 | off edges and diagonals, a point is inside a closed ring of any shape exactly when an odd number of the triangles of its first vertex and its edges hold it |
| Interpolation.StaysWithin | src/corridor_event_hub/core/lrs.py:685-703 | interpolation never leaves the first and last measures |
| Interpolation.InterpolateMonotone | src/corridor_event_hub/core/lrs.py:685-703 | it is monotone in the distance, repeated distances included |
| Interpolation.ExactAtVertexIff | src/corridor_event_hub/core/lrs.py:685-703 | with distinct measures a vertex gets its own back exactly when it is the one its distance reads; with distinct distances every one is |
| Interpolation.ScaleMonotone | src/corridor_event_hub/core/lrs.py:659-682 | distance to measure is monotone, calibrated or not, rounding included |
| Interpolation.VertexMeasureExact | src/corridor_event_hub/core/lrs.py:659-682 | rounding loses nothing at a vertex whose measure is a whole number of thousandths |
| Interpolation.LinearBetween | src/corridor_event_hub/core/lrs.py:685-703 | between two vertices the measure advances in proportion to the distance; outside it stands still |
| Interpolation.ScaleIs | src/corridor_event_hub/core/lrs.py:659-682 | a measure is the interpolated one, or the share of the corridor without calibration, to within half a thousandth |
| Interpolation.InterpolateMeasures | src/scripts/fetch-arnold.py:543-575 | the cumulative loop and both outcomes against the specification |
| Interpolation.Anchored | src/scripts/fetch-arnold.py:543-575 | the measures begin and end at the surveyed ends |
| Interpolation.Proportional | src/scripts/fetch-arnold.py:543-575 | measure differences are proportional to distance |
| Interpolation.MeasuresFollowTheRoad | src/scripts/fetch-arnold.py:543-575 | measures stay inside the segment, never turn back, and stand still only where no distance separates vertices |
| Interpolation.PositionsKept | src/scripts/fetch-arnold.py:543-575 | measuring moves no vertex |
| CorridorAssembly.KeepAscending | src/scripts/fetch-arnold.py:898-913 | the filter loop keeps exactly the strict left-to-right maxima, in order |
| CorridorAssembly.RecordsAscend | src/scripts/fetch-arnold.py:898-913 | what is kept starts with the first vertex, ascends strictly and ends at the largest measure |
| CorridorAssembly.RecordsAreVertices | src/scripts/fetch-arnold.py:898-913 | a vertex is kept exactly when one of its occurrences is such a maximum |
| CorridorAssembly.DroppedAreOvertaken | src/scripts/fetch-arnold.py:898-913 | every dropped vertex has an earlier kept one at least as far on |
| CorridorAssembly.FilterIdempotent | src/scripts/fetch-arnold.py:898-913 | filtering twice is filtering once |
| CorridorAssembly.BuildCorridor | src/scripts/fetch-arnold.py:864-913 | the chaining loops: vertices placed and rounded, segments, running offset, then the filter |
| CorridorAssembly.AssembledReadsBack | src/scripts/fetch-arnold.py:880-896 | the assembled line ascends, and a distance at a vertex reads back the stored measure exactly |
| CorridorAssembly.VertexAtItsMilepost | src/scripts/fetch-arnold.py:877-896 | every vertex is chained within a thousandth of a mile of its own milepost, and the last of a state exactly where the next segment begins |
| CorridorAssembly.VertexStays | src/scripts/fetch-arnold.py:877-887 | every vertex is chained where it was, longitude and latitude to within half a millionth of a degree |
| CorridorAssembly.SegmentIs | src/scripts/fetch-arnold.py:858-896 | a segment bears its state's name, posts from 0 to the state's last measure and begins where the states before add up, to within half a thousandth |
| CorridorAssembly.SeamDrift | src/scripts/fetch-arnold.py:858-896 | a state line is off by at most a thousandth of a mile, and the first one never |
| CorridorAssembly.StateLineExactIff | src/scripts/fetch-arnold.py:858-896 | both mileposts of a state line are one place exactly when the three roundings add up |
| CorridorAssembly.WholeStatesChain | src/scripts/fetch-arnold.py:890-896 | states measured in whole thousandths form an exact chain |
| CorridorAssembly.SeamCanOpen | src/scripts/fetch-arnold.py:890-896 | after two states of 1.0004 miles a measure at the second seam belongs to no state |
| Mileposts.MeasureRoundTrip | src/corridor_event_hub/core/lrs.py:94-119 | the reference a measure is rendered in leads back to that measure |
| Mileposts.CaseIrrelevant | src/corridor_event_hub/core/lrs.py:94-110 | a state may be asked for in lower or upper case |
| Mileposts.MilepostRoundTripIff | src/corridor_event_hub/core/lrs.py:94-119 | on any corridor a milepost comes back as itself exactly when no earlier segment holds the place |
| Mileposts.ChainedRoundTripIff | src/corridor_event_hub/core/lrs.py:94-119 | on a chained one that excepts only the line with the state before, where the earlier state's last milepost comes back |
| Mileposts.StateLineIff | src/corridor_event_hub/core/lrs.py:94-110 | both mileposts at a state line name one measure exactly when the segments meet |
| Mileposts.CoversIff | src/corridor_event_hub/core/lrs.py:84-119 | a chained corridor renders exactly the measures from its beginning to its end, total_miles apart |
| Mileposts.StatesTouchedIff | src/corridor_event_hub/core/lrs.py:121-134 | a state is listed exactly when it shares a place with the extent |
| Mileposts.StatesConsecutive | src/corridor_event_hub/core/lrs.py:121-134 | the states of an extent are a run of consecutive ones, in order |
| Mileposts.PlaceInExtent | src/corridor_event_hub/core/lrs.py:112-134 | the state a place is rendered in is among those of every extent around it |
| Chunker.Chunk | src/scripts/fetch-arnold.py:1116-1125 | the loop: concatenation is the token list, chunks within the cap, every cut forced |
| Chunker.SizeIs | src/scripts/fetch-arnold.py:1116-1125 | what is capped is the length of a chunk's text and one comma more |
| Chunker.Reassembles | src/scripts/fetch-arnold.py:1177-1187 | joining chunks as the SQL aggregates them gives the joined token list |
| Chunker.GreedyStaysAhead | src/scripts/fetch-arnold.py:1116-1125 | n chunks reach at least as far as n chunks of any other split that fits |
| Chunker.ChunksAreFewest | src/scripts/fetch-arnold.py:1116-1125 | no contiguous split within the cap uses fewer chunks |
| Polylines.EncodePolyline | src/scripts/make-synthetic-fixtures.py:92-110 | the two loops against the specification |
| Polylines.LettersRead | src/scripts/make-synthetic-fixtures.py:103-108 | one folded value is self-delimiting |
| Polylines.PolylineRoundTrip | src/scripts/make-synthetic-fixtures.py:92-110 | a decoder recovers every rounded point |
| Polylines.SameEncodingIff | src/scripts/make-synthetic-fixtures.py:92-110 | two lines share an encoding exactly when their points round alike |
| Polylines.OnGridIs | src/scripts/make-synthetic-fixtures.py:98-101 | latitude first, then longitude, each to the nearest hundred-thousandth of a degree |

## Left out

- Floating point: measures, scores and coordinates are exact reals, with NaN as an extra
  value where the source produces it; rounding error and infinities are not modelled.
  `round` is to the nearest, ties to even, in exact arithmetic.
- Web Mercator, haversine distances and projection onto the centerline: pixels and
  distances are given numbers.
- Interpolation.BisectRight: states what `bisect_right` returns on an ascending list, not
  the library's own search.
- Interpolation.ScaleToCorridor: takes the centerline's cumulative distances and measures
  as two lists of one length, which the constructor of the conflator ensures.
- Mileposts.MeasureFor: `str.upper` is modelled for the letters a to z only.
- Tiles.DecodeTile: text is kept as its UTF-8 bytes (no replacement decoding), all NaNs are
  one value, and errors carry no message. The fields of a message are
  walked before they are used, so which of several errors is raised first may differ;
  whether one is raised does not.
- Varints.ReadVarintAt: shifts and masks are written as multiplication, division and
  remainder.
- TileRoundTrip.TileRoundTrips: properties are dictionaries, hence without repeated keys. A
  NaN is taken as equal to itself, as one object is in a Python list. Layers out of varint
  range are refused; `TileRange.TileReadsIff` has both halves.
- TileEncoder.EncodeLayer: an empty line, a float too large for a single and a negative int,
  on which the encoder raises or does not return, are outside its precondition.
- StoreRuns.RunsRefine: transactions are atomic, and an audit record has the number of the
  version it explains; without the second, `StoreRuns.AcceptanceWithAnySequence` states
  the whole difference.
- Stores.DynamoEventStore.TransactWriteItems: errors other than a cancelled condition are
  not modelled, nor are the fields of an event that storing does not look at.
- RangeQueries.EventsOverlapping: the index is taken as up to date.
- RangeQueries.ScanOverlapping: the dict is read in no particular order, so which of two
  events with one begin measure comes first is left open.
- Clustering.ClusterCandidates: explanations and the model version of a score are left
  out; when a cluster's start is NaN the order of the result is the one an insertion
  sort gives, and only its being a permutation is claimed.
- MergedEvents.HullsHoldIff: candidates are placed at both ends or at neither, as conflation
  leaves them.
- ClusterLaws.FeedOrderIrrelevant: the grouping is order-free; which index represents a
  cluster, and the orientation of its pairs, are not.
- EventIds.TimestampOf: gives milliseconds; the conversion to a date, which refuses years past
  9999, the clock and `os.urandom` are left out.
- MigrationPlan.ApplyingSettles: checksums are given strings; reading the directory,
  hashing and the repeatable marker are left out.
- Source pointers, the review queue, `history`, table serialisation and credentials.
- The other text that `emit_sql` writes, fetching, stitching and the Oklahoma sign
  calibration.
- Agency adapters, lifecycle transitions, confidence, derived fields, servers, exporters
  and infrastructure code: finite tables and formatting that would add only easy members.
