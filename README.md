# Parking-space ingestion and bookkeeping, in Dafny

This project models the ingestion core of the parking-place-occupancy backend: the
Spring services that load parking-space polygons, parking points and timestamps into
their tables, copy parking spaces into the editable table, and recompute occupancy.
Each repository is a table (a map from generated id to record, plus the id sequence
that `save` draws from); the tables are the fields of one `Entities.Database` object
that the service methods update in place. Each looping service method is a `method`
with a `while` loop, proved equal to a fold over the input (`LoadAll`, `LoadCsvRows`,
`CopyUpTo`, `Ingest`, `Load`), and the promised properties are lemmas about those folds.

Geometry is not computed: area, intersection area, `ST_Equals`, `ST_Contains`,
`ST_Touches` and the centroid are the fields of a `GeometryOracle`, and the two
queries that the polygon load runs against the edited table (closest centroids by
distance, polygon by centroid text) are a `NeighbourQueries` value.

Modules, one per source file:

- `ParkingSpaceService`: the polygon load with its duplicate check and the per-neighbour
  70% rule, the CSV load, and `getMostRecentTimestamp`.
- `EditedService`: the idempotent copy, occupancy recomputation, polygon replacement and
  the neighbour query.
- `ParkingPointService`, `TimestampService`, `TimestampPointService`: point and timestamp
  ingestion with their deduplication.
- `OverlappingService`: shadow records.
- `JsonHandler`: ring closing, feature-to-polygon conversion and the polygon JSON writer.
- `DataLoader`, `GeospatialService`: routing of the configured files; the older loader
  without dedup; occupancy update and area lookup by id.
- `DtoConverter`, `ParkingPositions`, `ParkingPositionEnums`: DTO mappings and the two
  copies of the orientation enum.
- Helpers: `Wrappers` (Option, Result), `Tables`, `Geometry`, `Entities`, `Repositories`
  (the native queries), `Strings` (case mapping, `contains`, `compareTo`,
  `FilenameUtils.getExtension`).

Behaviour kept as the code has it:

- The overlap percentage divides the NEIGHBOUR's whole area by the candidate's area. It
  does not use the intersection area.
- A unique polygon is inserted once per neighbour, so it can be inserted up to three
  times. With no neighbours it is not inserted at all.
- A neighbour centroid without a polygon throws from `Optional.get()` and ends the load.
  Rows inserted before that stay.
- A zero candidate area follows IEEE division: a positive neighbour area gives +Infinity,
  which exceeds 70; zero gives NaN, which does not.
- The neighbour queries read `edited_parking_spaces`, while inserts go to
  `parking_spaces`.
- `LIMIT 1` queries without `ORDER BY` (the containing space, the duplicate point) are
  modelled as returning the least matching id. The contracts only say "some match".

## Model

| member | source | states |
|---|---|---|
| `Tables.Table.Insert` | src/backend/backend-postgresql-api/src/main/java/org/gradle/backendpostgresqlapi/repository/ParkingSpaceRepo.java:73-77 | `save` of a new entity: the record gets the next id, one row more, every other row unchanged, ids stay positive and below the sequence |
| `Tables.Table.Update` | src/backend/backend-postgresql-api/src/main/java/org/gradle/backendpostgresqlapi/service/GeospatialService.java:145-146 | `save` of an existing entity replaces only its row; keys and sequence unchanged |
| `Tables.InsertAllRows` | src/backend/backend-postgresql-api/src/main/java/org/gradle/backendpostgresqlapi/service/GeospatialService.java:86-88 | saving a list adds exactly one row per record at consecutive fresh ids and keeps every earlier row |
| `Tables.InsertAllAt` | src/backend/backend-postgresql-api/src/main/java/org/gradle/backendpostgresqlapi/service/GeospatialService.java:103-105 | the i-th saved record is stored under the i-th fresh id |
| `Repositories.CountSamePolygons` | src/backend/backend-postgresql-api/src/main/java/org/gradle/backendpostgresqlapi/repository/ParkingSpaceRepo.java:26-27 | the count is zero iff no stored polygon is `ST_Equals` to the candidate |
| `Repositories.SpaceContaining` | src/backend/backend-postgresql-api/src/main/java/org/gradle/backendpostgresqlapi/repository/EditedParkingSpaceRepo.java:22-23 | `LIMIT 1` containment query: a returned id is a stored edited space containing the point; empty iff none contains it |
| `Repositories.NeighborIds` | src/backend/backend-postgresql-api/src/main/java/org/gradle/backendpostgresqlapi/repository/EditedParkingSpaceRepo.java:24-27 | exactly the other edited spaces whose polygon touches the queried one; never the queried id; empty for an absent id |
| `Repositories.DuplicatePointId` | src/backend/backend-postgresql-api/src/main/java/org/gradle/backendpostgresqlapi/repository/ParkingPointRepo.java:21-22 | a returned id is a stored point with equal coordinates; empty iff no stored point has them |
| `Repositories.CountTimestampDuplicates` | src/backend/backend-postgresql-api/src/main/java/org/gradle/backendpostgresqlapi/repository/TimestampRepo.java:21-24 | zero iff no stored timestamp has this (point id, instant text) |
| `Repositories.CountTimestampPointDuplicates` | src/backend/backend-postgresql-api/src/main/java/org/gradle/backendpostgresqlapi/repository/TimestampPointRepo.java:18-19 | zero iff no stored timestamp point has this instant text and these coordinates |
| `ParkingSpaceService.ClosestCentroids` | src/backend/backend-postgresql-api/src/main/java/org/gradle/backendpostgresqlapi/repository/ParkingSpaceRepo.java:59-62 | at most three centroids, a prefix of the distance-ordered list, the whole list when it is shorter |
| `ParkingSpaceService.Exceeds70` | src/backend/backend-postgresql-api/src/main/java/org/gradle/backendpostgresqlapi/service/ParkingSpaceService.java:132-138 | for a non-zero candidate area, true iff the neighbour's area over the candidate's exceeds 0.7 (`(overlapArea / originalArea) * 100 > 70`); a zero candidate area gives true iff the neighbour's area is positive (infinity, otherwise NaN) |
| `ParkingSpaceService.Exceeds70Meaning` | src/backend/backend-postgresql-api/src/main/java/org/gradle/backendpostgresqlapi/service/ParkingSpaceService.java:132-138 | for a positive candidate area the rule holds iff the NEIGHBOUR's area exceeds 70% of the candidate's |
| `ParkingSpaceService.ExactlySeventyIsNotOverlap` | src/backend/backend-postgresql-api/src/main/java/org/gradle/backendpostgresqlapi/service/ParkingSpaceService.java:138 | exactly 70% does not go to the overlapping table: the comparison is strict |
| `ParkingSpaceService.IsPolygonUnique` | src/backend/backend-postgresql-api/src/main/java/org/gradle/backendpostgresqlapi/service/ParkingSpaceService.java:168-176 | unique iff no stored parking space has an `ST_Equals` polygon |
| `ParkingSpaceService.NewSpace` | src/backend/backend-postgresql-api/src/main/java/org/gradle/backendpostgresqlapi/repository/ParkingSpaceRepo.java:73-77 | the row `insertParkingSpaceFromPolygon` adds: only the polygon, area 0 until the area update, no capacity, position or centroid, not occupied |
| `ParkingSpaceService.NewShadow` | src/backend/backend-postgresql-api/src/main/java/org/gradle/backendpostgresqlapi/repository/OverlappingParkingSpaceRepo.java:22-26 | the row `insertOverlappingParkingSpaceFromPolygon` adds: only the polygon, no capacity, position, centroid or parent |
| `ParkingSpaceService.NeighbourStep` | src/backend/backend-postgresql-api/src/main/java/org/gradle/backendpostgresqlapi/service/ParkingSpaceService.java:121-150 | per neighbour: no polygon aborts the load; an unparsable one changes nothing; a found one adds exactly one row holding the candidate, to the overlapping table iff intersection > 0 and the 70% rule holds, else to the main table |
| `ParkingSpaceService.PlaceCandidate` | src/backend/backend-postgresql-api/src/main/java/org/gradle/backendpostgresqlapi/service/ParkingSpaceService.java:130-146 | a candidate intersecting the neighbour with a neighbour area above 70% of its own goes into the shadow table as one new row, otherwise into the main table; the other table is untouched |
| `ParkingSpaceService.LoadAgainstNeighbours` | src/backend/backend-postgresql-api/src/main/java/org/gradle/backendpostgresqlapi/service/ParkingSpaceService.java:117-150 | the tables after the loop over the closest centroids equal the fold `Neighbours`; an empty centroid lookup stops the loop with the earlier inserts kept |
| `ParkingSpaceService.LoadPolygons` | src/backend/backend-postgresql-api/src/main/java/org/gradle/backendpostgresqlapi/service/ParkingSpaceService.java:111-160 | the tables after the nested loops equal the fold `LoadAll` over the polygons; success iff no neighbour lookup came back empty, returning the duplicate count; rows inserted before an exception stay |
| `ParkingSpaceService.DuplicateIsSkippedAndCounted` | src/backend/backend-postgresql-api/src/main/java/org/gradle/backendpostgresqlapi/service/ParkingSpaceService.java:113-114 | a polygon equal to a stored one inserts nothing anywhere and raises the duplicate counter by exactly one |
| `ParkingSpaceService.NoIntersectionGoesToMainTable` | src/backend/backend-postgresql-api/src/main/java/org/gradle/backendpostgresqlapi/service/ParkingSpaceService.java:143-146 | a neighbour with zero intersection puts the candidate into the main table and leaves the overlapping table unchanged |
| `ParkingSpaceService.NeighboursInsertOncePerFound` | src/backend/backend-postgresql-api/src/main/java/org/gradle/backendpostgresqlapi/service/ParkingSpaceService.java:121-151 | without a missing polygon the inner loop adds exactly one row per found neighbour, every new row being the candidate |
| `ParkingSpaceService.UniqueCandidateInsertions` | src/backend/backend-postgresql-api/src/main/java/org/gradle/backendpostgresqlapi/service/ParkingSpaceService.java:114-151 | a unique candidate is inserted once per found neighbour, so at most 3 times, and not at all when there are no neighbours |
| `ParkingSpaceService.MissingNeighbourAborts` | src/backend/backend-postgresql-api/src/main/java/org/gradle/backendpostgresqlapi/service/ParkingSpaceService.java:123-128 | a neighbour centroid without a polygon ends the load (`get()` on an empty Optional is not caught) |
| `ParkingSpaceService.LoadGeoJson` | src/backend/backend-postgresql-api/src/main/java/org/gradle/backendpostgresqlapi/service/ParkingSpaceService.java:77-87 | a file not mentioning "Polygon" changes nothing; a conversion failure changes nothing; otherwise the tables are those of `LoadAll`, the result is its duplicate count on success and `NoSuchElement` on failure |
| `ParkingSpaceService.CsvStep` | src/backend/backend-postgresql-api/src/main/java/org/gradle/backendpostgresqlapi/service/ParkingSpaceService.java:100-106 | a record is saved as it is iff its polygon is unique at that moment; earlier rows unchanged |
| `ParkingSpaceService.LoadCsv` | src/backend/backend-postgresql-api/src/main/java/org/gradle/backendpostgresqlapi/service/ParkingSpaceService.java:97-109 | the table after the loop equals the fold of `CsvStep` over the records |
| `ParkingSpaceService.LoadCsvKeepsPolygonsUnique` | src/backend/backend-postgresql-api/src/main/java/org/gradle/backendpostgresqlapi/service/ParkingSpaceService.java:100-107 | loading keeps the table free of two `ST_Equals` polygons |
| `ParkingSpaceService.RepeatedPolygonStoredOnce` | src/backend/backend-postgresql-api/src/main/java/org/gradle/backendpostgresqlapi/service/ParkingSpaceService.java:100-107 | two equal polygons in one file add at most one row |
| `ParkingSpaceService.LexMaxIndex` | src/backend/backend-postgresql-api/src/main/java/org/gradle/backendpostgresqlapi/service/ParkingSpaceService.java:184 | `Collections.max` by timestamp text: no element's text is greater, and the first such element is picked |
| `ParkingSpaceService.MostRecentTimestamp` | src/backend/backend-postgresql-api/src/main/java/org/gradle/backendpostgresqlapi/service/ParkingSpaceService.java:178-200 | null iff both lists are empty; the maximum of the only non-empty list; with both non-empty, fails iff a chosen text does not parse, and otherwise returns the first list's maximum when its instant is strictly later and the original list's maximum when it is not |
| `ParkingSpaceService.TiesGoToOriginal` | src/backend/backend-postgresql-api/src/main/java/org/gradle/backendpostgresqlapi/service/ParkingSpaceService.java:191-199 | the first list's maximum wins only when strictly later; ties go to the original list |
| `ParkingSpaceService.StringOrderIsNotChronological` | src/backend/backend-postgresql-api/src/main/java/org/gradle/backendpostgresqlapi/service/ParkingSpaceService.java:184-192 | as written: of "31.01.2023" and "01.12.2024" the earlier date is selected |
| `ParkingSpaceService.MostRecentByInstant` | src/backend/backend-postgresql-api/src/main/java/org/gradle/backendpostgresqlapi/service/ParkingSpaceService.java:178-200 | corrected: the latest parsed instant over both lists, failing iff some text does not parse; a result not in the original list is strictly later than every original entry, so ties go to the original list |
| `ParkingSpaceService.IntendedSelectionIsChronological` | src/backend/backend-postgresql-api/src/main/java/org/gradle/backendpostgresqlapi/service/ParkingSpaceService.java:194-199 | corrected selection picks the 2024 entry on the same input |
| `EditedService.ConvertToEditedParkingSpace` | src/backend/backend-postgresql-api/src/main/java/org/gradle/backendpostgresqlapi/service/EditedParkingSpaceService.java:154-157 | the copy references the source id and carries its polygon, area, capacity and position; it is not occupied (the column default) |
| `EditedService.CopyStep` | src/backend/backend-postgresql-api/src/main/java/org/gradle/backendpostgresqlapi/service/EditedParkingSpaceService.java:46-61 | id i: missing throws; already referenced counts a duplicate; otherwise one new copy carrying i, polygon, area, capacity, position, unoccupied |
| `EditedService.CopyDataIntoDatabase` | src/backend/backend-postgresql-api/src/main/java/org/gradle/backendpostgresqlapi/service/EditedParkingSpaceService.java:41-68 | the edited table after the loop equals the fold `CopyUpTo` over ids 1..count; success iff no id was missing, returning the duplicate count |
| `EditedService.CopyKeepsReferencesUnique` | src/backend/backend-postgresql-api/src/main/java/org/gradle/backendpostgresqlapi/service/EditedParkingSpaceService.java:51-57 | the copy never creates a second edited space referencing the same parking space |
| `EditedService.CopyReferencesAll` | src/backend/backend-postgresql-api/src/main/java/org/gradle/backendpostgresqlapi/service/EditedParkingSpaceService.java:45-61 | a copy that did not throw references every id 1..k |
| `EditedService.CopyIdempotent` | src/backend/backend-postgresql-api/src/main/java/org/gradle/backendpostgresqlapi/service/EditedParkingSpaceService.java:51-57 | a second run over unchanged parking spaces adds nothing and counts every space as a duplicate |
| `EditedService.CopyFailureKeepsEarlierCopies` | src/backend/backend-postgresql-api/src/main/java/org/gradle/backendpostgresqlapi/service/EditedParkingSpaceService.java:59-61 | a failed copy stopped at the first missing id, and the copies for earlier ids remain |
| `EditedService.IsOccupied` | src/backend/backend-postgresql-api/src/main/java/org/gradle/backendpostgresqlapi/service/EditedParkingSpaceService.java:109-123 | the nested loops with `break` return true iff some point of the space has some timestamp younger than 180 days |
| `EditedService.UpdateOccupancyStatusForAllSpaces` | src/backend/backend-postgresql-api/src/main/java/org/gradle/backendpostgresqlapi/service/EditedParkingSpaceService.java:106-132 | every edited space gets the computed status, nothing else changes; exactly the spaces whose status changed are saved |
| `EditedService.NoPointsMeansUnoccupied` | src/backend/backend-postgresql-api/src/main/java/org/gradle/backendpostgresqlapi/service/EditedParkingSpaceService.java:109-110 | a space with no assigned points is not occupied |
| `EditedService.ThresholdIsStrict` | src/backend/backend-postgresql-api/src/main/java/org/gradle/backendpostgresqlapi/service/EditedParkingSpaceService.java:33 | a space whose points only have timestamps at least 180 days old is not occupied; exactly 180 days does not count |
| `EditedService.UpdatePolygonCoordinates` | src/backend/backend-postgresql-api/src/main/java/org/gradle/backendpostgresqlapi/service/EditedParkingSpaceService.java:138-152 | absent id: false, nothing changes; present: only the polygon is replaced (area not recomputed), true |
| `EditedService.GetNeighbors` | src/backend/backend-postgresql-api/src/main/java/org/gradle/backendpostgresqlapi/service/EditedParkingSpaceService.java:159-164 | fails iff the id is absent; otherwise exactly the other spaces touching it, never the id itself |
| `ParkingPointService.IsPointUnique` | src/backend/backend-postgresql-api/src/main/java/org/gradle/backendpostgresqlapi/service/ParkingPointService.java:86-97 | -1 iff no stored point has equal coordinates, else the id of one that has |
| `ParkingPointService.AssignedSpace` | src/backend/backend-postgresql-api/src/main/java/org/gradle/backendpostgresqlapi/service/ParkingPointService.java:63-68 | a containing edited space's id, or -1 iff no edited space contains the point |
| `ParkingPointService.Step` | src/backend/backend-postgresql-api/src/main/java/org/gradle/backendpostgresqlapi/service/ParkingPointService.java:55-77 | duplicate: no point saved, counter +1, instant recorded for the existing id; new: saved once under a fresh id with its space, instant recorded for that id; earlier rows unchanged; the timestamp table is `Saved` of the old one for that id, so at most one row is added |
| `ParkingPointService.LoadParkingPoints` | src/backend/backend-postgresql-api/src/main/java/org/gradle/backendpostgresqlapi/service/ParkingPointService.java:52-84 | the two tables and the counter after the loop equal the fold `Ingest` over the entries |
| `ParkingPointService.IngestKeepsPointsDistinct` | src/backend/backend-postgresql-api/src/main/java/org/gradle/backendpostgresqlapi/service/ParkingPointService.java:54-78 | no two stored points end up with equal coordinates |
| `ParkingPointService.IngestKeepsTimestampsDistinct` | src/backend/backend-postgresql-api/src/main/java/org/gradle/backendpostgresqlapi/service/ParkingPointService.java:54-78 | the load never stores the same instant twice for the same point |
| `ParkingPointService.IngestAccountsForEveryEntry` | src/backend/backend-postgresql-api/src/main/java/org/gradle/backendpostgresqlapi/service/ParkingPointService.java:57-75 | every entry either adds one point or raises `duplicatePoints` |
| `ParkingPointService.IngestRecordsEveryEntry` | src/backend/backend-postgresql-api/src/main/java/org/gradle/backendpostgresqlapi/service/ParkingPointService.java:77 | every entry's instant is recorded for the stored point with its coordinates, new or duplicate |
| `TimestampService.Saved` | src/backend/backend-postgresql-api/src/main/java/org/gradle/backendpostgresqlapi/service/TimestampService.java:36-41 | at most one row added, existing rows unchanged; a row is added iff the timestamp has a point and that (point, instant) is not stored |
| `TimestampService.SaveTimestamp` | src/backend/backend-postgresql-api/src/main/java/org/gradle/backendpostgresqlapi/service/TimestampService.java:36-41 | the timestamp table becomes `Saved` of the old one; nothing else changes |
| `TimestampService.SavedKeepsNoDuplicates` | src/backend/backend-postgresql-api/src/main/java/org/gradle/backendpostgresqlapi/service/TimestampService.java:38-39 | saving keeps (point, instant) pairs unique |
| `TimestampService.SavedIdempotent` | src/backend/backend-postgresql-api/src/main/java/org/gradle/backendpostgresqlapi/service/TimestampService.java:38-39 | saving the same timestamp twice equals saving it once |
| `TimestampService.SavedWithoutPoint` | src/backend/backend-postgresql-api/src/main/java/org/gradle/backendpostgresqlapi/service/TimestampService.java:38 | a timestamp without a parking point is never stored |
| `TimestampService.SavedTwiceOneRow` | src/backend/backend-postgresql-api/src/main/java/org/gradle/backendpostgresqlapi/service/TimestampService.java:38-39 | after saving the same (point, instant) twice exactly one row records it |
| `TimestampPointService.IsPointUnique` | src/backend/backend-postgresql-api/src/main/java/org/gradle/backendpostgresqlapi/service/TimestampPointService.java:75-83 | unique iff no stored entry has the same instant text and coordinates |
| `TimestampPointService.Step` | src/backend/backend-postgresql-api/src/main/java/org/gradle/backendpostgresqlapi/service/TimestampPointService.java:53-66 | duplicate: skipped and counted; otherwise stored once under a fresh id with the containing space or -1 |
| `TimestampPointService.LoadTimestampPoints` | src/backend/backend-postgresql-api/src/main/java/org/gradle/backendpostgresqlapi/service/TimestampPointService.java:50-73 | the table and the counter after the loop equal the fold `Load` over the entries |
| `TimestampPointService.LoadKeepsEntriesDistinct` | src/backend/backend-postgresql-api/src/main/java/org/gradle/backendpostgresqlapi/service/TimestampPointService.java:53-66 | no two stored entries share instant and coordinates |
| `TimestampPointService.LoadAccountsForEveryEntry` | src/backend/backend-postgresql-api/src/main/java/org/gradle/backendpostgresqlapi/service/TimestampPointService.java:51-71 | `duplicatePoints` is exactly the number of entries not stored |
| `TimestampPointService.NewInstantStored` | src/backend/backend-postgresql-api/src/main/java/org/gradle/backendpostgresqlapi/repository/TimestampPointRepo.java:18-19 | the same coordinates at a new instant are stored as a separate entry |
| `OverlappingService.CreateAndSaveOverlappingParkingSpace` | src/backend/backend-postgresql-api/src/main/java/org/gradle/backendpostgresqlapi/service/OverlappingParkingSpaceService.java:33-39 | exactly one shadow row added with the candidate's polygon, capacity, position, centroid and the existing space as parent; parking spaces untouched |
| `OverlappingService.DoesOverlappingSpaceExistByCentroid` | src/backend/backend-postgresql-api/src/main/java/org/gradle/backendpostgresqlapi/service/OverlappingParkingSpaceService.java:41-43 | true iff some stored shadow has that centroid |
| `OverlappingService.ShadowFoundByCentroid` | src/backend/backend-postgresql-api/src/main/java/org/gradle/backendpostgresqlapi/service/OverlappingParkingSpaceService.java:38-43 | after inserting a shadow with a centroid, the existence query finds it, and later inserts never hide it |
| `JsonHandler.Get` | src/backend/backend-postgresql-api/src/main/java/org/gradle/backendpostgresqlapi/util/JsonHandler.java:84-86 | `get(i)` yields a node iff the node is an array and i is in range |
| `JsonHandler.ReadCoordinate` | src/backend/backend-postgresql-api/src/main/java/org/gradle/backendpostgresqlapi/util/JsonHandler.java:85-86 | a coordinate pair fails iff the node is not an array of at least two items |
| `JsonHandler.ReadCoordinatesAt` | src/backend/backend-postgresql-api/src/main/java/org/gradle/backendpostgresqlapi/util/JsonHandler.java:84-88 | the i-th coordinate read is the pair at position i |
| `JsonHandler.Close` | src/backend/backend-postgresql-api/src/main/java/org/gradle/backendpostgresqlapi/util/JsonHandler.java:90-93 | first coordinate equals last; the input is a prefix; a closed ring is unchanged, an open one gets exactly its first coordinate appended |
| `JsonHandler.CloseIdempotent` | src/backend/backend-postgresql-api/src/main/java/org/gradle/backendpostgresqlapi/util/JsonHandler.java:90-93 | closing twice equals closing once |
| `JsonHandler.JsonNodeToPolygon` | src/backend/backend-postgresql-api/src/main/java/org/gradle/backendpostgresqlapi/util/JsonHandler.java:82-97 | the loop over the outer ring, the closing and the JTS ring check equal `ToPolygon`: a missing ring or pair is NullPointer, an empty ring IndexOutOfBounds, a closed ring under three points (JTS 1.18+) IllegalArgument, otherwise the closed ring |
| `JsonHandler.ToPolygonShape` | src/backend/backend-postgresql-api/src/main/java/org/gradle/backendpostgresqlapi/util/JsonHandler.java:83-96 | a result is a closed ring of at least `MinRingSize` = 3 points (JTS 1.18+ `LinearRing.MINIMUM_VALID_SIZE`) starting with the outer ring's coordinates; an empty outer ring is IndexOutOfBounds |
| `JsonHandler.OnlyOuterRingRead` | src/backend/backend-postgresql-api/src/main/java/org/gradle/backendpostgresqlapi/util/JsonHandler.java:84 | holes after `coordinates[0]` make no difference |
| `JsonHandler.TwoPointRingIsBuilt` | src/backend/backend-postgresql-api/src/main/java/org/gradle/backendpostgresqlapi/util/JsonHandler.java:90-96 | an outer ring of two distinct positions, such as `[[0,0],[1,1]]`, is closed to three points and built, under the JTS 1.18+ three-point ring minimum |
| `JsonHandler.OnePointRingIsRejected` | src/backend/backend-postgresql-api/src/main/java/org/gradle/backendpostgresqlapi/util/JsonHandler.java:90-96 | an outer ring of one position is already closed and has fewer than three points: `IllegalArgumentException` from JTS |
| `JsonHandler.GetPolygonsFromGeoJson` | src/backend/backend-postgresql-api/src/main/java/org/gradle/backendpostgresqlapi/util/JsonHandler.java:62-74 | the loop over features equals `PolygonsOf`, failing at the first feature that fails |
| `JsonHandler.PolygonsOfAt` | src/backend/backend-postgresql-api/src/main/java/org/gradle/backendpostgresqlapi/util/JsonHandler.java:67-73 | one polygon per feature, in feature order |
| `JsonHandler.PolygonToJson` | src/backend/backend-postgresql-api/src/main/java/org/gradle/backendpostgresqlapi/util/JsonHandler.java:99-116 | null iff the polygon is null; otherwise head, comma-joined coordinates without trailing comma, tail |
| `JsonHandler.TrailingComma` | src/backend/backend-postgresql-api/src/main/java/org/gradle/backendpostgresqlapi/util/JsonHandler.java:105-112 | the builder ends in a comma iff there was a coordinate, and deleting it leaves the joined text |
| `JsonHandler.PolygonJsonShape` | src/backend/backend-postgresql-api/src/main/java/org/gradle/backendpostgresqlapi/util/JsonHandler.java:102-115 | no coordinates give `{"coordinates": []}`; no comma precedes the closing bracket |
| `DataLoader.FilesPartition` | src/backend/backend-postgresql-api/src/main/java/org/gradle/backendpostgresqlapi/util/DataLoaderUtil.java:29-44 | the two filters split the paths: every path is in exactly one, as often as configured |
| `DataLoader.SpaceFileAction` | src/backend/backend-postgresql-api/src/main/java/org/gradle/backendpostgresqlapi/util/DataLoaderUtil.java:30-36 | the switch gives a GeoJSON load, a CSV load or a warning, always for the file itself (each case as an iff in `SpaceFileRouting`) |
| `DataLoader.TimestampFileAction` | src/backend/backend-postgresql-api/src/main/java/org/gradle/backendpostgresqlapi/util/DataLoaderUtil.java:45-49 | a point load or a warning, always for the file itself (the iff in `TimestampFileRouting`) |
| `DataLoader.SpaceFileRouting` | src/backend/backend-postgresql-api/src/main/java/org/gradle/backendpostgresqlapi/util/DataLoaderUtil.java:30-36 | geojson / csv / anything else, by lower-cased extension, each iff |
| `DataLoader.TimestampFileRouting` | src/backend/backend-postgresql-api/src/main/java/org/gradle/backendpostgresqlapi/util/DataLoaderUtil.java:45-49 | a timestamp file is loaded iff its extension equals geojson ignoring case, else only a warning |
| `DataLoader.LoadFromParkingSpacesFiles` | src/backend/backend-postgresql-api/src/main/java/org/gradle/backendpostgresqlapi/util/DataLoaderUtil.java:27-41 | one routed action per parking-space file in order, then the copy |
| `DataLoader.LoadFromTimestampFiles` | src/backend/backend-postgresql-api/src/main/java/org/gradle/backendpostgresqlapi/util/DataLoaderUtil.java:43-51 | one routed action per timestamp file, in order |
| `DataLoader.LoadDataIntoDatabase` | src/backend/backend-postgresql-api/src/main/java/org/gradle/backendpostgresqlapi/util/DataLoaderUtil.java:17-25 | the actions are `LoadTrace`: a warning only for an empty or null list, else spaces, copy, timestamps |
| `DataLoader.NothingConfiguredLoadsNothing` | src/backend/backend-postgresql-api/src/main/java/org/gradle/backendpostgresqlapi/util/DataLoaderUtil.java:19-24 | an empty or null list loads and copies nothing |
| `DataLoader.PhasesShape` | src/backend/backend-postgresql-api/src/main/java/org/gradle/backendpostgresqlapi/util/DataLoaderUtil.java:20-21 | for any file lists and routings that only load or warn about the file at hand, the copy sits exactly between the two phases and every load names a file of its own phase |
| `DataLoader.CopyRunsOnceBetweenPhases` | src/backend/backend-postgresql-api/src/main/java/org/gradle/backendpostgresqlapi/util/DataLoaderUtil.java:20-21 | when no loader throws, the copy runs exactly once, after every parking-space file and before every timestamp file |
| `DataLoader.FilesGoToTheirLoader` | src/backend/backend-postgresql-api/src/main/java/org/gradle/backendpostgresqlapi/util/DataLoaderUtil.java:29-48 | a space loader only sees non-timestamp paths and the point loader only timestamp paths, all from the list |
| `DataLoader.UpperCaseGeoJsonIsLoaded` | src/backend/backend-postgresql-api/src/main/java/org/gradle/backendpostgresqlapi/util/DataLoaderUtil.java:30-33 | "a.GeoJSON" goes to the GeoJSON loader |
| `DataLoader.UpperCaseCsvIsLoaded` | src/backend/backend-postgresql-api/src/main/java/org/gradle/backendpostgresqlapi/util/DataLoaderUtil.java:30-34 | "spaces.CSV" goes to the CSV loader |
| `DataLoader.OtherExtensionIsOnlyReported` | src/backend/backend-postgresql-api/src/main/java/org/gradle/backendpostgresqlapi/util/DataLoaderUtil.java:35 | "spaces.txt" is only reported |
| `DataLoader.DotInDirectoryIsNoExtension` | src/backend/backend-postgresql-api/src/main/java/org/gradle/backendpostgresqlapi/util/DataLoaderUtil.java:30 | a dot in a directory name is no extension |
| `DataLoader.UpperCaseTimestampFileIsLoaded` | src/backend/backend-postgresql-api/src/main/java/org/gradle/backendpostgresqlapi/util/DataLoaderUtil.java:45-48 | "t.GEOJSON" is loaded as timestamps |
| `Strings.GetExtension` | src/backend/backend-postgresql-api/src/main/java/org/gradle/backendpostgresqlapi/util/DataLoaderUtil.java:30 | the text after the last dot not followed by a separator, empty when there is none |
| `Strings.ToUpperIdempotent` | src/backend/backend-postgresql-api/src/main/java/org/gradle/backendpostgresqlapi/enums/ParkingPosition.java:19 | upper-casing twice is upper-casing once |
| `Strings.LexLessTotal` | src/backend/backend-postgresql-api/src/main/java/org/gradle/backendpostgresqlapi/service/ParkingSpaceService.java:184 | `compareTo` orders any two distinct strings |
| `Strings.LexLessTransitive` | src/backend/backend-postgresql-api/src/main/java/org/gradle/backendpostgresqlapi/service/ParkingSpaceService.java:184 | `compareTo` order is transitive |
| `GeospatialService.LoadDataIntoDatabase` | src/backend/backend-postgresql-api/src/main/java/org/gradle/backendpostgresqlapi/service/GeospatialService.java:56-74 | every path, timestamp files included, routed by lower-cased extension; empty or null list only warns |
| `GeospatialService.EveryPathRoutedOnce` | src/backend/backend-postgresql-api/src/main/java/org/gradle/backendpostgresqlapi/service/GeospatialService.java:60-69 | one action per path, in order, and no copy |
| `GeospatialService.LoadGeoJson` | src/backend/backend-postgresql-api/src/main/java/org/gradle/backendpostgresqlapi/service/GeospatialService.java:83-90 | every polygon is inserted with no duplicate check; a conversion failure inserts nothing |
| `GeospatialService.LoadCsv` | src/backend/backend-postgresql-api/src/main/java/org/gradle/backendpostgresqlapi/service/GeospatialService.java:100-107 | every record is saved as it is, with no duplicate check |
| `GeospatialService.GeoJsonLoadKeepsDuplicates` | src/backend/backend-postgresql-api/src/main/java/org/gradle/backendpostgresqlapi/service/GeospatialService.java:86-88 | each polygon, repeated ones too, gets its own row at consecutive fresh ids |
| `GeospatialService.UpdateOccupancyStatus` | src/backend/backend-postgresql-api/src/main/java/org/gradle/backendpostgresqlapi/service/GeospatialService.java:141-150 | absent id: false, nothing changes; present: only `occupied` is set and saved, true |
| `GeospatialService.AreaOf` | src/backend/backend-postgresql-api/src/main/java/org/gradle/backendpostgresqlapi/service/GeospatialService.java:152-154 | present iff the id exists, and then it is the stored area (as a number; the source returns its `Double.toString` text) |
| `GeospatialService.OccupancyUpdateKeepsAreas` | src/backend/backend-postgresql-api/src/main/java/org/gradle/backendpostgresqlapi/service/GeospatialService.java:141-154 | changing occupancy leaves every area as it was |
| `DtoConverter.EditedToDto` | src/backend/backend-postgresql-api/src/main/java/org/gradle/backendpostgresqlapi/util/DtoConverterUtil.java:12-27 | fails iff capacity is absent (unboxing into `int`); the position is set iff the entity has one |
| `DtoConverter.EditedRoundTrip` | src/backend/backend-postgresql-api/src/main/java/org/gradle/backendpostgresqlapi/util/DtoConverterUtil.java:13-24 | the id and the whole edited space can be read back from the DTO, position through its display name |
| `DtoConverter.PointToDto` | src/backend/backend-postgresql-api/src/main/java/org/gradle/backendpostgresqlapi/util/DtoConverterUtil.java:29-37 | the DTO has the point's id, its edited space's id and the point as its single coordinate |
| `DtoConverter.PointToDtoInjective` | src/backend/backend-postgresql-api/src/main/java/org/gradle/backendpostgresqlapi/util/DtoConverterUtil.java:29-37 | the point DTO determines id, assigned space and point |
| `DtoConverter.TimestampToDto` | src/backend/backend-postgresql-api/src/main/java/org/gradle/backendpostgresqlapi/util/DtoConverterUtil.java:39-47 | fails iff the timestamp has no parking point |
| `DtoConverter.TimestampRoundTrip` | src/backend/backend-postgresql-api/src/main/java/org/gradle/backendpostgresqlapi/util/DtoConverterUtil.java:40-44 | id, parking-point id and timestamp text are copied unchanged |
| `ParkingPositions.FromString` | src/backend/backend-postgresql-api/src/main/java/org/gradle/backendpostgresqlapi/enums/ParkingPosition.java:17-25 | a failure carries the input string |
| `ParkingPositions.FromStringAccepts` | src/backend/backend-postgresql-api/src/main/java/org/gradle/backendpostgresqlapi/enums/ParkingPosition.java:18-23 | succeeds iff the upper-cased input is SCHRÄG, LÄNGS, LÄNGE or QUER, mapping to SCHRAEG, LAENGS, LAENGS, QUER |
| `ParkingPositions.FromStringIgnoresCase` | src/backend/backend-postgresql-api/src/main/java/org/gradle/backendpostgresqlapi/enums/ParkingPosition.java:19 | a string and its upper-cased form parse alike |
| `ParkingPositions.FromStringExamples` | src/backend/backend-postgresql-api/src/main/java/org/gradle/backendpostgresqlapi/enums/ParkingPosition.java:19-23 | "schräg", "Länge", "quer" parse; the ASCII spellings SCHRAEG and LAENGS throw |
| `ParkingPositions.DisplayName` | src/backend/backend-postgresql-api/src/main/java/org/gradle/backendpostgresqlapi/enums/ParkingPosition.java:7-15 | each constant's display name is one of Diagonal, Parallel, Transverse (distinct per constant by `DisplayNamesDistinct`) |
| `ParkingPositions.DisplayNamesDistinct` | src/backend/backend-postgresql-api/src/main/java/org/gradle/backendpostgresqlapi/enums/ParkingPosition.java:7-9 | Diagonal/Parallel/Transverse tell the constants apart |
| `ParkingPositionEnums.FromString` | src/backend/backend-postgresql-api/src/main/java/org/gradle/backendpostgresqlapi/entity/ParkingPositionEnum.java:17-25 | a failure carries the input string |
| `ParkingPositionEnums.DisplayName` | src/backend/backend-postgresql-api/src/main/java/org/gradle/backendpostgresqlapi/entity/ParkingPositionEnum.java:7-15 | each constant displays as the same constant of `enums.ParkingPosition` |
| `ParkingPositionEnums.SameAsParkingPosition` | src/backend/backend-postgresql-api/src/main/java/org/gradle/backendpostgresqlapi/entity/ParkingPositionEnum.java:7-25 | parses every string and displays every constant exactly as `enums.ParkingPosition` |

## Left out

- Geometry arithmetic (JTS/PostGIS area, intersection, centroid, `ST_Equals`, `ST_Contains`, `ST_Touches`, distance ordering) is floating point and is taken as uninterpreted functions.
- `JsonHandler.ToPolygon` assumes the ring rule of JTS 1.18 and later: a closed ring needs at least three points (`LinearRing.MINIMUM_VALID_SIZE`). The source does not pin the JTS version; the Jakarta Persistence imports (entity/ParkingSpace.java:4) point to Hibernate 6, whose spatial module ships JTS 1.19. Under JTS before 1.18 the minimum is four, and a closed three-point ring would throw `IllegalArgumentException` where the model builds it. Polygons are not validated either: JTS `intersection` on a self-crossing polygon can throw `TopologyException`, which `loadPolygons` does not catch (service/ParkingSpaceService.java:130 catches only `ParseException`) and which would end the load. The `GeometryOracle` functions never fail, so the model does not capture that abort.
- Area rounding to two decimals and `updateAreaColumn` / `calculateAndUpdateAreaColumn` are SQL updates. They are not modelled, so a new row's area stays 0 as inserted.
- Date parsing, formatting and the current time are not modelled. Occupancy takes `daysPassed` as a function argument. `getMostRecentTimestamp` takes the parser as a function to `Option<int>`. `convertTimestampToDateFormat` is left out.
- `EditedService.IsOccupied` and `EditedService.UpdateOccupancyStatusForAllSpaces` take `daysPassed` as a total function. `calculateDifferenceInDays` throws on text `LocalDateTime.parse` rejects (util/DateConverterUtil.java:32-36), which aborts the occupancy update part-way; the model has no such abort.
- Reading files, CSV and WKT parsing, and Jackson's `readTree` are I/O or library parsing. The loaders take the parsed records or JSON tree as input. A WKT `ParseException` is the `Unparsable` lookup outcome.
- `convertJsonNodeToPolygon`, called by `updatePolygonCoordinates`, is not part of this model. The method takes the converted polygon.
- Logging, HTTP controllers, startup wiring, index and table creation, and the frontend are outside the core.
- Several calls reach methods that the shown classes do not declare: `Timestamp.getParkingPoint`, `ParkingPoint.getEditedParkingSpace`, `ParkingPointService.loadGeoJson`, `OverlappingParkingSpaceRepo.insertParkingSpace` and `existsByCentroid`. So do `EditedParkingSpace.getParkingPoints()` and `ParkingPoint.getTimestamps()`: neither entity has such a field. They are modelled by what their names say: the point id field, the space id field, a recorded load action, a table insert and an existence query. In place of the two getters, `EditedService.IsOccupied` reads the points whose `editedParkingSpaceId` is the space and the timestamps whose `parkingPoint` is the point, in id order.
- Three more calls have no declaration in the shown classes. `convertToEditedParkingSpace` uses a five-argument `EditedParkingSpace` constructor, but the entity declares only the no-argument one. The model builds the copy from those five fields with `occupied` false, the column default. `ParkingSpace` declares only `id`, `geoJson` and `occupied`, yet the services read its polygon, area, capacity, position and centroid. The model's `ParkingSpace` carries those fields. `GeospatialService` calls `GeospatialRepo.insertParkingSpaceFromPolygon` and `saveParkingSpace`, which the repository does not declare. The model treats both as a table insert.
- `JsonHandler.ReadCoordinate` reads a text-valued coordinate such as `"1.5"` as 0. Jackson's `asDouble` parses the text, so such a coordinate reads as 1.5 in the source. Number parsing is not modelled.
- `Strings.LexLess` compares code points. Java's `compareTo` compares UTF-16 units, and the two differ only for characters above U+FFFF.
- `DataLoader.LoadDataIntoDatabase` and `GeospatialService.LoadDataIntoDatabase` record which loader each file is routed to, as a list of actions. They do not run the loaders on file contents, because reading a file is I/O.
- `DataLoader.CopyRunsOnceBetweenPhases` holds only when no loader throws. In the source an exception from a parking-space loader (an `IOException` for a missing file, a CSV error, or the `NoSuchElementException` that `ParkingSpaceService.LoadPolygons` models as an abort) leaves `loadDataIntoDatabase` at that file (util/DataLoaderUtil.java:20-21, :29-40). The later files, the copy and the whole timestamp phase are then skipped. `DataLoader.LoadTrace` records only the routing, so it always holds the copy and every timestamp file; the same holds for `GeospatialService.LoadDataIntoDatabase` and its loaders.
- `ParkingSpaceService.PlaceCandidate` and `ParkingSpaceService.NeighbourStep` store the overlapping candidate as a successful shadow row with no centroid and no parent. `insertOverlappingParkingSpaceFromPolygon` (repository/OverlappingParkingSpaceRepo.java:22-26) sets only the polygon, while `OverlappingParkingSpace` declares `ops_centroid` and `ops_ps_id` with `nullable = false` (entity/OverlappingParkingSpace.java:34, :38). The real insert is therefore expected to be rejected, which would end the polygon load at that point. The model does not represent database constraints.
- `Geometry.Polygon` holds only the shell ring; holes are not represented. Polygons read from GeoJSON have none (only `coordinates[0]` is read), but polygons from CSV WKT or given to `updatePolygonCoordinates` may. For those, `JsonHandler.PolygonToJson` and `DtoConverter.EditedToDto` omit the hole coordinates that `getCoordinates()` includes in the source (util/JsonHandler.java:105, util/DtoConverterUtil.java:16).
- `Strings.ToUpper`, `Strings.ToLower` and `Strings.EqualsIgnoreCase` cover ASCII and Latin-1 letters only, plus the long s and the dotless i for upper-casing. `Strings.ToUpper` maps ÿ (U+00FF) to U+0178 and µ (U+00B5) to U+039C as Java does, but `Strings.ToLower` does not map U+0178 or U+039C back. There are no multi-character expansions such as ß to "SS", and no locale rules.
- `EditedService.IsOccupied` does not depend on the order in which points and timestamps are visited; the model visits them in id order.
- `EditedService.GetNeighbors` returns a set of ids. The order of the SQL result list is not modelled.
- Concurrency and transactions are not modelled. Every service runs as one sequential writer.

## Findings

| source | as written | input that shows it | evidently intended | confidence | as-written member | corrected member |
|---|---|---|---|---|---|---|
| src/backend/backend-postgresql-api/src/main/java/org/gradle/backendpostgresqlapi/service/ParkingSpaceService.java:184-192 | the maximum of each list is taken by string order of "dd.MM.yyyy HH:mm:ss" text | "31.01.2023 00:00:00" and "01.12.2024 00:00:00" in one list: the 2023 entry is selected | the most recent instant by parsed date | not executed | `ParkingSpaceService.StringOrderIsNotChronological` | `ParkingSpaceService.MostRecentByInstant` |
