/** The records of the four ingestion tables (plus `timestamp_points`) and the
    database that holds them. Each repository of the source is one `Table` field of
    `Database`; the services change those fields in place. */
module Entities {
  import opened Wrappers
  import opened Geometry
  import opened Tables
  import opened ParkingPositions

  /** The id a point receives when no edited space contains it. */
  const Unassigned: int := -1

  /** A row of `parking_spaces`. */
  datatype ParkingSpace = ParkingSpace(
    polygon: Polygon,
    area: real,
    capacity: Option<int>,
    position: Option<ParkingPosition>,
    occupied: bool,
    centroid: Option<Point>)

  /** A row of `edited_parking_spaces`: a copy of a parking space that users may edit. */
  datatype EditedParkingSpace = EditedParkingSpace(
    parkingSpaceId: int,
    polygon: Polygon,
    occupied: bool,
    area: real,
    capacity: Option<int>,
    position: Option<ParkingPosition>)

  /** A row of `overlapping_parking_spaces` (a shadow record); `parent` is the
      referenced parking space, absent when the insert did not set it. */
  datatype OverlappingParkingSpace = OverlappingParkingSpace(
    polygon: Polygon,
    capacity: Option<int>,
    position: Option<ParkingPosition>,
    centroid: Option<Point>,
    parent: Option<int>)

  /** A row of `parking_points`: an observed car position and the edited space it
      was assigned to (or `Unassigned`). */
  datatype ParkingPoint = ParkingPoint(editedParkingSpaceId: int, point: Point)

  /** A row of `timestamps`: an observation instant as text and the parking point it
      belongs to (absent when no point was set). */
  datatype Timestamp = Timestamp(parkingPoint: Option<int>, timestamp: string)

  /** A row of `timestamp_points`: a point observation carrying its own instant. */
  datatype TimestampPoint = TimestampPoint(editedParkingSpaceId: int, point: Point, timestamp: string)

  class Database {
    var spaces: Table<ParkingSpace>
    var edited: Table<EditedParkingSpace>
    var overlapping: Table<OverlappingParkingSpace>
    var points: Table<ParkingPoint>
    var timestamps: Table<Timestamp>
    var timestampPoints: Table<TimestampPoint>

    ghost predicate Valid()
      reads this
    {
      spaces.Valid() && edited.Valid() && overlapping.Valid() &&
      points.Valid() && timestamps.Valid() && timestampPoints.Valid()
    }

    /** A freshly created schema: every table is empty. */
    constructor ()
      ensures Valid()
      ensures spaces.rows == map[] && edited.rows == map[] && overlapping.rows == map[]
      ensures points.rows == map[] && timestamps.rows == map[] && timestampPoints.rows == map[]
    {
      spaces := EmptyTable();
      edited := EmptyTable();
      overlapping := EmptyTable();
      points := EmptyTable();
      timestamps := EmptyTable();
      timestampPoints := EmptyTable();
    }
  }
}
