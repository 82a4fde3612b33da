/** The native queries of the Spring Data repositories, as functions of the table they
    read. Geometry predicates are those of the `GeometryOracle`; points are compared
    by their coordinates. */
module Repositories {
  import opened Wrappers
  import opened Geometry
  import opened Tables
  import opened Entities

  /** `ParkingSpaceRepo.countSamePolygons`: the number of stored parking spaces whose
      polygon is spatially equal to `polygon`. */
  function CountSamePolygons(t: Table<ParkingSpace>, g: GeometryOracle, polygon: Polygon): (n: nat)
    ensures n == 0 <==> forall k | k in t.rows :: !g.equalsGeom(t.rows[k].polygon, polygon)
  {
    var same := set k | k in t.rows && g.equalsGeom(t.rows[k].polygon, polygon);
    assert (forall k | k in t.rows :: !(g.equalsGeom(t.rows[k].polygon, polygon))) ==> same == {} by {
      if forall k | k in t.rows :: !(g.equalsGeom(t.rows[k].polygon, polygon)) {
        NoMemberEmpty(same);
      }
    }
    assert forall k | k in t.rows && g.equalsGeom(t.rows[k].polygon, polygon) :: k in same;
    |same|
  }

  /** `EditedParkingSpaceRepo.getIdByPointWithin`: an edited space whose polygon
      contains `p` (the first in id order, as `LIMIT 1` returns one row), if any. */
  function SpaceContaining(t: Table<EditedParkingSpace>, g: GeometryOracle, p: Point): (r: Option<int>)
    requires t.Valid()
    ensures r.Some? ==> r.value in t.rows && g.contains(t.rows[r.value].polygon, p)
    ensures r.None? <==> forall k | k in t.rows :: !g.contains(t.rows[k].polygon, p)
  {
    var ids := set k | k in t.rows && g.contains(t.rows[k].polygon, p);
    assert forall k | k in t.rows && g.contains(t.rows[k].polygon, p) :: k in ids;
    FirstIn(ids, 1, t.nextId)
  }

  /** `EditedParkingSpaceRepo.existsByParkingSpaceId`. */
  predicate ExistsByParkingSpaceId(t: Table<EditedParkingSpace>, id: int)
  {
    exists k | k in t.rows :: t.rows[k].parkingSpaceId == id
  }

  /** `EditedParkingSpaceRepo.findNeighborIds`: the other edited spaces whose polygon
      touches the polygon of space `id`. */
  function NeighborIds(t: Table<EditedParkingSpace>, g: GeometryOracle, id: int): (ids: set<int>)
    ensures id !in ids
    ensures id !in t.rows ==> ids == {}
    ensures forall k | k in ids :: k in t.rows && id in t.rows && g.touches(t.rows[id].polygon, t.rows[k].polygon)
    ensures id in t.rows ==> forall k | k in t.rows && k != id && g.touches(t.rows[id].polygon, t.rows[k].polygon) :: k in ids
  {
    if id in t.rows then
      set k | k in t.rows && k != id && g.touches(t.rows[id].polygon, t.rows[k].polygon)
    else {}
  }

  /** `ParkingPointRepo.getIdOfDuplicateByCoordinates`: a stored point with the same
      coordinates (the first in id order), if any. */
  function DuplicatePointId(t: Table<ParkingPoint>, p: Point): (r: Option<int>)
    requires t.Valid()
    ensures r.Some? ==> r.value in t.rows && t.rows[r.value].point == p
    ensures r.None? <==> forall k | k in t.rows :: t.rows[k].point != p
  {
    var ids := set k | k in t.rows && t.rows[k].point == p;
    assert forall k | k in t.rows && t.rows[k].point == p :: k in ids;
    FirstIn(ids, 1, t.nextId)
  }

  /** `TimestampRepo.getMaxOneDuplicate`: the number of stored timestamps recording
      instant `timestamp` for parking point `id`. */
  function CountTimestampDuplicates(t: Table<Timestamp>, id: int, timestamp: string): (n: nat)
    ensures n == 0 <==> forall k | k in t.rows :: t.rows[k] != Timestamp(Some(id), timestamp)
  {
    var same := set k | k in t.rows && t.rows[k] == Timestamp(Some(id), timestamp);
    assert (forall k | k in t.rows :: !(t.rows[k] == Timestamp(Some(id), timestamp))) ==> same == {} by {
      if forall k | k in t.rows :: !(t.rows[k] == Timestamp(Some(id), timestamp)) {
        NoMemberEmpty(same);
      }
    }
    assert forall k | k in t.rows && t.rows[k] == Timestamp(Some(id), timestamp) :: k in same;
    |same|
  }

  /** `TimestampPointRepo.getMaxOneDuplicate`: the number of stored timestamp points with
      instant `timestamp` at the coordinates of `p`. */
  function CountTimestampPointDuplicates(t: Table<TimestampPoint>, timestamp: string, p: Point): (n: nat)
    ensures n == 0 <==> forall k | k in t.rows :: !(t.rows[k].timestamp == timestamp && t.rows[k].point == p)
  {
    var same := set k | k in t.rows && t.rows[k].timestamp == timestamp && t.rows[k].point == p;
    assert (forall k | k in t.rows :: !(t.rows[k].timestamp == timestamp && t.rows[k].point == p)) ==> same == {} by {
      if forall k | k in t.rows :: !(t.rows[k].timestamp == timestamp && t.rows[k].point == p) {
        NoMemberEmpty(same);
      }
    }
    assert forall k | k in t.rows && t.rows[k].timestamp == timestamp && t.rows[k].point == p :: k in same;
    |same|
  }

  /** `OverlappingParkingSpaceRepo.existsByCentroid`. */
  predicate ExistsByCentroid(t: Table<OverlappingParkingSpace>, centroid: Point)
  {
    exists k | k in t.rows :: t.rows[k].centroid == Some(centroid)
  }
}
