/** `OverlappingParkingSpaceService`: shadow records of parking spaces that overlap an
    existing one. */
module OverlappingService {
  import opened Wrappers
  import opened Geometry
  import opened Tables
  import opened Entities
  import opened Repositories

  /** `createAndSaveOverlappingParkingSpace(newSpace, existing)`, the existing space being
      identified by its id `existingId`: one shadow row is added, carrying the candidate's
      polygon, capacity, position and centroid and referencing the existing space. */
  method CreateAndSaveOverlappingParkingSpace(db: Database, newSpace: ParkingSpace, existingId: int)
    requires db.Valid()
    modifies db`overlapping
    ensures db.Valid()
    ensures |db.overlapping.rows| == |old(db.overlapping.rows)| + 1
    ensures var id := old(db.overlapping.nextId);
      id in db.overlapping.rows &&
      db.overlapping.rows[id].polygon == newSpace.polygon &&
      db.overlapping.rows[id].capacity == newSpace.capacity &&
      db.overlapping.rows[id].position == newSpace.position &&
      db.overlapping.rows[id].centroid == newSpace.centroid &&
      db.overlapping.rows[id].parent == Some(existingId)
    ensures forall k | k in old(db.overlapping.rows) :: k in db.overlapping.rows && db.overlapping.rows[k] == old(db.overlapping.rows[k])
  {
    var shadow := OverlappingParkingSpace(newSpace.polygon, newSpace.capacity, newSpace.position, newSpace.centroid, Some(existingId));
    db.overlapping := db.overlapping.Insert(shadow);
  }

  /** `doesOverlappingSpaceExistByCentroid`. */
  method DoesOverlappingSpaceExistByCentroid(db: Database, centroid: Point) returns (b: bool)
    ensures b <==> exists k | k in db.overlapping.rows :: db.overlapping.rows[k].centroid == Some(centroid)
  {
    b := ExistsByCentroid(db.overlapping, centroid);
  }

  /** Once a shadow with a given centroid is stored, the existence query finds it, and
      inserting more shadows never makes it false. */
  lemma ShadowFoundByCentroid(t: Table<OverlappingParkingSpace>, shadow: OverlappingParkingSpace, centroid: Point)
    requires t.Valid()
    requires shadow.centroid == Some(centroid) || ExistsByCentroid(t, centroid)
    ensures ExistsByCentroid(t.Insert(shadow), centroid)
  {
    if shadow.centroid != Some(centroid) {
      var k :| k in t.rows && t.rows[k].centroid == Some(centroid);
      assert t.Insert(shadow).rows[k] == t.rows[k];
    } else {
      assert t.Insert(shadow).rows[t.nextId] == shadow;
    }
  }
}
