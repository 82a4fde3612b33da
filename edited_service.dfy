/** `EditedParkingSpaceService`: the editable copy of the parking spaces and its
    occupancy bookkeeping. */
module EditedService {
  import opened Wrappers
  import opened Geometry
  import opened Tables
  import opened Entities
  import opened Repositories

  /** `DAYS_FOR_VALID_OCCUPANCY`: a timestamp younger than this many days marks a
      space as occupied. */
  const DaysForValidOccupancy: int := 180

  /** The exceptions of this service. */
  datatype ServiceError =
    | CopyFailed    // the `IOException` of `copyDataIntoDatabase`
    | NotFound(id: int)  // the `ResourceAccessException` of `getNeighbors`

  /** `convertToEditedParkingSpace` of the parking space stored under `id`; the new copy
      is not occupied. */
  function ConvertToEditedParkingSpace(id: int, space: ParkingSpace): (e: EditedParkingSpace)
    ensures e.parkingSpaceId == id && !e.occupied
    ensures e.polygon == space.polygon && e.area == space.area
    ensures e.capacity == space.capacity && e.position == space.position
  {
    EditedParkingSpace(id, space.polygon, false, space.area, space.capacity, space.position)
  }

  // ---------------------------------------------------------------------------
  // copyDataIntoDatabase

  /** The edited table, the duplicate counter, and whether the copy has thrown. */
  datatype CopyState = CopyState(edited: Table<EditedParkingSpace>, duplicates: nat, failed: bool)

  /** The loop body for id `i`. */
  function CopyStep(spaces: Table<ParkingSpace>, c: CopyState, i: int): (r: CopyState)
    requires c.edited.Valid()
    ensures r.edited.Valid()
    ensures c.failed ==> r == c
    ensures !c.failed && i !in spaces.rows ==> r == c.(failed := true)
    ensures !c.failed && i in spaces.rows && ExistsByParkingSpaceId(c.edited, i) ==>
      r == c.(duplicates := c.duplicates + 1)
    ensures !c.failed && i in spaces.rows && !ExistsByParkingSpaceId(c.edited, i) ==>
      !r.failed && r.duplicates == c.duplicates && |r.edited.rows| == |c.edited.rows| + 1 &&
      c.edited.nextId in r.edited.rows &&
      r.edited.rows[c.edited.nextId].parkingSpaceId == i &&
      r.edited.rows[c.edited.nextId].polygon == spaces.rows[i].polygon &&
      r.edited.rows[c.edited.nextId].area == spaces.rows[i].area &&
      r.edited.rows[c.edited.nextId].capacity == spaces.rows[i].capacity &&
      r.edited.rows[c.edited.nextId].position == spaces.rows[i].position &&
      !r.edited.rows[c.edited.nextId].occupied
    ensures forall k | k in c.edited.rows :: k in r.edited.rows && r.edited.rows[k] == c.edited.rows[k]
    ensures forall k | k in r.edited.rows && k !in c.edited.rows :: k == c.edited.nextId
  {
    if c.failed then c
    else if i !in spaces.rows then c.(failed := true)
    else if ExistsByParkingSpaceId(c.edited, i) then c.(duplicates := c.duplicates + 1)
    else c.(edited := c.edited.Insert(ConvertToEditedParkingSpace(i, spaces.rows[i])))
  }

  /** The state after the loop has handled ids `1..k`. */
  function CopyUpTo(spaces: Table<ParkingSpace>, c: CopyState, k: int): (r: CopyState)
    requires c.edited.Valid()
    ensures r.edited.Valid()
    decreases k
  {
    if k <= 0 then c else CopyStep(spaces, CopyUpTo(spaces, c, k - 1), k)
  }

  /** Once the copy has thrown, later ids change nothing. */
  lemma {:induction false} CopyFailureIsFinal(spaces: Table<ParkingSpace>, c: CopyState, i: int, k: int)
    requires c.edited.Valid() && i <= k && CopyUpTo(spaces, c, i).failed
    ensures CopyUpTo(spaces, c, k) == CopyUpTo(spaces, c, i)
    decreases k - i
  {
    if i < k {
      CopyFailureIsFinal(spaces, c, i, k - 1);
    }
  }

  /** `copyDataIntoDatabase`: ids `1..count()` of the parking spaces are copied in order;
      an id that is already referenced is counted as a duplicate; a missing id throws,
      and the copies made before it stay. */
  method CopyDataIntoDatabase(db: Database) returns (r: Result<nat, ServiceError>)
    requires db.Valid()
    modifies db`edited
    ensures db.Valid()
    ensures var c := CopyUpTo(db.spaces, CopyState(old(db.edited), 0, false), |db.spaces.rows|);
      db.edited == c.edited && (r.Success? <==> !c.failed) &&
      (r.Success? ==> r.value == c.duplicates) && (r.Failure? ==> r.error == CopyFailed)
  {
    ghost var c0 := CopyState(db.edited, 0, false);
    var duplicates: nat := 0;
    var i := 1;
    while i <= |db.spaces.rows|
      invariant 1 <= i <= |db.spaces.rows| + 1
      invariant db.Valid()
      invariant CopyUpTo(db.spaces, c0, i - 1) == CopyState(db.edited, duplicates, false)
    {
      var parkingSpace := db.spaces.FindById(i);
      if parkingSpace.Some? {
        if !ExistsByParkingSpaceId(db.edited, i) {
          db.edited := db.edited.Insert(ConvertToEditedParkingSpace(i, parkingSpace.value));
        } else {
          duplicates := duplicates + 1;
        }
      } else {
        CopyFailureIsFinal(db.spaces, c0, i, |db.spaces.rows|);
        return Failure(CopyFailed);
      }
      i := i + 1;
    }
    return Success(duplicates);
  }

  /** No two edited spaces reference the same parking space. */
  ghost predicate UniqueReferences(t: Table<EditedParkingSpace>)
  {
    forall a, b | a in t.rows && b in t.rows && a != b :: t.rows[a].parkingSpaceId != t.rows[b].parkingSpaceId
  }

  /** The copy never creates a second reference to a parking space. */
  lemma {:induction false} CopyKeepsReferencesUnique(spaces: Table<ParkingSpace>, c: CopyState, k: int)
    requires c.edited.Valid() && UniqueReferences(c.edited)
    ensures UniqueReferences(CopyUpTo(spaces, c, k).edited)
    decreases k
  {
    if k > 0 {
      CopyKeepsReferencesUnique(spaces, c, k - 1);
      var prev := CopyUpTo(spaces, c, k - 1);
      var r := CopyStep(spaces, prev, k);
      if !prev.failed && k in spaces.rows && !ExistsByParkingSpaceId(prev.edited, k) {
        var id := prev.edited.nextId;
        forall a, b | a in r.edited.rows && b in r.edited.rows && a != b
          ensures r.edited.rows[a].parkingSpaceId != r.edited.rows[b].parkingSpaceId
        {
          if a == id {
            assert r.edited.rows[b] == prev.edited.rows[b];
          } else if b == id {
            assert r.edited.rows[a] == prev.edited.rows[a];
          }
        }
      }
    }
  }

  /** When the copy up to `k` has not thrown, ids `1..k` all exist and are all referenced. */
  lemma {:induction false} CopyReferencesAll(spaces: Table<ParkingSpace>, c: CopyState, k: int)
    requires c.edited.Valid() && !CopyUpTo(spaces, c, k).failed
    ensures forall i | 1 <= i <= k :: i in spaces.rows && ExistsByParkingSpaceId(CopyUpTo(spaces, c, k).edited, i)
    decreases k
  {
    if k > 0 {
      var prev := CopyUpTo(spaces, c, k - 1);
      var r := CopyStep(spaces, prev, k);
      assert CopyUpTo(spaces, c, k) == r;
      assert !prev.failed;
      CopyReferencesAll(spaces, c, k - 1);
      forall i | 1 <= i <= k ensures i in spaces.rows && ExistsByParkingSpaceId(r.edited, i) {
        if i < k {
          assert ExistsByParkingSpaceId(prev.edited, i);
          var j :| j in prev.edited.rows && prev.edited.rows[j].parkingSpaceId == i;
          assert r.edited.rows[j] == prev.edited.rows[j];
        } else if !ExistsByParkingSpaceId(prev.edited, k) {
          assert r.edited.rows[prev.edited.nextId].parkingSpaceId == k;
        } else {
          var j :| j in prev.edited.rows && prev.edited.rows[j].parkingSpaceId == k;
          assert r.edited.rows[j] == prev.edited.rows[j];
        }
      }
    }
  }

  /** Over a table that already references ids `1..k`, the copy only counts duplicates. */
  lemma {:induction false} CopyOverCopied(spaces: Table<ParkingSpace>, e: Table<EditedParkingSpace>, k: int)
    requires e.Valid()
    requires forall i | 1 <= i <= k :: i in spaces.rows && ExistsByParkingSpaceId(e, i)
    ensures CopyUpTo(spaces, CopyState(e, 0, false), k) == CopyState(e, if k <= 0 then 0 else k, false)
    decreases k
  {
    if k > 0 {
      CopyOverCopied(spaces, e, k - 1);
    }
  }

  /** Running the copy a second time over unchanged parking spaces adds nothing, and
      every parking space is counted as a duplicate. */
  lemma {:induction false} CopyIdempotent(spaces: Table<ParkingSpace>, e: Table<EditedParkingSpace>)
    requires e.Valid()
    requires !CopyUpTo(spaces, CopyState(e, 0, false), |spaces.rows|).failed
    ensures var first := CopyUpTo(spaces, CopyState(e, 0, false), |spaces.rows|).edited;
      CopyUpTo(spaces, CopyState(first, 0, false), |spaces.rows|) == CopyState(first, |spaces.rows|, false)
  {
    var n := |spaces.rows|;
    var run := CopyUpTo(spaces, CopyState(e, 0, false), n);
    CopyReferencesAll(spaces, CopyState(e, 0, false), n);
    assert run.edited.Valid();
    CopyOverCopied(spaces, run.edited, n);
  }

  /** The copy up to `k` stopped at id `m`: `m` is missing, every id before it exists,
      and the edited table holds exactly the copies made for ids `1..m-1`. */
  ghost predicate StoppedAt(spaces: Table<ParkingSpace>, c: CopyState, k: int, m: int)
    requires c.edited.Valid()
  {
    m !in spaces.rows && (forall i | 1 <= i < m :: i in spaces.rows) &&
    CopyUpTo(spaces, c, k).edited == CopyUpTo(spaces, c, m - 1).edited
  }

  /** The step at which the copy throws is a missing id after ids that all exist, and
      it leaves the edited table as it was. */
  lemma FailsAtMissingId(spaces: Table<ParkingSpace>, c: CopyState, k: int)
    requires c.edited.Valid() && k > 0
    requires !CopyUpTo(spaces, c, k - 1).failed && CopyUpTo(spaces, c, k).failed
    ensures StoppedAt(spaces, c, k, k)
  {
    CopyReferencesAll(spaces, c, k - 1);
  }

  /** Where a failed copy stopped does not change with later ids. */
  lemma StopIsFinal(spaces: Table<ParkingSpace>, c: CopyState, k: int, m: int)
    requires c.edited.Valid() && k > 0
    requires CopyUpTo(spaces, c, k - 1).failed && StoppedAt(spaces, c, k - 1, m)
    ensures StoppedAt(spaces, c, k, m)
  {
    CopyFailureIsFinal(spaces, c, k - 1, k);
  }

  /** A failed copy stopped at the first missing id. */
  lemma {:induction false} CopyFailureKeepsEarlierCopies(spaces: Table<ParkingSpace>, c: CopyState, k: int)
    requires c.edited.Valid() && !c.failed && CopyUpTo(spaces, c, k).failed
    ensures exists m | 1 <= m <= k :: StoppedAt(spaces, c, k, m)
    decreases k
  {
    assert k > 0;
    if CopyUpTo(spaces, c, k - 1).failed {
      CopyFailureKeepsEarlierCopies(spaces, c, k - 1);
      var m :| 1 <= m <= k - 1 && StoppedAt(spaces, c, k - 1, m);
      StopIsFinal(spaces, c, k, m);
    } else {
      FailsAtMissingId(spaces, c, k);
    }
  }

  // ---------------------------------------------------------------------------
  // updateOccupancyStatusForAllSpaces

  /** Point `pid` has a timestamp younger than the threshold; `daysPassed` is
      `calculateDifferenceInDays`, the days between an instant and now. */
  ghost predicate HasRecentTimestamp(timestamps: Table<Timestamp>, daysPassed: string -> int, pid: int)
  {
    exists tid | tid in timestamps.rows ::
      timestamps.rows[tid].parkingPoint == Some(pid) && daysPassed(timestamps.rows[tid].timestamp) < DaysForValidOccupancy
  }

  /** Space `sid` is occupied: some point assigned to it has a recent timestamp. */
  ghost predicate Occupied(points: Table<ParkingPoint>, timestamps: Table<Timestamp>, daysPassed: string -> int, sid: int)
  {
    exists pid | pid in points.rows ::
      points.rows[pid].editedParkingSpaceId == sid && HasRecentTimestamp(timestamps, daysPassed, pid)
  }

  /** The nested loops of `updateOccupancyStatusForAllSpaces` for one space: over its
      points, and for each over its timestamps, stopping at the first recent one. */
  method IsOccupied(db: Database, sid: int, daysPassed: string -> int) returns (isOccupied: bool)
    requires db.Valid()
    ensures isOccupied == Occupied(db.points, db.timestamps, daysPassed, sid)
  {
    isOccupied := false;
    var pid := 1;
    while pid < db.points.nextId
      invariant 1 <= pid <= db.points.nextId
      invariant !isOccupied
      invariant forall p | 1 <= p < pid && p in db.points.rows && db.points.rows[p].editedParkingSpaceId == sid ::
        !HasRecentTimestamp(db.timestamps, daysPassed, p)
    {
      if pid in db.points.rows && db.points.rows[pid].editedParkingSpaceId == sid {
        var tid := 1;
        while tid < db.timestamps.nextId
          invariant 1 <= tid <= db.timestamps.nextId
          invariant !isOccupied
          invariant forall t | 1 <= t < tid && t in db.timestamps.rows && db.timestamps.rows[t].parkingPoint == Some(pid) ::
            daysPassed(db.timestamps.rows[t].timestamp) >= DaysForValidOccupancy
        {
          if tid in db.timestamps.rows && db.timestamps.rows[tid].parkingPoint == Some(pid)
            && daysPassed(db.timestamps.rows[tid].timestamp) < DaysForValidOccupancy
          {
            isOccupied := true;
            break;
          }
          tid := tid + 1;
        }
        if isOccupied {
          return;
        }
      }
      pid := pid + 1;
    }
  }

  /** `updateOccupancyStatusForAllSpaces`: every edited space gets the computed status;
      `saved` holds the spaces whose status changed, the only ones written back. */
  method UpdateOccupancyStatusForAllSpaces(db: Database, daysPassed: string -> int) returns (saved: set<int>)
    requires db.Valid()
    modifies db`edited
    ensures db.Valid()
    ensures db.edited.nextId == old(db.edited.nextId) && db.edited.rows.Keys == old(db.edited.rows.Keys)
    ensures forall sid | sid in db.edited.rows ::
      db.edited.rows[sid] == old(db.edited.rows[sid]).(occupied := Occupied(db.points, db.timestamps, daysPassed, sid))
    ensures forall sid :: sid in saved <==>
      sid in old(db.edited.rows) && old(db.edited.rows[sid]).occupied != Occupied(db.points, db.timestamps, daysPassed, sid)
  {
    saved := {};
    var sid := 1;
    while sid < db.edited.nextId
      invariant 1 <= sid <= db.edited.nextId
      invariant db.Valid()
      invariant db.edited.nextId == old(db.edited.nextId) && db.edited.rows.Keys == old(db.edited.rows.Keys)
      invariant forall k | k in db.edited.rows && k < sid ::
        db.edited.rows[k] == old(db.edited.rows[k]).(occupied := Occupied(db.points, db.timestamps, daysPassed, k))
      invariant forall k | k in db.edited.rows && k >= sid :: db.edited.rows[k] == old(db.edited.rows[k])
      invariant forall k :: k in saved <==>
        k < sid && k in old(db.edited.rows) && old(db.edited.rows[k]).occupied != Occupied(db.points, db.timestamps, daysPassed, k)
    {
      if sid in db.edited.rows {
        var isOccupied := IsOccupied(db, sid, daysPassed);
        var space := db.edited.rows[sid];
        if space.occupied != isOccupied {
          db.edited := db.edited.Update(sid, space.(occupied := isOccupied));
          saved := saved + {sid};
        }
      }
      sid := sid + 1;
    }
  }

  /** A space none of whose points is assigned to it becomes unoccupied. */
  lemma NoPointsMeansUnoccupied(points: Table<ParkingPoint>, timestamps: Table<Timestamp>, daysPassed: string -> int, sid: int)
    requires forall pid | pid in points.rows :: points.rows[pid].editedParkingSpaceId != sid
    ensures !Occupied(points, timestamps, daysPassed, sid)
  {
  }

  /** A space whose points only have timestamps at least 180 days old is not occupied;
      the threshold is strict, so exactly 180 days does not count. */
  lemma ThresholdIsStrict(points: Table<ParkingPoint>, timestamps: Table<Timestamp>, daysPassed: string -> int, sid: int)
    requires forall pid, tid | pid in points.rows && points.rows[pid].editedParkingSpaceId == sid &&
      tid in timestamps.rows && timestamps.rows[tid].parkingPoint == Some(pid) ::
        daysPassed(timestamps.rows[tid].timestamp) >= DaysForValidOccupancy
    ensures !Occupied(points, timestamps, daysPassed, sid)
  {
  }

  // ---------------------------------------------------------------------------
  // updatePolygonCoordinates and getNeighbors

  /** `updatePolygonCoordinates(id, polygon)`, the polygon being the converted request
      body: only the polygon of an existing space is replaced (the area stays as it was). */
  method UpdatePolygonCoordinates(db: Database, id: int, polygon: Polygon) returns (updated: bool)
    requires db.Valid()
    modifies db`edited
    ensures db.Valid()
    ensures updated <==> id in old(db.edited.rows)
    ensures !updated ==> db.edited == old(db.edited)
    ensures updated ==> db.edited == old(db.edited).Update(id, old(db.edited.rows[id]).(polygon := polygon))
  {
    var space := db.edited.FindById(id);
    if space.Some? {
      db.edited := db.edited.Update(id, space.value.(polygon := polygon));
      return true;
    }
    return false;
  }

  /** `getNeighbors(id)`: fails when the space does not exist, otherwise the ids of the
      other spaces whose polygon touches it. */
  method GetNeighbors(db: Database, g: GeometryOracle, id: int) returns (r: Result<set<int>, ServiceError>)
    ensures r.Failure? <==> id !in db.edited.rows
    ensures r.Failure? ==> r.error == NotFound(id)
    ensures r.Success? ==> id !in r.value
    ensures r.Success? ==> forall k :: k in r.value <==>
      k in db.edited.rows && k != id && g.touches(db.edited.rows[id].polygon, db.edited.rows[k].polygon)
  {
    if db.edited.FindById(id).None? {
      return Failure(NotFound(id));
    }
    return Success(NeighborIds(db.edited, g, id));
  }
}
