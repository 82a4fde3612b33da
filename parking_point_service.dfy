/** `ParkingPointService.loadParkingPoints`: observed car positions with their instants.
    A point whose coordinates are already stored is not stored again; a new point is
    assigned to the edited space that contains it, or to `Unassigned`; every entry's
    instant is then saved for the (new or existing) point. */
module ParkingPointService {
  import opened Wrappers
  import opened Geometry
  import opened Tables
  import opened Entities
  import opened Repositories
  import opened TimestampService

  /** One entry of the file: a point and the instant it was observed. The entries
      arrive in the iteration order of the parsed map. */
  datatype PointEntry = PointEntry(point: Point, timestamp: string)

  /** The two tables the load writes, and the number of entries whose point was a duplicate. */
  datatype IngestState = IngestState(points: Table<ParkingPoint>, timestamps: Table<Timestamp>, duplicates: nat)

  ghost predicate StateValid(s: IngestState)
  {
    s.points.Valid() && s.timestamps.Valid()
  }

  /** No two stored points have the same coordinates. */
  ghost predicate DistinctPoints(t: Table<ParkingPoint>)
  {
    forall a, b | a in t.rows && b in t.rows && a != b :: t.rows[a].point != t.rows[b].point
  }

  /** `isPointUnique`: -1 when no stored point has the coordinates of `p`, otherwise
      the id of a stored point that has them. */
  function IsPointUnique(t: Table<ParkingPoint>, p: Point): (id: int)
    requires t.Valid()
    ensures id == -1 <==> forall k | k in t.rows :: t.rows[k].point != p
    ensures id != -1 ==> id in t.rows && t.rows[id].point == p
  {
    match DuplicatePointId(t, p)
    case Some(k) => k
    case None => -1
  }

  /** The edited space a new point is assigned to: one that contains it, or `Unassigned`. */
  function AssignedSpace(edited: Table<EditedParkingSpace>, g: GeometryOracle, p: Point): (id: int)
    requires edited.Valid()
    ensures id == Unassigned <==> forall k | k in edited.rows :: !g.contains(edited.rows[k].polygon, p)
    ensures id != Unassigned ==> id in edited.rows && g.contains(edited.rows[id].polygon, p)
  {
    match SpaceContaining(edited, g, p)
    case Some(k) => k
    case None => Unassigned
  }

  /** One iteration of the loop over the entries. */
  function Step(s: IngestState, edited: Table<EditedParkingSpace>, g: GeometryOracle, e: PointEntry): (r: IngestState)
    requires StateValid(s) && edited.Valid()
    ensures StateValid(r)
    ensures forall k | k in s.points.rows :: k in r.points.rows && r.points.rows[k] == s.points.rows[k]
    ensures forall k | k in s.timestamps.rows :: k in r.timestamps.rows && r.timestamps.rows[k] == s.timestamps.rows[k]
    // a duplicate point: nothing stored, the counter rises, the instant goes to the stored point
    ensures IsPointUnique(s.points, e.point) != -1 ==>
      r.points == s.points && r.duplicates == s.duplicates + 1 &&
      r.timestamps == Saved(s.timestamps, Timestamp(Some(IsPointUnique(s.points, e.point)), e.timestamp)) &&
      Recorded(r.timestamps, IsPointUnique(s.points, e.point), e.timestamp)
    // a new point: stored once under a fresh id with its space, the instant goes to that id
    ensures IsPointUnique(s.points, e.point) == -1 ==>
      |r.points.rows| == |s.points.rows| + 1 && r.duplicates == s.duplicates &&
      var id := s.points.nextId;
      id !in s.points.rows && id in r.points.rows &&
      r.points.rows[id] == ParkingPoint(AssignedSpace(edited, g, e.point), e.point) &&
      (forall k | k in r.points.rows && k != id :: k in s.points.rows) &&
      r.timestamps == Saved(s.timestamps, Timestamp(Some(id), e.timestamp)) &&
      Recorded(r.timestamps, id, e.timestamp)
  {
    var dup := IsPointUnique(s.points, e.point);
    if dup == -1 then
      var id := s.points.nextId;
      IngestState(
        s.points.Insert(ParkingPoint(AssignedSpace(edited, g, e.point), e.point)),
        Saved(s.timestamps, Timestamp(Some(id), e.timestamp)),
        s.duplicates)
    else
      IngestState(s.points, Saved(s.timestamps, Timestamp(Some(dup), e.timestamp)), s.duplicates + 1)
  }

  /** The tables and the counter after the first `|es|` entries. */
  function Ingest(s: IngestState, edited: Table<EditedParkingSpace>, g: GeometryOracle, es: seq<PointEntry>): (r: IngestState)
    requires StateValid(s) && edited.Valid()
    ensures StateValid(r)
    decreases |es|
  {
    if es == [] then s else Step(Ingest(s, edited, g, es[..|es| - 1]), edited, g, es[|es| - 1])
  }

  /** `loadParkingPoints` on the entries of one file. */
  method LoadParkingPoints(db: Database, g: GeometryOracle, entries: seq<PointEntry>) returns (duplicatePoints: nat)
    requires db.Valid()
    modifies db`points, db`timestamps
    ensures db.Valid()
    ensures var r := Ingest(IngestState(old(db.points), old(db.timestamps), 0), db.edited, g, entries);
      db.points == r.points && db.timestamps == r.timestamps && duplicatePoints == r.duplicates
  {
    ghost var s0 := IngestState(db.points, db.timestamps, 0);
    duplicatePoints := 0;
    var i := 0;
    while i < |entries|
      invariant 0 <= i <= |entries|
      invariant db.Valid()
      invariant IngestState(db.points, db.timestamps, duplicatePoints) == Ingest(s0, db.edited, g, entries[..i])
    {
      var e := entries[i];
      var duplicateId := IsPointUnique(db.points, e.point);
      var ts: Timestamp;
      if duplicateId == -1 {
        var spaceId := AssignedSpace(db.edited, g, e.point);
        var savedId := db.points.nextId;
        db.points := db.points.Insert(ParkingPoint(spaceId, e.point));
        ts := Timestamp(Some(savedId), e.timestamp);
      } else {
        duplicatePoints := duplicatePoints + 1;
        ts := Timestamp(Some(duplicateId), e.timestamp);
      }
      SaveTimestamp(db, ts);
      assert entries[..i + 1][..i] == entries[..i];
      i := i + 1;
    }
    assert entries[..i] == entries;
  }

  /** Loading never stores two points with the same coordinates. */
  lemma {:induction false} IngestKeepsPointsDistinct(s: IngestState, edited: Table<EditedParkingSpace>, g: GeometryOracle, es: seq<PointEntry>)
    requires StateValid(s) && edited.Valid() && DistinctPoints(s.points)
    ensures DistinctPoints(Ingest(s, edited, g, es).points)
    decreases |es|
  {
    if es != [] {
      var prev := Ingest(s, edited, g, es[..|es| - 1]);
      IngestKeepsPointsDistinct(s, edited, g, es[..|es| - 1]);
      var e := es[|es| - 1];
      var r := Step(prev, edited, g, e);
      if IsPointUnique(prev.points, e.point) == -1 {
        var id := prev.points.nextId;
        forall a, b | a in r.points.rows && b in r.points.rows && a != b
          ensures r.points.rows[a].point != r.points.rows[b].point
        {
          if a != id && b != id {
            assert r.points.rows[a] == prev.points.rows[a] && r.points.rows[b] == prev.points.rows[b];
          } else if a == id {
            assert r.points.rows[b] == prev.points.rows[b];
          } else {
            assert r.points.rows[a] == prev.points.rows[a];
          }
        }
      }
    }
  }

  /** Loading never stores the same instant twice for the same point. */
  lemma {:induction false} IngestKeepsTimestampsDistinct(s: IngestState, edited: Table<EditedParkingSpace>, g: GeometryOracle, es: seq<PointEntry>)
    requires StateValid(s) && edited.Valid() && NoDuplicateTimestamps(s.timestamps)
    ensures NoDuplicateTimestamps(Ingest(s, edited, g, es).timestamps)
    decreases |es|
  {
    if es != [] {
      var prev := Ingest(s, edited, g, es[..|es| - 1]);
      IngestKeepsTimestampsDistinct(s, edited, g, es[..|es| - 1]);
      var e := es[|es| - 1];
      var dup := IsPointUnique(prev.points, e.point);
      var id := if dup == -1 then prev.points.nextId else dup;
      SavedKeepsNoDuplicates(prev.timestamps, Timestamp(Some(id), e.timestamp));
    }
  }

  /** Every entry is accounted for: it either added one point or raised the counter. */
  lemma {:induction false} IngestAccountsForEveryEntry(s: IngestState, edited: Table<EditedParkingSpace>, g: GeometryOracle, es: seq<PointEntry>)
    requires StateValid(s) && edited.Valid()
    ensures var r := Ingest(s, edited, g, es);
      |r.points.rows| + r.duplicates == |s.points.rows| + s.duplicates + |es|
    decreases |es|
  {
    if es != [] {
      IngestAccountsForEveryEntry(s, edited, g, es[..|es| - 1]);
    }
  }

  /** After the load, every entry's point is stored and its instant is recorded for that
      stored point, whether the point was new or a duplicate. */
  lemma {:induction false} IngestRecordsEveryEntry(s: IngestState, edited: Table<EditedParkingSpace>, g: GeometryOracle, es: seq<PointEntry>, i: int)
    requires StateValid(s) && edited.Valid() && 0 <= i < |es|
    ensures exists k | k in Ingest(s, edited, g, es).points.rows ::
      Ingest(s, edited, g, es).points.rows[k].point == es[i].point &&
      Recorded(Ingest(s, edited, g, es).timestamps, k, es[i].timestamp)
    decreases |es|
  {
    var init := es[..|es| - 1];
    var prev := Ingest(s, edited, g, init);
    var r := Step(prev, edited, g, es[|es| - 1]);
    assert Ingest(s, edited, g, es) == r;
    if i == |es| - 1 {
      var e := es[i];
      var dup := IsPointUnique(prev.points, e.point);
      var k := if dup == -1 then prev.points.nextId else dup;
      assert k in r.points.rows && r.points.rows[k].point == e.point;
      assert Recorded(r.timestamps, k, e.timestamp);
    } else {
      IngestRecordsEveryEntry(s, edited, g, init, i);
      assert init[i] == es[i];
      var k :| k in prev.points.rows && prev.points.rows[k].point == es[i].point && Recorded(prev.timestamps, k, es[i].timestamp);
      var j :| j in prev.timestamps.rows && prev.timestamps.rows[j] == Timestamp(Some(k), es[i].timestamp);
      assert r.timestamps.rows[j] == prev.timestamps.rows[j];
      assert j in r.timestamps.rows && r.timestamps.rows[j] == Timestamp(Some(k), es[i].timestamp);
      assert Recorded(r.timestamps, k, es[i].timestamp);
      assert k in r.points.rows && r.points.rows[k] == prev.points.rows[k];
    }
  }
}
