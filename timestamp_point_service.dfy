/** `TimestampPointService.loadTimestampPoints`: point observations that carry their own
    instant. An entry is skipped and counted when a stored entry has the same instant
    and the same coordinates; otherwise it is stored, assigned to the edited space that
    contains it or to `Unassigned`. */
module TimestampPointService {
  import opened Wrappers
  import opened Geometry
  import opened Tables
  import opened Entities
  import opened Repositories
  import PP = ParkingPointService

  /** One timestamp point of the file, before it is assigned to a space. */
  datatype TimestampPointEntry = TimestampPointEntry(point: Point, timestamp: string)

  /** The table the load writes, and the number of entries skipped as duplicates. */
  datatype LoadState = LoadState(table: Table<TimestampPoint>, duplicates: nat)

  /** No two stored entries share both instant and coordinates. */
  ghost predicate DistinctEntries(t: Table<TimestampPoint>)
  {
    forall a, b | a in t.rows && b in t.rows && a != b ::
      !(t.rows[a].timestamp == t.rows[b].timestamp && t.rows[a].point == t.rows[b].point)
  }

  /** `isPointUnique(timestamp, point)`. */
  function IsPointUnique(t: Table<TimestampPoint>, timestamp: string, p: Point): (unique: bool)
    ensures unique <==> forall k | k in t.rows :: !(t.rows[k].timestamp == timestamp && t.rows[k].point == p)
  {
    CountTimestampPointDuplicates(t, timestamp, p) == 0
  }

  /** One iteration of the loop. */
  function Step(s: LoadState, edited: Table<EditedParkingSpace>, g: GeometryOracle, e: TimestampPointEntry): (r: LoadState)
    requires s.table.Valid() && edited.Valid()
    ensures r.table.Valid()
    ensures !IsPointUnique(s.table, e.timestamp, e.point) ==> r.table == s.table && r.duplicates == s.duplicates + 1
    ensures IsPointUnique(s.table, e.timestamp, e.point) ==>
      r.duplicates == s.duplicates && |r.table.rows| == |s.table.rows| + 1 &&
      var id := s.table.nextId;
      id !in s.table.rows && id in r.table.rows &&
      r.table.rows[id].point == e.point && r.table.rows[id].timestamp == e.timestamp &&
      r.table.rows[id].editedParkingSpaceId == PP.AssignedSpace(edited, g, e.point) &&
      (forall k | k in s.table.rows :: k in r.table.rows && r.table.rows[k] == s.table.rows[k]) &&
      (forall k | k in r.table.rows && k != id :: k in s.table.rows)
  {
    if IsPointUnique(s.table, e.timestamp, e.point) then
      LoadState(s.table.Insert(TimestampPoint(PP.AssignedSpace(edited, g, e.point), e.point, e.timestamp)), s.duplicates)
    else
      LoadState(s.table, s.duplicates + 1)
  }

  /** The table and the counter after the first `|es|` entries. */
  function Load(s: LoadState, edited: Table<EditedParkingSpace>, g: GeometryOracle, es: seq<TimestampPointEntry>): (r: LoadState)
    requires s.table.Valid() && edited.Valid()
    ensures r.table.Valid()
    decreases |es|
  {
    if es == [] then s else Step(Load(s, edited, g, es[..|es| - 1]), edited, g, es[|es| - 1])
  }

  /** `loadTimestampPoints` on the entries of one file. */
  method LoadTimestampPoints(db: Database, g: GeometryOracle, entries: seq<TimestampPointEntry>) returns (duplicatePoints: nat)
    requires db.Valid()
    modifies db`timestampPoints
    ensures db.Valid()
    ensures var r := Load(LoadState(old(db.timestampPoints), 0), db.edited, g, entries);
      db.timestampPoints == r.table && duplicatePoints == r.duplicates
  {
    ghost var s0 := LoadState(db.timestampPoints, 0);
    duplicatePoints := 0;
    var i := 0;
    while i < |entries|
      invariant 0 <= i <= |entries|
      invariant db.Valid()
      invariant LoadState(db.timestampPoints, duplicatePoints) == Load(s0, db.edited, g, entries[..i])
    {
      var e := entries[i];
      if IsPointUnique(db.timestampPoints, e.timestamp, e.point) {
        var spaceId := PP.AssignedSpace(db.edited, g, e.point);
        db.timestampPoints := db.timestampPoints.Insert(TimestampPoint(spaceId, e.point, e.timestamp));
      } else {
        duplicatePoints := duplicatePoints + 1;
      }
      assert entries[..i + 1][..i] == entries[..i];
      i := i + 1;
    }
    assert entries[..i] == entries;
  }

  /** Loading never stores two entries with the same instant and coordinates. */
  lemma {:induction false} LoadKeepsEntriesDistinct(s: LoadState, edited: Table<EditedParkingSpace>, g: GeometryOracle, es: seq<TimestampPointEntry>)
    requires s.table.Valid() && edited.Valid() && DistinctEntries(s.table)
    ensures DistinctEntries(Load(s, edited, g, es).table)
    decreases |es|
  {
    if es != [] {
      var prev := Load(s, edited, g, es[..|es| - 1]);
      LoadKeepsEntriesDistinct(s, edited, g, es[..|es| - 1]);
      var e := es[|es| - 1];
      var r := Step(prev, edited, g, e);
      if IsPointUnique(prev.table, e.timestamp, e.point) {
        var id := prev.table.nextId;
        forall a, b | a in r.table.rows && b in r.table.rows && a != b
          ensures !(r.table.rows[a].timestamp == r.table.rows[b].timestamp && r.table.rows[a].point == r.table.rows[b].point)
        {
          if a != id && b != id {
            assert r.table.rows[a] == prev.table.rows[a] && r.table.rows[b] == prev.table.rows[b];
          } else if a == id {
            assert r.table.rows[b] == prev.table.rows[b];
          } else {
            assert r.table.rows[a] == prev.table.rows[a];
          }
        }
      }
    }
  }

  /** `duplicatePoints` counts exactly the entries that were not stored. */
  lemma {:induction false} LoadAccountsForEveryEntry(s: LoadState, edited: Table<EditedParkingSpace>, g: GeometryOracle, es: seq<TimestampPointEntry>)
    requires s.table.Valid() && edited.Valid()
    ensures var r := Load(s, edited, g, es);
      |r.table.rows| + r.duplicates == |s.table.rows| + s.duplicates + |es|
    decreases |es|
  {
    if es != [] {
      LoadAccountsForEveryEntry(s, edited, g, es[..|es| - 1]);
    }
  }

  /** The same coordinates observed at a new instant are stored as a separate entry. */
  lemma NewInstantStored(s: LoadState, edited: Table<EditedParkingSpace>, g: GeometryOracle, e: TimestampPointEntry, k: int)
    requires s.table.Valid() && edited.Valid()
    requires k in s.table.rows && s.table.rows[k].point == e.point
    requires forall j | j in s.table.rows :: s.table.rows[j].timestamp != e.timestamp
    ensures |Step(s, edited, g, e).table.rows| == |s.table.rows| + 1
    ensures k in Step(s, edited, g, e).table.rows && Step(s, edited, g, e).table.rows[k] == s.table.rows[k]
  {
  }
}
