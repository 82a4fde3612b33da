/** `GeospatialService`: the older loader for `parking_spaces`, which routes every
    configured file by extension and inserts without any duplicate check, plus
    occupancy updates and area lookups by id. */
module GeospatialService {
  import opened Wrappers
  import opened Geometry
  import opened Tables
  import opened Entities
  import opened JsonHandler
  import opened DataLoader
  import opened ParkingSpaceService

  /** Everything `loadDataIntoDatabase` does: every path, timestamp files included, is
      routed by its lower-cased extension. */
  function GeoLoadTrace(filePaths: Option<seq<string>>): seq<LoadAction>
  {
    if filePaths.None? || filePaths.value == [] then [NoFilesConfigured]
    else Actions(filePaths.value, SpaceFileAction)
  }

  /** `loadDataIntoDatabase` over the configured paths (`None` is a `null` list). */
  method LoadDataIntoDatabase(filePaths: Option<seq<string>>) returns (trace: seq<LoadAction>)
    ensures trace == GeoLoadTrace(filePaths)
  {
    if filePaths.None? || filePaths.value == [] {
      return [NoFilesConfigured];
    }
    var paths := filePaths.value;
    trace := [];
    var i := 0;
    while i < |paths|
      invariant 0 <= i <= |paths|
      invariant trace == Actions(paths[..i], SpaceFileAction)
    {
      ActionsStep(paths, i, SpaceFileAction);
      trace := trace + [SpaceFileAction(paths[i])];
      i := i + 1;
    }
    assert paths[..i] == paths;
  }

  /** Each configured path gets exactly one action, in order, and nothing is copied. */
  lemma EveryPathRoutedOnce(paths: seq<string>)
    requires paths != []
    ensures var trace := GeoLoadTrace(Some(paths));
      |trace| == |paths| &&
      (forall j | 0 <= j < |paths| :: trace[j] == SpaceFileAction(paths[j]) && trace[j].path == paths[j]) &&
      CopyData !in trace
  {
    var trace := GeoLoadTrace(Some(paths));
    ActionsAt(paths, SpaceFileAction);
    StandardRoutings();
    assert forall j | 0 <= j < |paths| :: !trace[j].CopyData?;
  }

  /** The records inserted for a list of polygons. */
  function NewSpaces(polygons: seq<Polygon>): (rs: seq<ParkingSpace>)
    ensures |rs| == |polygons| && forall i | 0 <= i < |polygons| :: rs[i] == NewSpace(polygons[i])
  {
    seq(|polygons|, i requires 0 <= i < |polygons| => NewSpace(polygons[i]))
  }

  /** `loadGeoJson`: every polygon of the file is inserted, with no duplicate check; a
      feature that cannot be converted fails the file before anything is inserted. */
  method LoadGeoJson(db: Database, tree: Json) returns (error: Option<JsonError>)
    requires db.Valid()
    modifies db`spaces
    ensures db.Valid()
    ensures var ps := PolygonsOf(Elements(Path(tree, "features")));
      (error.Some? <==> ps.Failure?) &&
      (ps.Failure? ==> error.value == ps.error && db.spaces == old(db.spaces)) &&
      (ps.Success? ==> db.spaces == InsertAll(old(db.spaces), NewSpaces(ps.value)))
  {
    var polygons := GetPolygonsFromGeoJson(tree);
    if polygons.Failure? {
      return Some(polygons.error);
    }
    var ps := polygons.value;
    ghost var t0 := db.spaces;
    ghost var rs := NewSpaces(ps);
    var i := 0;
    while i < |ps|
      invariant 0 <= i <= |ps| && db.Valid()
      invariant db.spaces == InsertAll(t0, rs[..i])
    {
      assert rs[..i + 1][..i] == rs[..i];
      db.spaces := db.spaces.Insert(NewSpace(ps[i]));
      i := i + 1;
    }
    assert rs[..i] == rs;
    return None;
  }

  /** `loadCsv`: every record of the file is saved as it is. */
  method LoadCsv(db: Database, csvParkingSpaces: seq<ParkingSpace>)
    requires db.Valid()
    modifies db`spaces
    ensures db.Valid()
    ensures db.spaces == InsertAll(old(db.spaces), csvParkingSpaces)
  {
    ghost var t0 := db.spaces;
    var i := 0;
    while i < |csvParkingSpaces|
      invariant 0 <= i <= |csvParkingSpaces| && db.Valid()
      invariant db.spaces == InsertAll(t0, csvParkingSpaces[..i])
    {
      assert csvParkingSpaces[..i + 1][..i] == csvParkingSpaces[..i];
      db.spaces := db.spaces.Insert(csvParkingSpaces[i]);
      i := i + 1;
    }
    assert csvParkingSpaces[..i] == csvParkingSpaces;
  }

  /** Without a duplicate check every polygon gets its own row, repeated polygons too:
      the `i`-th polygon is stored under the `i`-th new id. */
  lemma {:induction false} GeoJsonLoadKeepsDuplicates(t: Table<ParkingSpace>, polygons: seq<Polygon>)
    requires t.Valid()
    ensures |InsertAll(t, NewSpaces(polygons)).rows| == |t.rows| + |polygons|
    ensures forall id | t.nextId <= id < t.nextId + |polygons| ::
      id in InsertAll(t, NewSpaces(polygons)).rows &&
      InsertAll(t, NewSpaces(polygons)).rows[id].polygon == polygons[id - t.nextId]
  {
    SpacesAdded(t, polygons);
    forall id | t.nextId <= id < t.nextId + |polygons|
      ensures id in InsertAll(t, NewSpaces(polygons)).rows &&
        InsertAll(t, NewSpaces(polygons)).rows[id].polygon == polygons[id - t.nextId]
    {
      PolygonStoredAt(t, polygons, id - t.nextId);
    }
  }

  /** One new row per polygon. */
  lemma SpacesAdded(t: Table<ParkingSpace>, polygons: seq<Polygon>)
    requires t.Valid()
    ensures |InsertAll(t, NewSpaces(polygons)).rows| == |t.rows| + |polygons|
  {
    InsertAllRows(t, NewSpaces(polygons));
  }

  lemma PolygonStoredAt(t: Table<ParkingSpace>, polygons: seq<Polygon>, i: int)
    requires t.Valid() && 0 <= i < |polygons|
    ensures var u := InsertAll(t, NewSpaces(polygons));
      t.nextId + i in u.rows && u.rows[t.nextId + i].polygon == polygons[i]
  {
    InsertAllAt(t, NewSpaces(polygons), i);
  }

  /** `updateOccupancyStatus(id, occupied)`: only the status of an existing space changes. */
  method UpdateOccupancyStatus(db: Database, id: int, occupied: bool) returns (updated: bool)
    requires db.Valid()
    modifies db`spaces
    ensures db.Valid()
    ensures updated <==> id in old(db.spaces.rows)
    ensures !updated ==> db.spaces == old(db.spaces)
    ensures updated ==> db.spaces == old(db.spaces).Update(id, old(db.spaces.rows[id]).(occupied := occupied))
  {
    var parkingSpace := db.spaces.FindById(id);
    if parkingSpace.Some? {
      db.spaces := db.spaces.Update(id, parkingSpace.value.(occupied := occupied));
      return true;
    }
    return false;
  }

  /** `getAreaOfParkingSpaceById`: the stored area, empty when the id is absent. */
  function AreaOf(t: Table<ParkingSpace>, id: int): (r: Option<real>)
    ensures r.Some? <==> id in t.rows
    ensures r.Some? ==> r.value == t.rows[id].area
  {
    match t.FindById(id)
    case Some(space) => Some(space.area)
    case None => None
  }

  /** Changing the occupancy leaves every area as it was. */
  lemma OccupancyUpdateKeepsAreas(t: Table<ParkingSpace>, id: int, occupied: bool, other: int)
    requires id in t.rows
    ensures AreaOf(t.Update(id, t.rows[id].(occupied := occupied)), other) == AreaOf(t, other)
  {
  }
}
