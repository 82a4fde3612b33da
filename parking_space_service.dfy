/** `ParkingSpaceService`: loading parking-space polygons from GeoJSON and CSV files into
    `parking_spaces`, with a duplicate check and the overlap rule that sends a polygon to
    `overlapping_parking_spaces` instead; and the selection of the most recent timestamp. */
module ParkingSpaceService {
  import opened Wrappers
  import opened Geometry
  import opened Tables
  import opened Entities
  import opened Repositories
  import opened Strings
  import opened JsonHandler
  import opened DtoConverter

  /** `LIMIT 3` of `FIND_CLOSEST_CENTROIDS`. */
  const NeighbourLimit: int := 3

  /** The percentage a neighbour must exceed to make the candidate a shadow. */
  const OverlapPercentage: real := 70.0

  /** The result of `findPolygonByCentroid` followed by the WKT reader: no row (the
      `Optional` is empty and `get()` throws), text the reader refuses (a caught
      `ParseException`), or the neighbour's polygon. */
  datatype Lookup = NoRow | Unparsable | Found(polygon: Polygon)

  /** The two queries over `edited_parking_spaces` that the load reads (and never writes):
      the centroid texts of the edited spaces ordered by distance from a point, and the
      polygon whose centroid has a given text. */
  datatype NeighbourQueries = NeighbourQueries(
    closestCentroids: Point -> seq<string>,
    polygonByCentroid: string -> Lookup)

  /** `findClosestCentroids`: at most three centroids, the nearest first. */
  function ClosestCentroids(q: NeighbourQueries, centroid: Point): (cs: seq<string>)
    ensures |cs| <= NeighbourLimit
    ensures |cs| <= |q.closestCentroids(centroid)| && cs == q.closestCentroids(centroid)[..|cs|]
    ensures |cs| < NeighbourLimit ==> cs == q.closestCentroids(centroid)
  {
    var all := q.closestCentroids(centroid);
    if |all| <= NeighbourLimit then all else all[..NeighbourLimit]
  }

  /** `insertParkingSpaceFromPolygon`: a fresh parking space that only has its polygon. */
  function NewSpace(polygon: Polygon): (s: ParkingSpace)
    ensures s.polygon == polygon && !s.occupied && s.area == 0.0
    ensures s.capacity.None? && s.position.None? && s.centroid.None?
  {
    ParkingSpace(polygon, 0.0, None, None, false, None)
  }

  /** `insertOverlappingParkingSpaceFromPolygon`: a shadow that only has its polygon. */
  function NewShadow(polygon: Polygon): (o: OverlappingParkingSpace)
    ensures o.polygon == polygon && o.centroid.None? && o.parent.None?
    ensures o.capacity.None? && o.position.None?
  {
    OverlappingParkingSpace(polygon, None, None, None, None)
  }

  /** `(overlapArea / originalArea) * 100 > 70` in double arithmetic, where the
      "overlap area" is the neighbour's whole area. A zero candidate area gives an
      infinite percentage for a positive numerator and NaN (never greater) otherwise. */
  predicate Exceeds70(neighbourArea: real, candidateArea: real)
    ensures candidateArea != 0.0 ==>
      (Exceeds70(neighbourArea, candidateArea) <==> neighbourArea / candidateArea > 0.7)
  {
    if candidateArea == 0.0 then neighbourArea > 0.0
    else neighbourArea / candidateArea * 100.0 > OverlapPercentage
  }

  /** For a positive candidate area the rule is: the neighbour is more than 70% as large. */
  lemma Exceeds70Meaning(neighbourArea: real, candidateArea: real)
    requires candidateArea > 0.0
    ensures Exceeds70(neighbourArea, candidateArea) <==> neighbourArea > 0.7 * candidateArea
  {
    var ratio := neighbourArea / candidateArea;
    assert neighbourArea == ratio * candidateArea;
    if ratio * 100.0 > OverlapPercentage {
      assert ratio > 0.7;
      assert ratio * candidateArea > 0.7 * candidateArea;
    } else {
      assert ratio <= 0.7;
      assert ratio * candidateArea <= 0.7 * candidateArea;
    }
  }

  /** Exactly 70% is not enough: the comparison is strict. */
  lemma ExactlySeventyIsNotOverlap(candidateArea: real)
    requires candidateArea > 0.0
    ensures !Exceeds70(0.7 * candidateArea, candidateArea)
  {
    Exceeds70Meaning(0.7 * candidateArea, candidateArea);
  }

  /** `isPolygonUnique`: no stored parking space has a polygon `ST_Equals` to this one. */
  function IsPolygonUnique(t: Table<ParkingSpace>, g: GeometryOracle, polygon: Polygon): (unique: bool)
    ensures unique <==> forall k | k in t.rows :: !g.equalsGeom(t.rows[k].polygon, polygon)
  {
    CountSamePolygons(t, g, polygon) == 0
  }

  // ---------------------------------------------------------------------------
  // loadPolygons

  /** The two tables the load writes, the `duplicatePolygons` counter, and whether an
      exception has ended the load. */
  datatype LoadState = LoadState(
    spaces: Table<ParkingSpace>,
    overlapping: Table<OverlappingParkingSpace>,
    duplicates: nat,
    aborted: bool)

  ghost predicate StateValid(s: LoadState)
  {
    s.spaces.Valid() && s.overlapping.Valid()
  }

  /** Rows of both tables together. */
  function TotalRows(s: LoadState): nat
  {
    |s.spaces.rows| + |s.overlapping.rows|
  }

  /** The candidate becomes a shadow with respect to this neighbour. */
  predicate GoesToOverlapping(g: GeometryOracle, neighbour: Polygon, candidate: Polygon)
  {
    g.intersectionArea(neighbour, candidate) > 0.0 && Exceeds70(g.area(neighbour), g.area(candidate))
  }

  /** The inner loop body for one neighbour centroid. */
  function NeighbourStep(s: LoadState, g: GeometryOracle, p: Polygon, lookup: Lookup): (r: LoadState)
    requires StateValid(s)
    ensures StateValid(r)
    ensures s.aborted || lookup.Unparsable? ==> r == s
    ensures !s.aborted && lookup.NoRow? ==> r == s.(aborted := true)
    // a found neighbour: exactly one row holding the candidate, in one of the two tables
    ensures !s.aborted && lookup.Found? ==>
      !r.aborted && r.duplicates == s.duplicates && TotalRows(r) == TotalRows(s) + 1 &&
      if GoesToOverlapping(g, lookup.polygon, p)
      then r.spaces == s.spaces && s.overlapping.nextId in r.overlapping.rows &&
           r.overlapping.rows[s.overlapping.nextId] == NewShadow(p)
      else r.overlapping == s.overlapping && s.spaces.nextId in r.spaces.rows &&
           r.spaces.rows[s.spaces.nextId] == NewSpace(p)
  {
    if s.aborted then s
    else match lookup
      case NoRow => s.(aborted := true)
      case Unparsable => s
      case Found(neighbour) =>
        if g.intersectionArea(neighbour, p) > 0.0 then
          if Exceeds70(g.area(neighbour), g.area(p)) then s.(overlapping := s.overlapping.Insert(NewShadow(p)))
          else s.(spaces := s.spaces.Insert(NewSpace(p)))
        else s.(spaces := s.spaces.Insert(NewSpace(p)))
  }

  /** The inner loop over the first `|cs|` neighbour centroids of candidate `p`. */
  function Neighbours(s: LoadState, g: GeometryOracle, q: NeighbourQueries, p: Polygon, cs: seq<string>): (r: LoadState)
    requires StateValid(s)
    ensures StateValid(r)
    decreases |cs|
  {
    if cs == [] then s
    else NeighbourStep(Neighbours(s, g, q, p, cs[..|cs| - 1]), g, p, q.polygonByCentroid(cs[|cs| - 1]))
  }

  /** The outer loop body for one polygon of the file. */
  function PolygonStep(s: LoadState, g: GeometryOracle, q: NeighbourQueries, p: Polygon): (r: LoadState)
    requires StateValid(s)
    ensures StateValid(r)
  {
    if s.aborted then s
    else if !IsPolygonUnique(s.spaces, g, p) then s.(duplicates := s.duplicates + 1)
    else Neighbours(s, g, q, p, ClosestCentroids(q, g.centroid(p)))
  }

  /** The load of the first `|ps|` polygons. */
  function LoadAll(s: LoadState, g: GeometryOracle, q: NeighbourQueries, ps: seq<Polygon>): (r: LoadState)
    requires StateValid(s)
    ensures StateValid(r)
    decreases |ps|
  {
    if ps == [] then s else PolygonStep(LoadAll(s, g, q, ps[..|ps| - 1]), g, q, ps[|ps| - 1])
  }

  lemma {:induction false} NeighboursAbortIsFinal(s: LoadState, g: GeometryOracle, q: NeighbourQueries, p: Polygon, cs: seq<string>, j: int)
    requires StateValid(s) && 0 <= j <= |cs| && Neighbours(s, g, q, p, cs[..j]).aborted
    ensures Neighbours(s, g, q, p, cs) == Neighbours(s, g, q, p, cs[..j])
    decreases |cs| - j
  {
    if j < |cs| {
      assert cs[..j + 1][..j] == cs[..j];
      NeighboursAbortIsFinal(s, g, q, p, cs, j + 1);
    } else {
      assert cs[..j] == cs;
    }
  }

  lemma {:induction false} LoadAllAbortIsFinal(s: LoadState, g: GeometryOracle, q: NeighbourQueries, ps: seq<Polygon>, i: int)
    requires StateValid(s) && 0 <= i <= |ps| && LoadAll(s, g, q, ps[..i]).aborted
    ensures LoadAll(s, g, q, ps) == LoadAll(s, g, q, ps[..i])
    decreases |ps| - i
  {
    if i < |ps| {
      assert ps[..i + 1][..i] == ps[..i];
      LoadAllAbortIsFinal(s, g, q, ps, i + 1);
    } else {
      assert ps[..i] == ps;
    }
  }

  /** The exceptions that end a polygon load. */
  datatype LoadError =
    | NoSuchElement            // `Optional.get()` on a centroid without a polygon
    | BadGeoJson(e: JsonError) // converting a feature failed

  /** One neighbour's verdict: a candidate overlapping it by more than 70% becomes a
      shadow, otherwise it becomes a parking space. */
  method PlaceCandidate(db: Database, g: GeometryOracle, neighbouringPolygon: Polygon, polygon: Polygon)
    requires db.Valid()
    modifies db`spaces, db`overlapping
    ensures db.Valid()
    ensures if GoesToOverlapping(g, neighbouringPolygon, polygon)
      then db.overlapping == old(db.overlapping).Insert(NewShadow(polygon)) && db.spaces == old(db.spaces)
      else db.spaces == old(db.spaces).Insert(NewSpace(polygon)) && db.overlapping == old(db.overlapping)
  {
    if g.intersectionArea(neighbouringPolygon, polygon) > 0.0 {
      var originalArea := g.area(polygon);
      var overlapArea := g.area(neighbouringPolygon);
      if Exceeds70(overlapArea, originalArea) {
        db.overlapping := db.overlapping.Insert(NewShadow(polygon));
      } else {
        db.spaces := db.spaces.Insert(NewSpace(polygon));
      }
    } else {
      db.spaces := db.spaces.Insert(NewSpace(polygon));
    }
  }

  /** The inner loop of `loadPolygons` for a unique candidate: each of its closest
      centroids' polygons decides into which table one copy of the candidate goes; a
      centroid without a row throws, keeping what was inserted before it. */
  method LoadAgainstNeighbours(db: Database, g: GeometryOracle, q: NeighbourQueries, polygon: Polygon,
                               duplicatePolygons: nat)
    returns (aborted: bool)
    requires db.Valid()
    modifies db`spaces, db`overlapping
    ensures db.Valid()
    ensures Neighbours(LoadState(old(db.spaces), old(db.overlapping), duplicatePolygons, false), g, q, polygon,
                       ClosestCentroids(q, g.centroid(polygon))) ==
      LoadState(db.spaces, db.overlapping, duplicatePolygons, aborted)
  {
    ghost var before := LoadState(db.spaces, db.overlapping, duplicatePolygons, false);
    var newPolygonCentroid := g.centroid(polygon);
    var closestCentroids := ClosestCentroids(q, newPolygonCentroid);
    var j := 0;
    while j < |closestCentroids|
      invariant 0 <= j <= |closestCentroids| && db.Valid()
      invariant Neighbours(before, g, q, polygon, closestCentroids[..j]) ==
        LoadState(db.spaces, db.overlapping, duplicatePolygons, false)
    {
      assert closestCentroids[..j + 1][..j] == closestCentroids[..j];
      var polygonByCentroid := q.polygonByCentroid(closestCentroids[j]);
      assert Neighbours(before, g, q, polygon, closestCentroids[..j + 1]) ==
        NeighbourStep(LoadState(db.spaces, db.overlapping, duplicatePolygons, false), g, polygon, polygonByCentroid);
      match polygonByCentroid {
      case NoRow =>
        NeighboursAbortIsFinal(before, g, q, polygon, closestCentroids, j + 1);
        return true;
      case Unparsable =>
      case Found(neighbouringPolygon) =>
        PlaceCandidate(db, g, neighbouringPolygon, polygon);
      }
      j := j + 1;
    }
    assert closestCentroids[..j] == closestCentroids;
    return false;
  }

  /** `loadPolygons` over the converted polygons of one file, with `findCentroid` being the
      oracle's centroid. On success the result is the `duplicatePolygons` count the source
      logs; on an exception, the rows inserted before it stay. */
  method LoadPolygons(db: Database, g: GeometryOracle, q: NeighbourQueries, polygons: seq<Polygon>)
    returns (r: Result<nat, LoadError>)
    requires db.Valid()
    modifies db`spaces, db`overlapping
    ensures db.Valid()
    ensures var s := LoadAll(LoadState(old(db.spaces), old(db.overlapping), 0, false), g, q, polygons);
      db.spaces == s.spaces && db.overlapping == s.overlapping &&
      (r.Success? <==> !s.aborted) && (r.Success? ==> r.value == s.duplicates) &&
      (r.Failure? ==> r.error == NoSuchElement)
  {
    ghost var s0 := LoadState(db.spaces, db.overlapping, 0, false);
    var duplicatePolygons: nat := 0;
    var i := 0;
    while i < |polygons|
      invariant 0 <= i <= |polygons| && db.Valid()
      invariant LoadAll(s0, g, q, polygons[..i]) == LoadState(db.spaces, db.overlapping, duplicatePolygons, false)
    {
      var polygon := polygons[i];
      assert polygons[..i + 1][..i] == polygons[..i];
      if IsPolygonUnique(db.spaces, g, polygon) {
        var aborted := LoadAgainstNeighbours(db, g, q, polygon, duplicatePolygons);
        if aborted {
          LoadAllAbortIsFinal(s0, g, q, polygons, i + 1);
          return Failure(NoSuchElement);
        }
      } else {
        duplicatePolygons := duplicatePolygons + 1;
      }
      i := i + 1;
    }
    assert polygons[..i] == polygons;
    return Success(duplicatePolygons);
  }

  /** A polygon equal to a stored one inserts nothing anywhere and raises the counter by one. */
  lemma DuplicateIsSkippedAndCounted(s: LoadState, g: GeometryOracle, q: NeighbourQueries, p: Polygon)
    requires StateValid(s) && !s.aborted
    requires exists k | k in s.spaces.rows :: g.equalsGeom(s.spaces.rows[k].polygon, p)
    ensures var r := PolygonStep(s, g, q, p);
      r.spaces == s.spaces && r.overlapping == s.overlapping && r.duplicates == s.duplicates + 1 && !r.aborted
  {
  }

  /** A neighbour the candidate does not intersect puts the candidate into the main table. */
  lemma NoIntersectionGoesToMainTable(s: LoadState, g: GeometryOracle, p: Polygon, neighbour: Polygon)
    requires StateValid(s) && !s.aborted && g.intersectionArea(neighbour, p) <= 0.0
    ensures var r := NeighbourStep(s, g, p, Found(neighbour));
      r.overlapping == s.overlapping && |r.spaces.rows| == |s.spaces.rows| + 1 &&
      r.spaces.rows[s.spaces.nextId] == NewSpace(p)
  {
  }

  /** The number of neighbour centroids whose polygon was found and read. */
  function FoundCount(q: NeighbourQueries, cs: seq<string>): (n: nat)
    ensures n <= |cs|
    decreases |cs|
  {
    if cs == [] then 0
    else FoundCount(q, cs[..|cs| - 1]) + (if q.polygonByCentroid(cs[|cs| - 1]).Found? then 1 else 0)
  }

  /** Without a missing polygon, the inner loop inserts the candidate exactly once per
      neighbour that was found, and only the candidate. */
  lemma {:induction false} NeighboursInsertOncePerFound(s: LoadState, g: GeometryOracle, q: NeighbourQueries, p: Polygon, cs: seq<string>)
    requires StateValid(s) && !s.aborted
    requires forall i | 0 <= i < |cs| :: !q.polygonByCentroid(cs[i]).NoRow?
    ensures var r := Neighbours(s, g, q, p, cs);
      !r.aborted && r.duplicates == s.duplicates && TotalRows(r) == TotalRows(s) + FoundCount(q, cs)
    ensures var r := Neighbours(s, g, q, p, cs);
      forall k | k in r.spaces.rows ::
        (k in s.spaces.rows && r.spaces.rows[k] == s.spaces.rows[k]) || r.spaces.rows[k] == NewSpace(p)
    ensures var r := Neighbours(s, g, q, p, cs);
      forall k | k in r.overlapping.rows ::
        (k in s.overlapping.rows && r.overlapping.rows[k] == s.overlapping.rows[k]) || r.overlapping.rows[k] == NewShadow(p)
    decreases |cs|
  {
    if cs != [] {
      var init := cs[..|cs| - 1];
      NeighboursInsertOncePerFound(s, g, q, p, init);
      var prev := Neighbours(s, g, q, p, init);
      var r := NeighbourStep(prev, g, p, q.polygonByCentroid(cs[|cs| - 1]));
      assert r == Neighbours(s, g, q, p, cs);
      forall k | k in r.spaces.rows
        ensures (k in s.spaces.rows && r.spaces.rows[k] == s.spaces.rows[k]) || r.spaces.rows[k] == NewSpace(p)
      {
        if k in prev.spaces.rows && r.spaces.rows[k] == prev.spaces.rows[k] {
        } else {
          assert r.spaces.rows[k] == NewSpace(p);
        }
      }
      forall k | k in r.overlapping.rows
        ensures (k in s.overlapping.rows && r.overlapping.rows[k] == s.overlapping.rows[k]) || r.overlapping.rows[k] == NewShadow(p)
      {
        if k in prev.overlapping.rows && r.overlapping.rows[k] == prev.overlapping.rows[k] {
        } else {
          assert r.overlapping.rows[k] == NewShadow(p);
        }
      }
    }
  }

  /** A unique candidate is inserted once per found neighbour, so at most three times,
      and not at all when the neighbour query returns nothing. */
  lemma UniqueCandidateInsertions(s: LoadState, g: GeometryOracle, q: NeighbourQueries, p: Polygon)
    requires StateValid(s) && !s.aborted && IsPolygonUnique(s.spaces, g, p)
    requires var cs := ClosestCentroids(q, g.centroid(p));
      forall i | 0 <= i < |cs| :: !q.polygonByCentroid(cs[i]).NoRow?
    ensures var r := PolygonStep(s, g, q, p);
      !r.aborted && r.duplicates == s.duplicates &&
      TotalRows(r) == TotalRows(s) + FoundCount(q, ClosestCentroids(q, g.centroid(p))) &&
      TotalRows(r) <= TotalRows(s) + NeighbourLimit
    ensures q.closestCentroids(g.centroid(p)) == [] ==> PolygonStep(s, g, q, p) == s
  {
    NeighboursInsertOncePerFound(s, g, q, p, ClosestCentroids(q, g.centroid(p)));
  }

  /** A neighbour centroid without a polygon ends the whole load with an exception. */
  lemma {:induction false} MissingNeighbourAborts(s: LoadState, g: GeometryOracle, q: NeighbourQueries, p: Polygon, cs: seq<string>, i: int)
    requires StateValid(s) && 0 <= i < |cs| && q.polygonByCentroid(cs[i]).NoRow?
    ensures Neighbours(s, g, q, p, cs).aborted
    decreases |cs|
  {
    if i < |cs| - 1 {
      MissingNeighbourAborts(s, g, q, p, cs[..|cs| - 1], i);
    }
  }

  /** `loadGeoJson` on a file's text and its parsed tree: a file that does not mention
      "Polygon" is only reported; otherwise all features are converted first and then
      loaded. */
  method LoadGeoJson(db: Database, g: GeometryOracle, q: NeighbourQueries, geoJsonData: string, tree: Json)
    returns (r: Result<nat, LoadError>)
    requires db.Valid()
    modifies db`spaces, db`overlapping
    ensures db.Valid()
    ensures !Contains(geoJsonData, "Polygon") ==>
      r == Success(0) && db.spaces == old(db.spaces) && db.overlapping == old(db.overlapping)
    ensures Contains(geoJsonData, "Polygon") && PolygonsOf(Elements(Path(tree, "features"))).Failure? ==>
      r == Failure(BadGeoJson(PolygonsOf(Elements(Path(tree, "features"))).error)) &&
      db.spaces == old(db.spaces) && db.overlapping == old(db.overlapping)
    ensures Contains(geoJsonData, "Polygon") && PolygonsOf(Elements(Path(tree, "features"))).Success? ==>
      var s := LoadAll(LoadState(old(db.spaces), old(db.overlapping), 0, false), g, q,
                       PolygonsOf(Elements(Path(tree, "features"))).value);
      db.spaces == s.spaces && db.overlapping == s.overlapping && (r.Success? <==> !s.aborted) &&
      (r.Success? ==> r.value == s.duplicates) && (r.Failure? ==> r.error == NoSuchElement)
  {
    if Contains(geoJsonData, "Polygon") {
      var polygons := GetPolygonsFromGeoJson(tree);
      if polygons.Failure? {
        return Failure(BadGeoJson(polygons.error));
      }
      r := LoadPolygons(db, g, q, polygons.value);
    } else {
      r := Success(0);
    }
  }

  // ---------------------------------------------------------------------------
  // loadCsv

  /** One CSV record: saved as it is when its polygon is unique, skipped otherwise. */
  function CsvStep(t: Table<ParkingSpace>, g: GeometryOracle, space: ParkingSpace): (u: Table<ParkingSpace>)
    requires t.Valid()
    ensures u.Valid()
    ensures IsPolygonUnique(t, g, space.polygon) <==> |u.rows| == |t.rows| + 1
    ensures IsPolygonUnique(t, g, space.polygon) ==> t.nextId in u.rows && u.rows[t.nextId] == space
    ensures !IsPolygonUnique(t, g, space.polygon) ==> u == t
    ensures forall k | k in t.rows :: k in u.rows && u.rows[k] == t.rows[k]
  {
    if IsPolygonUnique(t, g, space.polygon) then t.Insert(space) else t
  }

  /** The table after the first `|spaces|` records. */
  function LoadCsvRows(t: Table<ParkingSpace>, g: GeometryOracle, spaces: seq<ParkingSpace>): (u: Table<ParkingSpace>)
    requires t.Valid()
    ensures u.Valid()
    decreases |spaces|
  {
    if spaces == [] then t else CsvStep(LoadCsvRows(t, g, spaces[..|spaces| - 1]), g, spaces[|spaces| - 1])
  }

  /** `loadCsv` over the records read from one file. */
  method LoadCsv(db: Database, g: GeometryOracle, csvParkingSpaces: seq<ParkingSpace>)
    requires db.Valid()
    modifies db`spaces
    ensures db.Valid()
    ensures db.spaces == LoadCsvRows(old(db.spaces), g, csvParkingSpaces)
  {
    ghost var t0 := db.spaces;
    var i := 0;
    while i < |csvParkingSpaces|
      invariant 0 <= i <= |csvParkingSpaces| && db.Valid()
      invariant db.spaces == LoadCsvRows(t0, g, csvParkingSpaces[..i])
    {
      var parkingSpace := csvParkingSpaces[i];
      assert csvParkingSpaces[..i + 1][..i] == csvParkingSpaces[..i];
      assert LoadCsvRows(t0, g, csvParkingSpaces[..i + 1]) == CsvStep(db.spaces, g, parkingSpace);
      if IsPolygonUnique(db.spaces, g, parkingSpace.polygon) {
        db.spaces := db.spaces.Insert(parkingSpace);
      }
      i := i + 1;
    }
    assert csvParkingSpaces[..i] == csvParkingSpaces;
  }

  /** No stored polygon is `ST_Equals` to a polygon stored after it. */
  ghost predicate NoLaterEqualPolygon(t: Table<ParkingSpace>, g: GeometryOracle)
  {
    forall a, b | a in t.rows && b in t.rows && a < b :: !g.equalsGeom(t.rows[a].polygon, t.rows[b].polygon)
  }

  /** Loading a CSV file keeps the table free of later duplicates. */
  lemma {:induction false} LoadCsvKeepsPolygonsUnique(t: Table<ParkingSpace>, g: GeometryOracle, spaces: seq<ParkingSpace>)
    requires t.Valid() && NoLaterEqualPolygon(t, g)
    ensures NoLaterEqualPolygon(LoadCsvRows(t, g, spaces), g)
    decreases |spaces|
  {
    if spaces != [] {
      var prev := LoadCsvRows(t, g, spaces[..|spaces| - 1]);
      LoadCsvKeepsPolygonsUnique(t, g, spaces[..|spaces| - 1]);
      var space := spaces[|spaces| - 1];
      var u := CsvStep(prev, g, space);
      if IsPolygonUnique(prev, g, space.polygon) {
        forall a, b | a in u.rows && b in u.rows && a < b
          ensures !g.equalsGeom(u.rows[a].polygon, u.rows[b].polygon)
        {
          assert a in prev.rows;
          if b != prev.nextId {
            assert b in prev.rows;
          }
        }
      }
    }
  }

  /** Two records of one file with `ST_Equals` polygons yield at most one stored record. */
  lemma RepeatedPolygonStoredOnce(t: Table<ParkingSpace>, g: GeometryOracle, x: ParkingSpace, y: ParkingSpace)
    requires t.Valid() && g.equalsGeom(x.polygon, y.polygon)
    ensures |LoadCsvRows(t, g, [x, y]).rows| <= |t.rows| + 1
  {
    assert [x, y][..1] == [x];
    assert [x][..0] == [];
    var afterX := CsvStep(t, g, x);
    assert LoadCsvRows(t, g, [x]) == afterX;
    if IsPolygonUnique(t, g, x.polygon) {
      assert afterX.rows[t.nextId].polygon == x.polygon;
      assert !IsPolygonUnique(afterX, g, y.polygon);
    }
  }

  // ---------------------------------------------------------------------------
  // getMostRecentTimestamp

  /** `ParseException` of `SimpleDateFormat.parse`. */
  datatype DateError = ParseError

  /** `Collections.max` by timestamp text: the position of the first element whose text
      no other text exceeds in `compareTo` order. */
  function LexMaxIndex(xs: seq<TimestampDto>): (i: nat)
    requires |xs| > 0
    ensures i < |xs|
    ensures forall j | 0 <= j < |xs| :: !LexLess(xs[i].timestamp, xs[j].timestamp)
    ensures forall j | 0 <= j < i :: LexLess(xs[j].timestamp, xs[i].timestamp)
    decreases |xs|
  {
    if |xs| == 1 then
      LexLessIrreflexive(xs[0].timestamp);
      0
    else
      var k := LexMaxIndex(xs[..|xs| - 1]);
      var last := |xs| - 1;
      if LexLess(xs[k].timestamp, xs[last].timestamp) then
        assert forall j | 0 <= j < last :: LexLess(xs[j].timestamp, xs[last].timestamp) by {
          forall j | 0 <= j < last ensures LexLess(xs[j].timestamp, xs[last].timestamp) {
            assert xs[..last][j] == xs[j] && xs[..last][k] == xs[k];
            LexLessBelow(xs[j].timestamp, xs[k].timestamp, xs[last].timestamp);
          }
        }
        assert forall j | 0 <= j < |xs| :: !LexLess(xs[last].timestamp, xs[j].timestamp) by {
          forall j | 0 <= j < |xs| ensures !LexLess(xs[last].timestamp, xs[j].timestamp) {
            if j == last {
              LexLessIrreflexive(xs[j].timestamp);
            } else {
              LexLessAsymmetric(xs[j].timestamp, xs[last].timestamp);
            }
          }
        }
        last
      else
        assert forall j | 0 <= j < k :: xs[..last][j] == xs[j];
        assert forall j | 0 <= j < last :: xs[..last][j] == xs[j];
        k
  }

  /** A text no greater than `b` is below anything above `b`. */
  lemma LexLessBelow(a: string, b: string, c: string)
    requires !LexLess(b, a) && LexLess(b, c)
    ensures LexLess(a, c)
  {
    LexLessTotal(a, b);
    if a != b {
      LexLessTransitive(a, b, c);
    }
  }

  /** `getMostRecentTimestamp`: `null` when both lists are empty; the maximum of the
      non-empty list when only one is; otherwise each list's maximum by text, of which
      the first list's wins only when its parsed instant is strictly later. `instant` is
      `SimpleDateFormat("dd.MM.yyyy HH:mm:ss").parse`, `None` for a parse error. */
  function MostRecentTimestamp(first: seq<TimestampDto>, original: seq<TimestampDto>, instant: string -> Option<int>)
    : (r: Result<Option<TimestampDto>, DateError>)
    ensures r == Success(None) <==> first == [] && original == []
    ensures r.Success? && r.value.Some? ==> r.value.value in first || r.value.value in original
    ensures first == [] && original != [] ==>
      r.Success? && r.value.Some? && r.value.value in original &&
      forall x | x in original :: !LexLess(r.value.value.timestamp, x.timestamp)
    ensures first != [] && original == [] ==>
      r.Success? && r.value.Some? && r.value.value in first &&
      forall x | x in first :: !LexLess(r.value.value.timestamp, x.timestamp)
    ensures first != [] && original != [] ==>
      (r.Failure? <==> instant(first[LexMaxIndex(first)].timestamp).None? ||
                       instant(original[LexMaxIndex(original)].timestamp).None?)
    // both maxima parse: the first list's wins exactly when it is strictly later
    ensures first != [] && original != [] && r.Success? ==>
      var a := first[LexMaxIndex(first)];
      var b := original[LexMaxIndex(original)];
      r.value.Some? && instant(a.timestamp).Some? && instant(b.timestamp).Some? &&
      (instant(a.timestamp).value > instant(b.timestamp).value ==> r.value.value == a) &&
      (instant(a.timestamp).value <= instant(b.timestamp).value ==> r.value.value == b)
  {
    if first == [] && original == [] then Success(None)
    else if first == [] then Success(Some(original[LexMaxIndex(original)]))
    else if original == [] then Success(Some(first[LexMaxIndex(first)]))
    else
      var mostRecentFirst := first[LexMaxIndex(first)];
      var mostRecentOriginal := original[LexMaxIndex(original)];
      match (instant(mostRecentFirst.timestamp), instant(mostRecentOriginal.timestamp))
      case (Some(a), Some(b)) => Success(Some(if a > b then mostRecentFirst else mostRecentOriginal))
      case _ => Failure(ParseError)
  }

  /** With both lists non-empty, the original list's maximum wins unless the first list's
      maximum is strictly later: equal instants go to the original list. */
  lemma TiesGoToOriginal(first: seq<TimestampDto>, original: seq<TimestampDto>, instant: string -> Option<int>)
    requires first != [] && original != []
    requires var a := instant(first[LexMaxIndex(first)].timestamp);
      var b := instant(original[LexMaxIndex(original)].timestamp);
      a.Some? && b.Some? && a.value <= b.value
    ensures MostRecentTimestamp(first, original, instant) == Success(Some(original[LexMaxIndex(original)]))
  {
  }

  /** The texts are compared as strings, and day-first text does not sort by date: of
      31 January 2023 and 1 December 2024, the 2023 entry is chosen although the parser
      places it earlier. */
  lemma StringOrderIsNotChronological(instant: string -> Option<int>)
    requires instant("31.01.2023 00:00:00").Some? && instant("01.12.2024 00:00:00").Some?
    requires instant("31.01.2023 00:00:00").value < instant("01.12.2024 00:00:00").value
    ensures var older := TimestampDto(1, 1, "31.01.2023 00:00:00");
      var newer := TimestampDto(2, 1, "01.12.2024 00:00:00");
      MostRecentTimestamp([older, newer], [], instant) == Success(Some(older)) &&
      instant(older.timestamp).value < instant(newer.timestamp).value
  {
    var older := TimestampDto(1, 1, "31.01.2023 00:00:00");
    var newer := TimestampDto(2, 1, "01.12.2024 00:00:00");
    assert !LexLess(older.timestamp, newer.timestamp) by {
      assert older.timestamp[0] == '3' && newer.timestamp[0] == '0';
    }
    assert [older, newer][..1] == [older];
  }

  /** The position of the first element with the latest instant; every instant parses. */
  function LatestIndex(xs: seq<TimestampDto>, instant: string -> Option<int>): (i: nat)
    requires |xs| > 0 && forall x | x in xs :: instant(x.timestamp).Some?
    ensures i < |xs|
    ensures forall j | 0 <= j < |xs| :: instant(xs[j].timestamp).value <= instant(xs[i].timestamp).value
    decreases |xs|
  {
    if |xs| == 1 then 0
    else
      var k := LatestIndex(xs[..|xs| - 1], instant);
      assert forall j | 0 <= j < |xs| - 1 :: xs[..|xs| - 1][j] == xs[j];
      if instant(xs[k].timestamp).value < instant(xs[|xs| - 1].timestamp).value then |xs| - 1 else k
  }

  /** The selection as evidently intended: the latest instant over both lists (the
      original list on a tie), failing when any text does not parse. */
  function MostRecentByInstant(first: seq<TimestampDto>, original: seq<TimestampDto>, instant: string -> Option<int>)
    : (r: Result<Option<TimestampDto>, DateError>)
    ensures r.Failure? <==> exists x | x in first + original :: instant(x.timestamp).None?
    ensures r == Success(None) <==> first == [] && original == []
    ensures r.Success? && r.value.Some? ==>
      (r.value.value in first || r.value.value in original) &&
      forall x | x in first + original :: instant(x.timestamp).value <= instant(r.value.value.timestamp).value
    // ties go to the original list: a result taken from the first list only is strictly
    // later than every original entry
    ensures r.Success? && r.value.Some? && r.value.value !in original ==>
      forall y | y in original :: instant(y.timestamp).value < instant(r.value.value.timestamp).value
  {
    if exists x | x in first + original :: instant(x.timestamp).None? then Failure(ParseError)
    else
      assert forall x | x in first :: x in first + original;
      assert forall x | x in original :: x in first + original;
      if first == [] && original == [] then Success(None)
      else if first == [] then Success(Some(original[LatestIndex(original, instant)]))
      else if original == [] then Success(Some(first[LatestIndex(first, instant)]))
      else
        var a := first[LatestIndex(first, instant)];
        var b := original[LatestIndex(original, instant)];
        Success(Some(if instant(a.timestamp).value > instant(b.timestamp).value then a else b))
  }

  /** On the same two texts the intended selection picks the later date. */
  lemma IntendedSelectionIsChronological(instant: string -> Option<int>)
    requires instant("31.01.2023 00:00:00").Some? && instant("01.12.2024 00:00:00").Some?
    requires instant("31.01.2023 00:00:00").value < instant("01.12.2024 00:00:00").value
    ensures var older := TimestampDto(1, 1, "31.01.2023 00:00:00");
      var newer := TimestampDto(2, 1, "01.12.2024 00:00:00");
      MostRecentByInstant([older, newer], [], instant) == Success(Some(newer))
  {
    var older := TimestampDto(1, 1, "31.01.2023 00:00:00");
    var newer := TimestampDto(2, 1, "01.12.2024 00:00:00");
    assert [older, newer] + [] == [older, newer];
    assert forall x | x in [older, newer] :: x == older || x == newer;
    var r := MostRecentByInstant([older, newer], [], instant);
    assert r.Success? && r.value.Some?;
    assert r.value.value == older || r.value.value == newer;
    assert newer in [older, newer] + [];
  }
}
