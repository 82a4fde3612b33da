/** `JsonHandler`: reading polygons out of a parsed GeoJSON tree and writing a polygon's
    coordinates as JSON. The tree is given already parsed (Jackson's `readTree` is not
    part of this model); numbers are formatted by a caller-supplied function. */
module JsonHandler {
  import opened Wrappers
  import opened Geometry

  /** A Jackson `JsonNode`. `JMissing` is the node `path` returns for an absent field. */
  datatype Json =
    | JMissing
    | JNull
    | JBool(b: bool)
    | JNumber(value: real)
    | JText(text: string)
    | JArray(items: seq<Json>)
    | JObject(fields: seq<Field>)

  datatype Field = Field(name: string, value: Json)

  /** The exceptions the conversion can raise. */
  datatype JsonError =
    | NullPointer        // iterating or reading a `null` returned by `get(int)`
    | IndexOutOfBounds   // `coordinatesList.get(0)` on an empty ring
    | IllegalArgument    // JTS refuses a closed ring of fewer than `MinRingSize` points

  /** JTS's smallest valid linear ring, `LinearRing.MINIMUM_VALID_SIZE`: three points
      since JTS 1.18, the release line that the Jakarta Persistence (Hibernate 6) spatial
      stack ships. A closed three-point ring, which has no area, is built. */
  const MinRingSize: int := 3

  /** The value of the last field called `name`: Jackson's object node keeps the last of
      duplicate keys. */
  function FieldValue(fields: seq<Field>, name: string): Json
    decreases |fields|
  {
    if fields == [] then JMissing
    else if fields[|fields| - 1].name == name then fields[|fields| - 1].value
    else FieldValue(fields[..|fields| - 1], name)
  }

  /** `node.path(name)`: the field's value, or the missing node. */
  function Path(node: Json, name: string): Json
  {
    if node.JObject? then FieldValue(node.fields, name) else JMissing
  }

  /** What `for (JsonNode child : node)` visits: array items, object field values, and
      nothing for any other node. */
  function Elements(node: Json): seq<Json>
  {
    match node
    case JArray(items) => items
    case JObject(fields) => ObjectValues(fields, 0)
    case _ => []
  }

  /** Whether `fields[k]` is the first field with its name. */
  predicate FirstOfName(fields: seq<Field>, k: nat)
    requires k < |fields|
  {
    forall j | 0 <= j < k :: fields[j].name != fields[k].name
  }

  /** The values of an object node from field `k` on: one per name, where the name first
      occurs, holding the last value given for it (Jackson's object node keeps one entry
      per name). */
  function ObjectValues(fields: seq<Field>, k: nat): (r: seq<Json>)
    requires k <= |fields|
    ensures |r| <= |fields| - k
    ensures forall v | v in r :: exists i | k <= i < |fields| :: v == FieldValue(fields, fields[i].name)
    decreases |fields| - k
  {
    if k == |fields| then []
    else if FirstOfName(fields, k) then [FieldValue(fields, fields[k].name)] + ObjectValues(fields, k + 1)
    else ObjectValues(fields, k + 1)
  }

  /** `node.get(i)`: an array item, or `null` for any other node or index. */
  function Get(node: Json, i: int): (r: Option<Json>)
    ensures r.Some? <==> node.JArray? && 0 <= i < |node.items|
  {
    if node.JArray? && 0 <= i < |node.items| then Some(node.items[i]) else None
  }

  /** `node.asDouble()`: numbers as they are, booleans as 1 or 0, anything else 0. A text
      node, which Jackson parses as a number, is also read as 0 here. */
  function AsDouble(node: Json): real
  {
    match node
    case JNumber(v) => v
    case JBool(b) => if b then 1.0 else 0.0
    case _ => 0.0
  }

  /** One `[x, y]` array of the ring. */
  function ReadCoordinate(node: Json): (r: Result<Coordinate, JsonError>)
    ensures r.Failure? <==> !(node.JArray? && |node.items| >= 2)
  {
    match (Get(node, 0), Get(node, 1))
    case (Some(x), Some(y)) => Success(Coordinate(AsDouble(x), AsDouble(y)))
    case _ => Failure(NullPointer)
  }

  /** The coordinates of a ring's items, in order; the first item that is not a pair
      decides the error. */
  function ReadCoordinates(items: seq<Json>): (r: Result<seq<Coordinate>, JsonError>)
    ensures r.Success? ==> |r.value| == |items|
    decreases |items|
  {
    if items == [] then Success([])
    else match ReadCoordinates(items[..|items| - 1])
      case Failure(e) => Failure(e)
      case Success(cs) =>
        match ReadCoordinate(items[|items| - 1])
        case Failure(e) => Failure(e)
        case Success(c) => Success(cs + [c])
  }

  /** Once a prefix fails, the whole list fails with the same error. */
  lemma {:induction false} ReadCoordinatesFailureIsFinal(items: seq<Json>, i: int)
    requires 0 <= i <= |items| && ReadCoordinates(items[..i]).Failure?
    ensures ReadCoordinates(items) == ReadCoordinates(items[..i])
    decreases |items| - i
  {
    if i < |items| {
      assert items[..i + 1][..i] == items[..i];
      ReadCoordinatesFailureIsFinal(items, i + 1);
    } else {
      assert items[..i] == items;
    }
  }

  /** Each coordinate read is the pair at the same position. */
  lemma {:induction false} ReadCoordinatesAt(items: seq<Json>, i: int)
    requires ReadCoordinates(items).Success? && 0 <= i < |items|
    ensures ReadCoordinate(items[i]) == Success(ReadCoordinates(items).value[i])
    decreases |items|
  {
    if i < |items| - 1 {
      ReadCoordinatesAt(items[..|items| - 1], i);
    }
  }

  /** Closing the ring: the first coordinate is appended unless it already ends it. */
  function Close(cs: seq<Coordinate>): (closed: seq<Coordinate>)
    requires |cs| > 0
    ensures |closed| > 0 && closed[0] == closed[|closed| - 1]
    ensures |cs| <= |closed| <= |cs| + 1 && closed[..|cs|] == cs
    ensures cs[0] == cs[|cs| - 1] ==> closed == cs
    ensures cs[0] != cs[|cs| - 1] ==> closed == cs + [cs[0]]
  {
    if cs[0] != cs[|cs| - 1] then cs + [cs[0]] else cs
  }

  /** Closing a closed ring changes nothing. */
  lemma CloseIdempotent(cs: seq<Coordinate>)
    requires |cs| > 0
    ensures Close(Close(cs)) == Close(cs)
  {
  }

  /** `jsonNodeToPolygon`: the outer ring `coordinates[0]`, closed, as a polygon. */
  function ToPolygon(coordinatesNode: Json): (r: Result<Polygon, JsonError>)
  {
    match Get(coordinatesNode, 0)
    case None => Failure(NullPointer)
    case Some(ring) =>
      match ReadCoordinates(Elements(ring))
      case Failure(e) => Failure(e)
      case Success(cs) =>
        if |cs| == 0 then Failure(IndexOutOfBounds)
        else if |Close(cs)| < MinRingSize then Failure(IllegalArgument)
        else Success(Polygon(Close(cs)))
  }

  /** The loop of `jsonNodeToPolygon` over the outer ring, then the closing and JTS's
      ring check. */
  method JsonNodeToPolygon(coordinatesNode: Json) returns (r: Result<Polygon, JsonError>)
    ensures r == ToPolygon(coordinatesNode)
  {
    var ring := Get(coordinatesNode, 0);
    if ring.None? {
      return Failure(NullPointer);
    }
    var items := Elements(ring.value);
    var coordinatesList: seq<Coordinate> := [];
    var i := 0;
    while i < |items|
      invariant 0 <= i <= |items|
      invariant ReadCoordinates(items[..i]) == Success(coordinatesList)
    {
      var x := Get(items[i], 0);
      var y := Get(items[i], 1);
      assert items[..i + 1][..i] == items[..i];
      if x.None? || y.None? {
        ReadCoordinatesFailureIsFinal(items, i + 1);
        return Failure(NullPointer);
      }
      coordinatesList := coordinatesList + [Coordinate(AsDouble(x.value), AsDouble(y.value))];
      i := i + 1;
    }
    assert items[..i] == items;
    if |coordinatesList| == 0 {
      return Failure(IndexOutOfBounds);
    }
    if coordinatesList[0] != coordinatesList[|coordinatesList| - 1] {
      coordinatesList := coordinatesList + [coordinatesList[0]];
    }
    if |coordinatesList| < MinRingSize {
      return Failure(IllegalArgument);
    }
    return Success(Polygon(coordinatesList));
  }

  /** A converted polygon is a closed ring of at least `MinRingSize` points that starts with the
      coordinates of the outer ring, in order; an empty outer ring is an
      `IndexOutOfBoundsException`. */
  lemma ToPolygonShape(coordinatesNode: Json)
    ensures var r := ToPolygon(coordinatesNode);
      r.Success? ==> |r.value.shell| >= MinRingSize && r.value.shell[0] == r.value.shell[|r.value.shell| - 1]
    ensures var r := ToPolygon(coordinatesNode);
      r.Success? ==> exists ring | Get(coordinatesNode, 0) == Some(ring) ::
        ReadCoordinates(Elements(ring)).Success? &&
        r.value.shell[..|Elements(ring)|] == ReadCoordinates(Elements(ring)).value
    ensures coordinatesNode.JArray? && |coordinatesNode.items| > 0 && Elements(coordinatesNode.items[0]) == [] ==>
      ToPolygon(coordinatesNode) == Failure(IndexOutOfBounds)
  {
    if ToPolygon(coordinatesNode).Success? {
      var ring := Get(coordinatesNode, 0).value;
      assert Get(coordinatesNode, 0) == Some(ring);
    }
  }

  /** Reading one more pair appends its coordinate. */
  lemma ReadAppendsPair(items: seq<Json>, p: Json)
    requires ReadCoordinates(items).Success? && ReadCoordinate(p).Success?
    ensures ReadCoordinates(items + [p]) == Success(ReadCoordinates(items).value + [ReadCoordinate(p).value])
  {
    assert (items + [p])[..|items + [p]| - 1] == items;
  }

  /** The GeoJSON position `[x, y]` of a coordinate. */
  function PairNode(c: Coordinate): Json
  {
    JArray([JNumber(c.x), JNumber(c.y)])
  }

  /** A ring of two positions reads as their two coordinates. */
  lemma ReadTwoPairs(a: Coordinate, b: Coordinate)
    ensures ReadCoordinates(Elements(JArray([PairNode(a), PairNode(b)]))) == Success([a, b])
  {
    assert ReadCoordinate(PairNode(a)) == Success(a);
    assert ReadCoordinate(PairNode(b)) == Success(b);
    assert ReadCoordinates([]) == Success([]);
    ReadAppendsPair([], PairNode(a));
    assert [] + [PairNode(a)] == [PairNode(a)] && [] + [a] == [a];
    ReadAppendsPair([PairNode(a)], PairNode(b));
    assert [PairNode(a)] + [PairNode(b)] == [PairNode(a), PairNode(b)] && [a] + [b] == [a, b];
  }

  /** An outer ring of two distinct points is closed to three points and built, as JTS
      1.18 and later accept it. */
  lemma TwoPointRingIsBuilt(a: Coordinate, b: Coordinate)
    requires a != b
    ensures ToPolygon(JArray([JArray([PairNode(a), PairNode(b)])])) == Success(Polygon([a, b, a]))
  {
    var ring := JArray([PairNode(a), PairNode(b)]);
    assert Get(JArray([ring]), 0) == Some(ring);
    ReadTwoPairs(a, b);
    assert Close([a, b]) == [a, b, a];
  }

  /** A ring of one point is already closed and has fewer than three points: JTS throws. */
  lemma OnePointRingIsRejected(a: Coordinate)
    ensures ToPolygon(JArray([JArray([PairNode(a)])])) == Failure(IllegalArgument)
  {
    var ring := JArray([PairNode(a)]);
    assert Get(JArray([ring]), 0) == Some(ring);
    assert Elements(ring) == [PairNode(a)];
    assert ReadCoordinate(PairNode(a)) == Success(a);
    assert ReadCoordinates([]) == Success([]);
    ReadAppendsPair([], PairNode(a));
    assert [] + [PairNode(a)] == [PairNode(a)] && [] + [a] == [a];
    assert Close([a]) == [a];
  }

  /** Only the outer ring is read: holes after it make no difference. */
  lemma OnlyOuterRingRead(ring: Json, holes1: seq<Json>, holes2: seq<Json>)
    ensures ToPolygon(JArray([ring] + holes1)) == ToPolygon(JArray([ring] + holes2))
  {
    assert Get(JArray([ring] + holes1), 0) == Some(ring);
    assert Get(JArray([ring] + holes2), 0) == Some(ring);
  }

  /** `feature.path("geometry").path("coordinates")`. */
  function CoordinatesOf(feature: Json): Json
  {
    Path(Path(feature, "geometry"), "coordinates")
  }

  /** The polygons of the first `|features|` features, stopping at the first failure. */
  function PolygonsOf(features: seq<Json>): (r: Result<seq<Polygon>, JsonError>)
    ensures r.Success? ==> |r.value| == |features|
    decreases |features|
  {
    if features == [] then Success([])
    else match PolygonsOf(features[..|features| - 1])
      case Failure(e) => Failure(e)
      case Success(ps) =>
        match ToPolygon(CoordinatesOf(features[|features| - 1]))
        case Failure(e) => Failure(e)
        case Success(p) => Success(ps + [p])
  }

  lemma {:induction false} PolygonsOfFailureIsFinal(features: seq<Json>, i: int)
    requires 0 <= i <= |features| && PolygonsOf(features[..i]).Failure?
    ensures PolygonsOf(features) == PolygonsOf(features[..i])
    decreases |features| - i
  {
    if i < |features| {
      assert features[..i + 1][..i] == features[..i];
      PolygonsOfFailureIsFinal(features, i + 1);
    } else {
      assert features[..i] == features;
    }
  }

  /** One more feature: its conversion decides unless an earlier one failed. */
  lemma PolygonsOfNext(features: seq<Json>, i: int)
    requires 0 <= i < |features|
    ensures PolygonsOf(features[..i + 1]) ==
      match PolygonsOf(features[..i])
      case Failure(e) => Failure(e)
      case Success(ps) =>
        match ToPolygon(CoordinatesOf(features[i]))
        case Failure(e) => Failure(e)
        case Success(p) => Success(ps + [p])
  {
    assert features[..i + 1][..i] == features[..i];
  }

  /** `getPolygonsFromGeoJson` on the parsed tree: one polygon per element of
      `features`, in order. */
  method GetPolygonsFromGeoJson(root: Json) returns (r: Result<seq<Polygon>, JsonError>)
    ensures r == PolygonsOf(Elements(Path(root, "features")))
  {
    var features := Elements(Path(root, "features"));
    var polygons: seq<Polygon> := [];
    var i := 0;
    while i < |features|
      invariant 0 <= i <= |features|
      invariant PolygonsOf(features[..i]) == Success(polygons)
    {
      var coordinates := CoordinatesOf(features[i]);
      var polygon := JsonNodeToPolygon(coordinates);
      PolygonsOfNext(features, i);
      if polygon.Failure? {
        PolygonsOfFailureIsFinal(features, i + 1);
        return Failure(polygon.error);
      }
      polygons := polygons + [polygon.value];
      i := i + 1;
    }
    assert features[..i] == features;
    return Success(polygons);
  }

  /** Every polygon read is the conversion of the feature at the same position. */
  lemma {:induction false} PolygonsOfAt(features: seq<Json>, i: int)
    requires PolygonsOf(features).Success? && 0 <= i < |features|
    ensures ToPolygon(CoordinatesOf(features[i])) == Success(PolygonsOf(features).value[i])
    decreases |features|
  {
    if i < |features| - 1 {
      PolygonsOfAt(features[..|features| - 1], i);
    }
  }

  // ---------------------------------------------------------------------------
  // polygonToJson

  const JsonHead: string := "{\"coordinates\": ["
  const JsonTail: string := "]}"

  /** One coordinate as `{"x": <x>, "y": <y>}`; `fmt` is `%.15f` in the US locale. */
  function CoordinateJson(c: Coordinate, fmt: real -> string): (s: string)
    ensures |s| > 0 && s[0] == '{' && s[|s| - 1] == '}'
  {
    "{\"x\": " + fmt(c.x) + ", \"y\": " + fmt(c.y) + "}"
  }

  /** The coordinates, separated by commas. */
  function JoinCoordinates(cs: seq<Coordinate>, fmt: real -> string): (s: string)
    ensures cs == [] <==> s == []
    ensures s != [] ==> s[|s| - 1] == '}'
    decreases |cs|
  {
    if cs == [] then ""
    else if |cs| == 1 then CoordinateJson(cs[0], fmt)
    else JoinCoordinates(cs[..|cs| - 1], fmt) + "," + CoordinateJson(cs[|cs| - 1], fmt)
  }

  /** What the loop appends: every coordinate followed by a comma. */
  function EachWithComma(cs: seq<Coordinate>, fmt: real -> string): string
    decreases |cs|
  {
    if cs == [] then "" else EachWithComma(cs[..|cs| - 1], fmt) + (CoordinateJson(cs[|cs| - 1], fmt) + ",")
  }

  /** The appended text is the joined text plus one trailing comma. */
  lemma {:induction false} EachWithCommaIsJoinedPlusComma(cs: seq<Coordinate>, fmt: real -> string)
    requires cs != []
    ensures EachWithComma(cs, fmt) == JoinCoordinates(cs, fmt) + ","
    decreases |cs|
  {
    if |cs| > 1 {
      EachWithCommaIsJoinedPlusComma(cs[..|cs| - 1], fmt);
    } else {
      assert cs[..0] == [];
    }
  }

  /** `polygonToJson`: `null` for no polygon; otherwise the coordinates, comma-separated
      with no trailing comma, between `{"coordinates": [` and `]}`. The builder is a
      character sequence that is appended to and has its last character deleted. */
  method PolygonToJson(polygon: Option<Polygon>, fmt: real -> string) returns (json: Option<string>)
    ensures polygon.None? <==> json.None?
    ensures polygon.Some? ==> json == Some(JsonHead + JoinCoordinates(polygon.value.shell, fmt) + JsonTail)
  {
    if polygon.None? {
      return None;
    }
    var coordinates := polygon.value.shell;
    var builder: string := JsonHead;
    var i := 0;
    while i < |coordinates|
      invariant 0 <= i <= |coordinates|
      invariant builder == JsonHead + EachWithComma(coordinates[..i], fmt)
    {
      assert coordinates[..i + 1][..i] == coordinates[..i];
      builder := builder + (CoordinateJson(coordinates[i], fmt) + ",");
      i := i + 1;
    }
    assert coordinates[..i] == coordinates;
    TrailingComma(coordinates, fmt);
    if builder[|builder| - 1] == ',' {
      builder := builder[..|builder| - 1];
    }
    builder := builder + JsonTail;
    return Some(builder);
  }

  /** The builder after the loop ends in a comma exactly when there was a coordinate, and
      dropping that comma leaves the joined text. */
  lemma TrailingComma(cs: seq<Coordinate>, fmt: real -> string)
    ensures var b := JsonHead + EachWithComma(cs, fmt);
      |b| > 0 && (b[|b| - 1] == ',' <==> cs != []) &&
      (cs != [] ==> b[..|b| - 1] == JsonHead + JoinCoordinates(cs, fmt)) &&
      (cs == [] ==> b == JsonHead + JoinCoordinates(cs, fmt))
  {
    var b := JsonHead + EachWithComma(cs, fmt);
    if cs != [] {
      EachWithCommaIsJoinedPlusComma(cs, fmt);
      assert b == (JsonHead + JoinCoordinates(cs, fmt)) + ",";
    }
  }

  /** A polygon with no coordinates is written as an empty array, and no written polygon
      has a comma before the closing bracket. */
  lemma PolygonJsonShape(cs: seq<Coordinate>, fmt: real -> string)
    ensures cs == [] ==> JsonHead + JoinCoordinates(cs, fmt) + JsonTail == "{\"coordinates\": []}"
    ensures var s := JsonHead + JoinCoordinates(cs, fmt);
      s[|s| - 1] != ','
  {
  }
}
