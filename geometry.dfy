/** Geometry as the services see it: coordinates, polygons given by their shell ring,
    and the JTS/PostGIS operations (area, intersection area, `ST_Equals`,
    `ST_Contains`, `ST_Touches`, centroid) as uninterpreted functions supplied by the
    caller. All geometric arithmetic is floating point in the source and is not modelled. */
module Geometry {

  /** A JTS `Coordinate` (longitude x, latitude y). */
  datatype Coordinate = Coordinate(x: real, y: real)

  /** A JTS `Point` is a single coordinate; `ST_Equals` on points is coordinate equality. */
  type Point = Coordinate

  /** A JTS `Polygon`, by the coordinates of its shell ring. */
  datatype Polygon = Polygon(shell: seq<Coordinate>)

  /** The geometry library behind an interface. */
  datatype GeometryOracle = GeometryOracle(
    area: Polygon -> real,
    intersectionArea: (Polygon, Polygon) -> real,
    equalsGeom: (Polygon, Polygon) -> bool,
    contains: (Polygon, Point) -> bool,
    touches: (Polygon, Polygon) -> bool,
    centroid: Polygon -> Point)
}
