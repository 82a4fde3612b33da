/** `DtoConverterUtil`: the entity to DTO mappings the controllers return. Ids are passed
    alongside the entity because the model keeps them as table keys. */
module DtoConverter {
  import opened Wrappers
  import opened Geometry
  import opened ParkingPositions
  import opened Entities

  datatype EditedParkingSpaceDto = EditedParkingSpaceDto(
    id: int,
    parkingSpaceId: int,
    coordinates: seq<Coordinate>,
    occupied: bool,
    area: real,
    capacity: int,          // a primitive `int` field
    position: Option<string>)

  datatype ParkingPointDto = ParkingPointDto(id: int, editedParkingSpaceId: int, coordinates: seq<Coordinate>)

  datatype TimestampDto = TimestampDto(id: int, parkingPointId: int, timestamp: string)

  /** Unboxing an absent value throws a `NullPointerException`. */
  datatype ConvertError = NullPointer

  /** The constant whose display name is `name`, if any. */
  function PositionOfDisplayName(name: string): (p: Option<ParkingPosition>)
    ensures p.Some? ==> DisplayName(p.value) == name
  {
    if name == "Diagonal" then Some(Schraeg)
    else if name == "Parallel" then Some(Laengs)
    else if name == "Transverse" then Some(Quer)
    else None
  }

  /** `convertToDto(EditedParkingSpace)`: an absent capacity cannot be unboxed into the
      `int` field; the position becomes its display name, and stays unset when absent. */
  function EditedToDto(id: int, e: EditedParkingSpace): (r: Result<EditedParkingSpaceDto, ConvertError>)
    ensures r.Failure? <==> e.capacity.None?
    ensures r.Success? ==> (r.value.position.Some? <==> e.position.Some?)
  {
    match e.capacity
    case None => Failure(NullPointer)
    case Some(capacity) =>
      var dto := EditedParkingSpaceDto(id, e.parkingSpaceId, e.polygon.shell, e.occupied, e.area, capacity, None);
      if e.position.Some? then Success(dto.(position := Some(DisplayName(e.position.value)))) else Success(dto)
  }

  /** Reading an edited space back out of its DTO. */
  function EditedFromDto(d: EditedParkingSpaceDto): (int, EditedParkingSpace)
  {
    (d.id, EditedParkingSpace(d.parkingSpaceId, Polygon(d.coordinates), d.occupied, d.area, Some(d.capacity),
      if d.position.Some? then PositionOfDisplayName(d.position.value) else None))
  }

  /** The edited-space DTO loses nothing: the id and the whole record can be read back. */
  lemma EditedRoundTrip(id: int, e: EditedParkingSpace)
    requires e.capacity.Some?
    ensures EditedToDto(id, e).Success? && EditedFromDto(EditedToDto(id, e).value) == (id, e)
  {
    if e.position.Some? {
      match e.position.value
      case Schraeg =>
      case Laengs =>
      case Quer =>
    }
  }

  /** `convertToDto(ParkingPoint)`: a point's coordinates are its single coordinate. */
  function PointToDto(id: int, p: ParkingPoint): (d: ParkingPointDto)
    ensures d.id == id && d.editedParkingSpaceId == p.editedParkingSpaceId
    ensures |d.coordinates| == 1 && d.coordinates[0] == p.point
  {
    ParkingPointDto(id, p.editedParkingSpaceId, [p.point])
  }

  /** The point DTO determines the id, the assigned space and the point. */
  lemma PointToDtoInjective(id1: int, p1: ParkingPoint, id2: int, p2: ParkingPoint)
    ensures PointToDto(id1, p1) == PointToDto(id2, p2) <==> id1 == id2 && p1 == p2
  {
    if PointToDto(id1, p1) == PointToDto(id2, p2) {
      assert [p1.point][0] == [p2.point][0];
    }
  }

  /** `convertToDto(Timestamp)`: a timestamp without a parking point throws. */
  function TimestampToDto(id: int, t: Timestamp): (r: Result<TimestampDto, ConvertError>)
    ensures r.Failure? <==> t.parkingPoint.None?
  {
    match t.parkingPoint
    case None => Failure(NullPointer)
    case Some(pid) => Success(TimestampDto(id, pid, t.timestamp))
  }

  /** The timestamp DTO loses nothing: the id, the point and the instant text read back. */
  lemma TimestampRoundTrip(id: int, t: Timestamp)
    requires t.parkingPoint.Some?
    ensures TimestampToDto(id, t).Success?
    ensures var d := TimestampToDto(id, t).value;
      d.id == id && Timestamp(Some(d.parkingPointId), d.timestamp) == t
  {
  }
}
