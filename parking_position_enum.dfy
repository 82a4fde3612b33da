/** `entity.ParkingPositionEnum`, a second copy of the parking orientation enum with
    the same constants, spellings and display names as `enums.ParkingPosition`. */
module ParkingPositionEnums {
  import opened Wrappers
  import opened Strings
  import P = ParkingPositions

  datatype ParkingPositionEnum = Schraeg | Laengs | Quer

  /** The display name given to each constant: that of the same constant of the other enum. */
  function DisplayName(p: ParkingPositionEnum): (name: string)
    ensures name == P.DisplayName(AsParkingPosition(p))
  {
    match p
    case Schraeg => "Diagonal"
    case Laengs => "Parallel"
    case Quer => "Transverse"
  }

  /** `fromString`, with the same `IllegalArgumentException` for unknown spellings. */
  function FromString(position: string): (r: Result<ParkingPositionEnum, P.PositionError>)
    ensures r.Failure? ==> r.error == P.IllegalArgument(position)
  {
    var upper := ToUpper(position);
    if upper == "SCHR\U{C4}G" then Success(Schraeg)
    else if upper == "L\U{C4}NGS" || upper == "L\U{C4}NGE" then Success(Laengs)
    else if upper == "QUER" then Success(Quer)
    else Failure(P.IllegalArgument(position))
  }

  /** The constant of the other enum with the same name. */
  function AsParkingPosition(p: ParkingPositionEnum): P.ParkingPosition
  {
    match p
    case Schraeg => P.Schraeg
    case Laengs => P.Laengs
    case Quer => P.Quer
  }

  /** Both enums parse every string alike and display every constant alike. */
  lemma SameAsParkingPosition(position: string, p: ParkingPositionEnum)
    ensures FromString(position).Success? == P.FromString(position).Success?
    ensures FromString(position).Success? ==>
      AsParkingPosition(FromString(position).value) == P.FromString(position).value
    ensures FromString(position).Failure? ==> FromString(position).error == P.FromString(position).error
    ensures DisplayName(p) == P.DisplayName(AsParkingPosition(p))
  {
  }
}
