/** The parking orientation enum `enums.ParkingPosition`, with its German input
    spellings and English display names. */
module ParkingPositions {
  import opened Wrappers
  import opened Strings

  datatype ParkingPosition = Schraeg | Laengs | Quer

  /** `IllegalArgumentException("No enum constant for string value: " + position)`. */
  datatype PositionError = IllegalArgument(value: string)

  /** The display name given to each constant. */
  function DisplayName(p: ParkingPosition): (name: string)
    ensures name in {"Diagonal", "Parallel", "Transverse"}
  {
    match p
    case Schraeg => "Diagonal"
    case Laengs => "Parallel"
    case Quer => "Transverse"
  }

  /** `fromString`: the upper-cased input must be one of the German spellings. */
  function FromString(position: string): (r: Result<ParkingPosition, PositionError>)
    ensures r.Failure? ==> r.error == IllegalArgument(position)
  {
    var upper := ToUpper(position);
    if upper == "SCHR\U{C4}G" then Success(Schraeg)
    else if upper == "L\U{C4}NGS" || upper == "L\U{C4}NGE" then Success(Laengs)
    else if upper == "QUER" then Success(Quer)
    else Failure(IllegalArgument(position))
  }

  /** Exactly the four German spellings are accepted, in any letter case. */
  lemma FromStringAccepts(position: string)
    ensures FromString(position).Success? <==>
      ToUpper(position) in ["SCHR\U{C4}G", "L\U{C4}NGS", "L\U{C4}NGE", "QUER"]
    ensures ToUpper(position) == "SCHR\U{C4}G" ==> FromString(position) == Success(Schraeg)
    ensures ToUpper(position) in ["L\U{C4}NGS", "L\U{C4}NGE"] ==> FromString(position) == Success(Laengs)
    ensures ToUpper(position) == "QUER" ==> FromString(position) == Success(Quer)
  {
  }

  /** Parsing ignores letter case: a string and its upper-cased form parse alike. */
  lemma FromStringIgnoresCase(position: string)
    ensures FromString(position).Success? == FromString(ToUpper(position)).Success?
    ensures FromString(position).Success? ==> FromString(position) == FromString(ToUpper(position))
  {
    ToUpperIdempotent(position);
  }

  /** Lower- and mixed-case spellings are recognised; the ASCII transliterations are not. */
  lemma FromStringExamples()
    ensures FromString("schr\U{E4}g") == Success(Schraeg)
    ensures FromString("L\U{E4}nge") == Success(Laengs)
    ensures FromString("quer") == Success(Quer)
    ensures FromString("SCHRAEG") == Failure(IllegalArgument("SCHRAEG"))
    ensures FromString("LAENGS") == Failure(IllegalArgument("LAENGS"))
  {
    assert ToUpper("schr\U{E4}g") == "SCHR\U{C4}G";
    assert ToUpper("L\U{E4}nge") == "L\U{C4}NGE";
    assert ToUpper("quer") == "QUER";
    assert ToUpper("SCHRAEG") == "SCHRAEG";
    assert ToUpper("LAENGS") == "LAENGS";
  }

  /** The display names tell the constants apart. */
  lemma DisplayNamesDistinct(p: ParkingPosition, q: ParkingPosition)
    ensures DisplayName(p) == DisplayName(q) <==> p == q
  {
  }
}
