/** The coordinate normaliser: degrees/minutes/seconds plus a hemisphere
    reference, turned into signed decimal degrees (index.py and example.py
    carry the same `convert_to_decimal_degrees`).
    Floating-point arithmetic is idealised as exact `real` arithmetic. */
module Coordinates {
  import opened Wrappers

  /** A GPS position component as the image parser reports it. */
  datatype Dms = Dms(degrees: real, minutes: real, seconds: real)

  /** The unsigned value `degrees + minutes/60 + seconds/3600`. */
  function Unsigned(c: Dms): real {
    c.degrees + c.minutes / 60.0 + c.seconds / 3600.0
  }

  /** `ref in ['S', 'W']`: only these two reference values negate. */
  predicate IsSouthOrWest(ref: Option<string>) {
    ref == Some("S") || ref == Some("W")
  }

  /** Absent input stays absent; otherwise the unsigned value, negated
      exactly when the reference is S or W. The reference is optional
      because example.py passes a tag that may be missing. */
  function ConvertToDecimalDegrees(coord: Option<Dms>, ref: Option<string>): (r: Option<real>)
    ensures r.Some? <==> coord.Some?
    ensures coord.Some? && !IsSouthOrWest(ref) ==> r.value == Unsigned(coord.value)
    ensures coord.Some? && IsSouthOrWest(ref) ==> r.value == -Unsigned(coord.value)
  {
    match coord
    case None => None
    case Some(c) =>
      var decimalDegrees := Unsigned(c);
      Some(if IsSouthOrWest(ref) then -decimalDegrees else decimalDegrees)
  }

  /** Missing GPS data propagates as missing, whatever the reference. */
  lemma AbsentStaysAbsent(ref: Option<string>)
    ensures ConvertToDecimalDegrees(None, ref) == None
  {
  }

  /** A southern or western reading is exactly the negation of the same
      reading in the northern or eastern hemisphere, and every reference
      other than S and W (including unrecognised ones and a missing one)
      gives the same value as N and E. */
  lemma HemispheresMirror(c: Dms, ref: Option<string>)
    ensures IsSouthOrWest(ref) ==>
      ConvertToDecimalDegrees(Some(c), ref).value == -ConvertToDecimalDegrees(Some(c), Some("N")).value
    ensures !IsSouthOrWest(ref) ==>
      ConvertToDecimalDegrees(Some(c), ref) == ConvertToDecimalDegrees(Some(c), Some("E"))
  {
  }

  /** For non-negative magnitudes the sign is carried by the reference
      alone: the absolute value is the unsigned value and the result is
      negative iff the reference is S or W and the position is not zero. */
  lemma SignFromReference(c: Dms, ref: Option<string>)
    requires c.degrees >= 0.0 && c.minutes >= 0.0 && c.seconds >= 0.0
    ensures var r := ConvertToDecimalDegrees(Some(c), ref).value;
      (if r < 0.0 then -r else r) == Unsigned(c) &&
      (r < 0.0 <==> IsSouthOrWest(ref) && Unsigned(c) > 0.0)
  {
  }
}
