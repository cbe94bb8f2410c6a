/** The range predicates the field validator tests converted values with,
    and the declared bounds of the registry and assessment fields. */
module Ranges {
  import opened Basics

  // declared bounds (year of birth, height in cm, weight in kg, BMI, temperature in C)
  const MinYob: real := 1930.0
  const MaxYob: real := 2004.0
  const MinHeight: real := 110.0
  const MaxHeight: real := 220.0
  const MinWeight: real := 40.0
  const MaxWeight: real := 200.0
  const MinBmi: real := 15.0
  const MaxBmi: real := 55.0
  const MinTemp: real := 35.0
  const MaxTemp: real := 42.0

  /** `valid_range_fac`: a test for the open interval `(fMin, fMax)`. */
  function ValidRangeFac(fMin: real, fMax: real): real -> bool
  {
    x => fMin < x && x < fMax
  }

  /** `valid_range_fac_inc`: a test for the closed interval `[fMin, fMax]`. */
  function ValidRangeFacInc(fMin: real, fMax: real): real -> bool
  {
    x => fMin <= x && x <= fMax
  }

  /** The exclusive test rejects both endpoints and accepts what lies strictly between. */
  lemma ExclusiveRange(fMin: real, fMax: real, x: real)
    ensures !ValidRangeFac(fMin, fMax)(fMin) && !ValidRangeFac(fMin, fMax)(fMax)
    ensures ValidRangeFac(fMin, fMax)(x) <==> fMin < x < fMax
  {
  }

  /** The inclusive test accepts both endpoints (of a non-empty range) and
      rejects one unit beyond either. */
  lemma InclusiveRange(fMin: real, fMax: real, x: real)
    requires fMin <= fMax
    ensures ValidRangeFacInc(fMin, fMax)(fMin) && ValidRangeFacInc(fMin, fMax)(fMax)
    ensures !ValidRangeFacInc(fMin, fMax)(fMin - 1.0) && !ValidRangeFacInc(fMin, fMax)(fMax + 1.0)
    ensures ValidRangeFacInc(fMin, fMax)(x) <==> fMin <= x <= fMax
  {
  }

  /** A value the variants with a default compare against: the default
      value is the empty string unless the caller passes another. */
  datatype Cell = Text(text: string) | Number(number: real)

  /** The variants with a default in the utility module: the default value
      always passes; any other value is compared with the bounds. `None`
      stands for the TypeError Python raises when a text value other than
      the default is compared with a number. */
  function ValidRangeFacDefault(fMin: real, fMax: real, default: Cell := Text("")): Cell -> Option<bool>
  {
    x => if x == default then Some(true)
         else if x.Number? then Some(fMin < x.number && x.number < fMax)
         else None
  }

  function ValidRangeFacIncDefault(fMin: real, fMax: real, default: Cell := Text("")): Cell -> Option<bool>
  {
    x => if x == default then Some(true)
         else if x.Number? then Some(fMin <= x.number && x.number <= fMax)
         else None
  }

  /** The default value passes both variants whatever the bounds, even an
      empty range. */
  lemma DefaultAlwaysValid(fMin: real, fMax: real, default: Cell)
    ensures ValidRangeFacDefault(fMin, fMax, default)(default) == Some(true)
    ensures ValidRangeFacIncDefault(fMin, fMax, default)(default) == Some(true)
  {
  }

  /** Any number other than the default is tested exactly as by the
      variants without a default. */
  lemma DefaultVariantsAgree(fMin: real, fMax: real, default: Cell, x: real)
    requires Number(x) != default
    ensures ValidRangeFacDefault(fMin, fMax, default)(Number(x)) == Some(ValidRangeFac(fMin, fMax)(x))
    ensures ValidRangeFacIncDefault(fMin, fMax, default)(Number(x)) == Some(ValidRangeFacInc(fMin, fMax)(x))
  {
  }

  /** With the empty-string default, another text value cannot be compared. */
  lemma OtherTextFails(fMin: real, fMax: real, s: string)
    requires s != ""
    ensures ValidRangeFacDefault(fMin, fMax)(Text(s)) == None
    ensures ValidRangeFacIncDefault(fMin, fMax)(Text(s)) == None
  {
  }
}
