/** The generic field validator: for every record, a value that does not
    convert ORs the "missing" flag into the record's status word, and a
    converted value outside its range ORs the "bad" flag; a flag of zero
    means "do not flag". Records are never removed and no bit is cleared. */
module FieldFilter {
  import opened Basics
  import opened Flags
  import opened Ranges

  /** The status word of one record after validating `value`. */
  function FilterWord<V>(w: Status, value: V, fMissing: Status, fBad: Status,
                         isType: V -> bool, convert: V -> real, valid: real -> bool): (r: Status)
    ensures w <= r
    ensures r == w || r == w + fMissing || r == w + fBad
    ensures !isType(value) ==> r == w + fMissing
    ensures isType(value) && valid(convert(value)) ==> r == w
    ensures isType(value) && !valid(convert(value)) ==> r == w + fBad
  {
    if !isType(value) then
      (if fMissing != {} then w + fMissing else w)
    else if !valid(convert(value)) then
      (if fBad != {} then w + fBad else w)
    else
      w
  }

  /** A zero flag leaves the word as it was on its branch. */
  lemma ZeroFlagIsNoOp<V>(w: Status, value: V, fMissing: Status, fBad: Status,
                          isType: V -> bool, convert: V -> real, valid: real -> bool)
    ensures fMissing == {} && !isType(value) ==> FilterWord(w, value, fMissing, fBad, isType, convert, valid) == w
    ensures fBad == {} && isType(value) ==> FilterWord(w, value, fMissing, fBad, isType, convert, valid) == w
  {
  }

  /** For a convertible value and a bad flag that is not already set, the
      bad flag is set afterwards iff the range test fails. */
  lemma BadFlagIffOutOfRange<V>(w: Status, value: V, fMissing: Status, fBad: Status,
                                isType: V -> bool, convert: V -> real, valid: real -> bool)
    requires isType(value) && fBad != {} && w * fBad == {}
    ensures FilterWord(w, value, fMissing, fBad, isType, convert, valid) * fBad != {}
            <==> !valid(convert(value))
  {
  }

  /** `filter_list` (and the utility module's `filter_field`): validates
      `values[i]` into `status[i]` for every `i`; words past the end of
      `values` are not touched. */
  method FilterList<V>(values: seq<V>, status: array<Status>, fMissing: Status, fBad: Status,
                       isType: V -> bool, convert: V -> real, valid: real -> bool)
    requires |values| <= status.Length
    modifies status
    ensures forall i :: 0 <= i < |values| ==>
              status[i] == FilterWord(old(status[i]), values[i], fMissing, fBad, isType, convert, valid)
    ensures forall i :: |values| <= i < status.Length ==> status[i] == old(status[i])
  {
    for ir := 0 to |values|
      invariant forall i :: 0 <= i < ir ==>
                  status[i] == FilterWord(old(status[i]), values[i], fMissing, fBad, isType, convert, valid)
      invariant forall i :: ir <= i < status.Length ==> status[i] == old(status[i])
    {
      var r := values[ir];
      if !isType(r) {
        if fMissing != {} {
          status[ir] := status[ir] + fMissing;
        }
      } else {
        var value := convert(r);
        if !valid(value) {
          if fBad != {} {
            status[ir] := status[ir] + fBad;
          }
        }
      }
    }
  }

  /** `filter_fields`: the same validation applied to field `index` of each row. */
  method FilterFields(rows: seq<Row>, status: array<Status>, index: nat, fMissing: Status, fBad: Status,
                      isType: string -> bool, convert: string -> real, valid: real -> bool)
    requires |rows| <= status.Length
    requires forall i :: 0 <= i < |rows| ==> index < |rows[i]|
    modifies status
    ensures forall i :: 0 <= i < |rows| ==>
              status[i] == FilterWord(old(status[i]), rows[i][index], fMissing, fBad, isType, convert, valid)
    ensures forall i :: |rows| <= i < status.Length ==> status[i] == old(status[i])
  {
    FilterList(Column(rows, index), status, fMissing, fBad, isType, convert, valid);
  }

  /** The registry checks in the order the pipeline runs them: year of birth
      (integer conversion), then height, weight and BMI (float conversion),
      each against its inclusive declared range. */
  function PatientWord(w: Status, row: Row, yob: nat, height: nat, weight: nat, bmi: nat,
                       isInt: string -> bool, toInt: string -> real,
                       isFloat: string -> bool, toFloat: string -> real): (r: Status)
    requires yob < |row| && height < |row| && weight < |row| && bmi < |row|
    ensures w <= r
    ensures r - w <= FilterMissingYob + FilterBadYob + FilterMissingHeight + FilterBadHeight
                     + FilterMissingWeight + FilterBadWeight + FilterMissingBmi + FilterBadBmi
  {
    var w1 := FilterWord(w, row[yob], FilterMissingYob, FilterBadYob, isInt, toInt, ValidRangeFacInc(MinYob, MaxYob));
    var w2 := FilterWord(w1, row[height], FilterMissingHeight, FilterBadHeight, isFloat, toFloat, ValidRangeFacInc(MinHeight, MaxHeight));
    var w3 := FilterWord(w2, row[weight], FilterMissingWeight, FilterBadWeight, isFloat, toFloat, ValidRangeFacInc(MinWeight, MaxWeight));
    FilterWord(w3, row[bmi], FilterMissingBmi, FilterBadBmi, isFloat, toFloat, ValidRangeFacInc(MinBmi, MaxBmi))
  }

  /** A registry row that was clean stays clean through the four checks iff
      all four values convert and lie in their declared ranges. */
  lemma PatientCleanIff(row: Row, yob: nat, height: nat, weight: nat, bmi: nat,
                        isInt: string -> bool, toInt: string -> real,
                        isFloat: string -> bool, toFloat: string -> real)
    requires yob < |row| && height < |row| && weight < |row| && bmi < |row|
    ensures PatientWord({}, row, yob, height, weight, bmi, isInt, toInt, isFloat, toFloat) == {}
            <==> (isInt(row[yob]) && MinYob <= toInt(row[yob]) <= MaxYob
                  && isFloat(row[height]) && MinHeight <= toFloat(row[height]) <= MaxHeight
                  && isFloat(row[weight]) && MinWeight <= toFloat(row[weight]) <= MaxWeight
                  && isFloat(row[bmi]) && MinBmi <= toFloat(row[bmi]) <= MaxBmi)
  {
    var w1 := FilterWord({}, row[yob], FilterMissingYob, FilterBadYob, isInt, toInt, ValidRangeFacInc(MinYob, MaxYob));
    var w2 := FilterWord(w1, row[height], FilterMissingHeight, FilterBadHeight, isFloat, toFloat, ValidRangeFacInc(MinHeight, MaxHeight));
    var w3 := FilterWord(w2, row[weight], FilterMissingWeight, FilterBadWeight, isFloat, toFloat, ValidRangeFacInc(MinWeight, MaxWeight));
    var w4 := FilterWord(w3, row[bmi], FilterMissingBmi, FilterBadBmi, isFloat, toFloat, ValidRangeFacInc(MinBmi, MaxBmi));
    assert w4 == {} <==> w3 == {} && w4 == w3;
    assert w3 == {} <==> w2 == {} && w3 == w2;
    assert w2 == {} <==> w1 == {} && w2 == w1;
  }

  /** `filter_fields` over the registry with the four declared checks. */
  method ValidatePatients(rows: seq<Row>, status: array<Status>, yob: nat, height: nat, weight: nat, bmi: nat,
                          isInt: string -> bool, toInt: string -> real,
                          isFloat: string -> bool, toFloat: string -> real)
    requires |rows| == status.Length
    requires forall i :: 0 <= i < |rows| ==>
               yob < |rows[i]| && height < |rows[i]| && weight < |rows[i]| && bmi < |rows[i]|
    modifies status
    ensures forall i :: 0 <= i < |rows| ==>
              status[i] == PatientWord(old(status[i]), rows[i], yob, height, weight, bmi, isInt, toInt, isFloat, toFloat)
  {
    FilterFields(rows, status, yob, FilterMissingYob, FilterBadYob, isInt, toInt, ValidRangeFacInc(MinYob, MaxYob));
    FilterFields(rows, status, height, FilterMissingHeight, FilterBadHeight, isFloat, toFloat, ValidRangeFacInc(MinHeight, MaxHeight));
    FilterFields(rows, status, weight, FilterMissingWeight, FilterBadWeight, isFloat, toFloat, ValidRangeFacInc(MinWeight, MaxWeight));
    FilterFields(rows, status, bmi, FilterMissingBmi, FilterBadBmi, isFloat, toFloat, ValidRangeFacInc(MinBmi, MaxBmi));
  }

  /** A temperature in Celsius as the conversion step leaves it: `None` for
      a reading that did not convert (the source stores the empty string). */
  type Celsius = Option<real>

  /** The assessment temperature check: the temperature list validated
      against the open range (35, 42) with a zero "missing" flag. */
  method FilterTemperatures(tempC: seq<Celsius>, status: array<Status>)
    requires |tempC| <= status.Length
    modifies status
    ensures forall i :: 0 <= i < |tempC| ==>
              status[i] == (if tempC[i].Some? && !(MinTemp < tempC[i].value < MaxTemp)
                            then old(status[i]) + FilterBadTemp else old(status[i]))
    ensures forall i :: |tempC| <= i < status.Length ==> status[i] == old(status[i])
  {
    FilterList(tempC, status, FilterMissingTemp, FilterBadTemp,
               (t: Celsius) => t.Some?, (t: Celsius) => if t.Some? then t.value else 0.0,
               ValidRangeFac(MinTemp, MaxTemp));
  }
}
