/** The row-level consistency rules of the assessment set: a test result
    must go with a test, and the reported health status must agree with the
    symptoms. Each rule only ORs its own flags into the row's status word. */
module Consistency {
  import opened Basics
  import opened Flags

  /** The flags the test rule may set. */
  const TestFlags: Status := FilterInconsistentNotTested + FilterInconsistentTested

  /** The flags the health rule may set. */
  const HealthFlags: Status := FilterInconsistentSymptoms + FilterInconsistentNoSymptoms

  /** The test/result rule for one row: a result without a test sets the
      "not tested" flag; a test without a result sets the "tested" flag. */
  function TestWord(w: Status, hadTest: string, testResult: string): (r: Status)
    ensures (FilterInconsistentNotTested <= r)
            <==> (FilterInconsistentNotTested <= w || (hadTest != "True" && testResult != ""))
    ensures (FilterInconsistentTested <= r)
            <==> (FilterInconsistentTested <= w || (hadTest == "True" && testResult == ""))
    ensures r - TestFlags == w - TestFlags
    ensures w <= r
  {
    var w1 := if hadTest != "True" && testResult != "" then w + FilterInconsistentNotTested else w;
    if hadTest == "True" && testResult == "" then w1 + FilterInconsistentTested else w1
  }

  /** A row sets at most one of the two test flags, and sets none exactly
      when it reports a result iff it reports a test. */
  lemma TestFlagsExclusive(w: Status, hadTest: string, testResult: string)
    requires w * TestFlags == {}
    ensures !(TestFlags <= TestWord(w, hadTest, testResult))
    ensures TestWord(w, hadTest, testResult) == w <==> ((hadTest == "True") == (testResult != ""))
  {
    var r := TestWord(w, hadTest, testResult);
    assert 4 in TestFlags && 5 in TestFlags;
    if (hadTest == "True") == (testResult != "") {
      assert r == w;
    } else {
      assert 4 in r || 5 in r;
    }
  }

  /** The health rule for one row: "healthy" with a symptom sets the
      "inconsistent symptoms" flag; otherwise "not_healthy" without any
      symptom sets the "inconsistent no symptoms" flag. */
  function HealthWord(w: Status, healthStatus: string, anySymptom: bool): (r: Status)
    ensures (FilterInconsistentSymptoms <= r)
            <==> (FilterInconsistentSymptoms <= w || (healthStatus == "healthy" && anySymptom))
    ensures (FilterInconsistentNoSymptoms <= r)
            <==> (FilterInconsistentNoSymptoms <= w || (healthStatus == "not_healthy" && !anySymptom))
    ensures r - HealthFlags == w - HealthFlags
    ensures w <= r
  {
    if healthStatus == "healthy" && anySymptom then w + FilterInconsistentSymptoms
    else if healthStatus == "not_healthy" && !anySymptom then w + FilterInconsistentNoSymptoms
    else w
  }

  /** A row is flagged by the health rule iff its status contradicts its
      symptoms; a status other than the two keywords is never flagged. */
  lemma HealthFlaggedIff(w: Status, healthStatus: string, anySymptom: bool)
    requires w * HealthFlags == {}
    ensures HealthWord(w, healthStatus, anySymptom) != w
            <==> (healthStatus == "healthy" && anySymptom) || (healthStatus == "not_healthy" && !anySymptom)
    ensures healthStatus != "healthy" && healthStatus != "not_healthy" ==> HealthWord(w, healthStatus, anySymptom) == w
    ensures !(HealthFlags <= HealthWord(w, healthStatus, anySymptom))
  {
    assert 6 in HealthFlags && 7 in HealthFlags;
    assert 6 !in w && 7 !in w;
  }

  /** The health rule applied to every assessment row, against the
      per-row any-symptom vector. */
  method ApplyHealthConsistency(rows: seq<Row>, healthStatusIndex: nat, anySymptoms: seq<bool>, status: array<Status>)
    requires |rows| == |anySymptoms| == status.Length
    requires forall i :: 0 <= i < |rows| ==> healthStatusIndex < |rows[i]|
    modifies status
    ensures forall i :: 0 <= i < |rows| ==>
              status[i] == HealthWord(old(status[i]), rows[i][healthStatusIndex], anySymptoms[i])
  {
    for ir := 0 to |rows|
      invariant forall i :: 0 <= i < ir ==>
                  status[i] == HealthWord(old(status[i]), rows[i][healthStatusIndex], anySymptoms[i])
      invariant forall i :: ir <= i < |rows| ==> status[i] == old(status[i])
    {
      var r := rows[ir];
      if r[healthStatusIndex] == "healthy" && anySymptoms[ir] {
        status[ir] := status[ir] + FilterInconsistentSymptoms;
      } else if r[healthStatusIndex] == "not_healthy" && !anySymptoms[ir] {
        status[ir] := status[ir] + FilterInconsistentNoSymptoms;
      }
    }
  }
}
