/** The rules that tie the assessment set to the patient registry: the
    sorted merge-join on patient id, the flag for assessments whose patient
    is not a clean registry row, and the territory flag on the registry. */
module CrossDataset {
  import opened Basics
  import opened Flags

  /** One call of the join's callback: registry row `g` and assessment row
      `a` carry the same patient id. */
  datatype Match = Match(g: nat, a: nat)

  /** Assessment row `a` was handed to the callback. */
  predicate Matched(ms: seq<Match>, a: nat)
  {
    exists k :: 0 <= k < |ms| && ms[k].a == a
  }

  lemma MatchedAppend(ms: seq<Match>, m: Match, j: nat)
    ensures Matched(ms + [m], j) <==> Matched(ms, j) || m.a == j
  {
    if Matched(ms, j) {
      var k :| 0 <= k < |ms| && ms[k].a == j;
      assert (ms + [m])[k] == ms[k];
    }
    if m.a == j {
      assert (ms + [m])[|ms|] == m;
    }
  }

  /** `map_patient_ids` over the registry id column `gids` and the
      assessment patient-id column `aids`. Every callback pairs equal ids,
      assessments are visited in increasing order and at most once, and on
      inputs sorted by id an assessment is visited iff its patient id occurs
      in the registry. */
  method MapPatientIds(gids: seq<string>, aids: seq<string>) returns (ms: seq<Match>)
    ensures forall k :: 0 <= k < |ms| ==>
              ms[k].g < |gids| && ms[k].a < |aids| && gids[ms[k].g] == aids[ms[k].a]
    ensures forall k, l :: 0 <= k < l < |ms| ==> ms[k].a < ms[l].a
    ensures SortedIds(gids) && SortedIds(aids) ==>
              forall a :: 0 <= a < |aids| ==> (Matched(ms, a) <==> aids[a] in gids)
  {
    ghost var sorted := SortedIds(gids) && SortedIds(aids);
    var g, a := 0, 0;
    ms := [];
    while g < |gids| && a < |aids|
      invariant g <= |gids| && a <= |aids|
      invariant forall k :: 0 <= k < |ms| ==>
                  ms[k].g < |gids| && ms[k].a < a && gids[ms[k].g] == aids[ms[k].a]
      invariant forall k, l :: 0 <= k < l < |ms| ==> ms[k].a < ms[l].a
      invariant sorted ==> forall j :: 0 <= j < a ==> (Matched(ms, j) <==> aids[j] in gids)
      invariant sorted && a < |aids| ==> forall i :: 0 <= i < g ==> Below(gids[i], aids[a])
      decreases |gids| - g + |aids| - a
    {
      var gpid := gids[g];
      var apid := aids[a];
      if Below(gpid, apid) {
        g := g + 1;
      } else if Below(apid, gpid) {
        if sorted {
          NotInRegistry(gids, aids[a], g);
          AdvanceAssessment(gids, aids, g, a);
          assert !Matched(ms, a);
        }
        a := a + 1;
      } else {
        BelowTotal(gpid, apid);
        if sorted {
          AdvanceAssessment(gids, aids, g, a);
        }
        forall j | 0 <= j <= a
          ensures Matched(ms + [Match(g, a)], j) <==> Matched(ms, j) || j == a
        {
          MatchedAppend(ms, Match(g, a), j);
        }
        ms := ms + [Match(g, a)];
        a := a + 1;
      }
    }
    if sorted && a < |aids| {
      forall j | a <= j < |aids|
        ensures aids[j] !in gids
      {
        forall i | 0 <= i < |gids|
          ensures gids[i] != aids[j]
        {
          if a < j {
            BelowMonotone(gids[i], aids[a], aids[j]);
          }
          BelowIrreflexive(aids[j]);
        }
      }
    }
  }

  /** On a sorted registry, an id below `gids[g]` that lies above every
      earlier registry id is not in the registry. */
  lemma NotInRegistry(gids: seq<string>, id: string, g: nat)
    requires SortedIds(gids) && g < |gids|
    requires Below(id, gids[g])
    requires forall i :: 0 <= i < g ==> Below(gids[i], id)
    ensures id !in gids
  {
    BelowIrreflexive(id);
  }

  /** Moving on to the next assessment keeps every skipped registry id
      below the current assessment id. */
  lemma AdvanceAssessment(gids: seq<string>, aids: seq<string>, g: nat, a: nat)
    requires SortedIds(aids) && a < |aids| && g <= |gids|
    requires forall i :: 0 <= i < g ==> Below(gids[i], aids[a])
    ensures a + 1 < |aids| ==> forall i :: 0 <= i < g ==> Below(gids[i], aids[a + 1])
  {
    if a + 1 < |aids| {
      forall i | 0 <= i < g
        ensures Below(gids[i], aids[a + 1])
      {
        BelowMonotone(gids[i], aids[a], aids[a + 1]);
      }
    }
  }

  /** The patient ids of the registry rows whose status word is 0. */
  function CleanIds(gids: seq<string>, status: seq<Status>): (r: set<string>)
    requires |gids| == |status|
    ensures forall id :: id in r <==> exists i :: 0 <= i < |gids| && gids[i] == id && status[i] == {}
  {
    if gids == [] then {}
    else
      var n := |gids| - 1;
      CleanIds(gids[..n], status[..n]) + (if status[n] == {} then {gids[n]} else {})
  }

  /** The cross-dataset rule: every assessment whose patient id is not the
      id of a clean registry row gets the patient-filtered flag ORed in;
      no other bit changes. */
  method FlagPatientFiltered(geoc: seq<Row>, geocStatus: seq<Status>, asmt: seq<Row>, asmtStatus: array<Status>)
    requires |geoc| == |geocStatus| && |asmt| == asmtStatus.Length
    requires forall i :: 0 <= i < |geoc| ==> 0 < |geoc[i]|
    requires forall i :: 0 <= i < |asmt| ==> 1 < |asmt[i]|
    modifies asmtStatus
    ensures forall i :: 0 <= i < |asmt| ==>
              asmtStatus[i] == if asmt[i][1] in CleanIds(Column(geoc, 0), geocStatus)
                               then old(asmtStatus[i])
                               else old(asmtStatus[i]) + AFilterPatientFiltered
  {
    ghost var gids := Column(geoc, 0);
    var patientIds: set<string> := {};
    for ir := 0 to |geoc|
      invariant patientIds == CleanIds(gids[..ir], geocStatus[..ir])
    {
      assert gids[..ir + 1][..ir] == gids[..ir];
      assert geocStatus[..ir + 1][..ir] == geocStatus[..ir];
      if geocStatus[ir] == {} {
        patientIds := patientIds + {geoc[ir][0]};
      }
    }
    assert gids[..|geoc|] == gids && geocStatus[..|geoc|] == geocStatus;
    for ir := 0 to |asmt|
      invariant forall i :: 0 <= i < ir ==>
                  asmtStatus[i] == if asmt[i][1] in patientIds then old(asmtStatus[i])
                                   else old(asmtStatus[i]) + AFilterPatientFiltered
      invariant forall i :: ir <= i < |asmt| ==> asmtStatus[i] == old(asmtStatus[i])
    {
      if asmt[ir][1] !in patientIds {
        asmtStatus[ir] := asmtStatus[ir] + AFilterPatientFiltered;
      }
    }
  }

  /** The clear of every assessment flag followed by the cross-dataset rule:
      afterwards each assessment word is exactly the patient-filtered flag
      or 0, and it is the flag iff no clean registry row has its patient id. */
  method CheckAssessmentPatients(geoc: seq<Row>, geocStatus: seq<Status>, asmt: seq<Row>, asmtStatus: array<Status>)
    requires |geoc| == |geocStatus| && |asmt| == asmtStatus.Length
    requires forall i :: 0 <= i < |geoc| ==> 0 < |geoc[i]|
    requires forall i :: 0 <= i < |asmt| ==> 1 < |asmt[i]|
    requires forall i :: 0 <= i < |asmt| ==> asmtStatus[i] <= AllFlags
    modifies asmtStatus
    ensures forall i :: 0 <= i < |asmt| ==> asmtStatus[i] == {} || asmtStatus[i] == AFilterPatientFiltered
    ensures forall i :: 0 <= i < |asmt| ==>
              (asmtStatus[i] == AFilterPatientFiltered
               <==> !exists g :: 0 <= g < |geoc| && geoc[g][0] == asmt[i][1] && geocStatus[g] == {})
  {
    ghost var before := asmtStatus[..];
    ClearSetFlag(asmtStatus, FilterAAll);
    forall i | 0 <= i < |asmt|
      ensures asmtStatus[i] == {}
    {
      ClearAllIsClean(before, i);
    }
    FlagPatientFiltered(geoc, geocStatus, asmt, asmtStatus);
  }

  /** The territory rule: with a territory of interest, every registry row
      whose country code differs from it gets the other-territory flag ORed
      in; without one nothing changes. */
  method FlagOtherTerritory(geoc: seq<Row>, status: array<Status>, countryCode: nat, territory: Option<string>)
    requires |geoc| == status.Length
    requires forall i :: 0 <= i < |geoc| ==> countryCode < |geoc[i]|
    modifies status
    ensures forall i :: 0 <= i < |geoc| ==>
              status[i] == if territory.Some? && geoc[i][countryCode] != territory.value
                           then old(status[i]) + PFilterOtherTerritory
                           else old(status[i])
  {
    if territory.Some? {
      for ir := 0 to |geoc|
        invariant forall i :: 0 <= i < ir ==>
                    status[i] == if geoc[i][countryCode] != territory.value
                                 then old(status[i]) + PFilterOtherTerritory else old(status[i])
        invariant forall i :: ir <= i < |geoc| ==> status[i] == old(status[i])
      {
        if geoc[ir][countryCode] != territory.value {
          status[ir] := status[ir] + PFilterOtherTerritory;
        }
      }
    }
  }
}
