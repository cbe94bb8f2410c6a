/** The covid test-result progression validator. Within one patient's
    group of assessments the result may only progress from '' to 'waiting'
    to a final 'no' or 'yes'; each row's sanitised code is the running
    maximum of the group so far. A group with an illegal value anywhere is
    invalidated whole: every row gets code 0 and the invalid-progression
    flag. */
module Progression {
  import opened Basics
  import opened Flags
  import opened Grouping

  /** The four result keys: '', 'waiting', 'no', 'yes'. */
  datatype TestState = Unset | Waiting | No | Yes

  function Key(s: TestState): string
  {
    match s
    case Unset => ""
    case Waiting => "waiting"
    case No => "no"
    case Yes => "yes"
  }

  /** `key_to_value`: the sanitised code of a state. */
  function Code(s: TestState): (c: nat)
    ensures c <= 3
  {
    match s
    case Unset => 0
    case Waiting => 1
    case No => 2
    case Yes => 3
  }

  /** The sanitised-results key list: code `c` stands for `ResultsKey[c]`. */
  const ResultsKey: seq<string> := ["", "waiting", "no", "yes"]

  lemma CodeIndexesKey(s: TestState)
    ensures ResultsKey[Code(s)] == Key(s)
  {
  }

  /** `valid_transitions`: the values allowed while the running maximum is
      `s`. Each is one of the four keys, and '' is always allowed. */
  function ValidTransitions(s: TestState): (r: seq<string>)
    ensures "" in r && Key(s) in r
    ensures forall v :: v in r ==> StateOf(v).Some?
  {
    match s
    case Unset => ["", "waiting", "yes", "no"]
    case Waiting => ["", "waiting", "yes", "no"]
    case No => ["", "no"]
    case Yes => ["", "yes"]
  }

  /** `upgrades`: the values that raise the running maximum `s`. Every
      upgrade is an allowed value with a higher code; a final result has
      none. */
  function Upgrades(s: TestState): (r: seq<string>)
    ensures forall v :: v in r ==> v in ValidTransitions(s) && StateOf(v).Some? && Code(s) < Code(StateOf(v).value)
    ensures Final(s) ==> r == []
  {
    match s
    case Unset => ["waiting", "yes", "no"]
    case Waiting => ["yes", "no"]
    case No => []
    case Yes => []
  }

  /** The state whose key is `value`, if any. */
  function StateOf(value: string): (r: Option<TestState>)
    ensures r.Some? ==> Key(r.value) == value
    ensures r.None? ==> forall s: TestState :: Key(s) != value
  {
    if value == "" then Some(Unset)
    else if value == "waiting" then Some(Waiting)
    else if value == "no" then Some(No)
    else if value == "yes" then Some(Yes)
    else None
  }

  /** A final result ('no' or 'yes'). */
  predicate Final(s: TestState)
  {
    s == No || s == Yes
  }

  /** One row on states: once the running maximum is final only '' or that
      same result may follow; otherwise the maximum rises to any higher code. */
  function Advance(max: TestState, s: TestState): (r: Option<TestState>)
    ensures r.Some? ==> Code(max) <= Code(r.value)
    ensures r.Some? && Final(max) ==> r.value == max
    ensures r.None? <==> Final(max) && s != Unset && s != max
  {
    if Final(max) && s != Unset && s != max then None
    else Some(if Code(s) > Code(max) then s else max)
  }

  /** The two tables say what `Advance` says: a state's key is allowed iff
      `Advance` accepts it, and it is an upgrade iff it is accepted with a
      higher code. */
  lemma TablesMatchAdvance(max: TestState, s: TestState)
    ensures Key(s) in ValidTransitions(max) <==> Advance(max, s).Some?
    ensures Key(s) in Upgrades(max) <==> Advance(max, s).Some? && Code(max) < Code(s)
  {
  }

  /** One row: the running maximum after `value`, or `None` if `value` is
      not one of the four keys or not a legal transition from `max`. */
  function Next(max: TestState, value: string): Option<TestState>
  {
    match StateOf(value)
    case None => None
    case Some(s) => Advance(max, s)
  }

  /** The lookups of `inner_` for one row: `value` must be in
      `valid_transitions[max]`, and it becomes the new maximum if it is in
      `upgrades[max]`. The tables compute `Next`. */
  method Transition(max: TestState, value: string) returns (next: Option<TestState>)
    ensures next == Next(max, value)
  {
    if value !in ValidTransitions(max) {
      return None;
    }
    if value in Upgrades(max) {
      return StateOf(value);
    }
    return Some(max);
  }

  /** The running maximum after a prefix of states; `Unset` before any row. */
  function Last(ms: seq<TestState>): TestState
  {
    if ms == [] then Unset else ms[|ms| - 1]
  }

  /** The running maxima of the first `n` values, row by row, or `None` if
      one of them is not a key or is an illegal transition. */
  function ScanTo(vals: seq<string>, n: nat): (r: Option<seq<TestState>>)
    requires n <= |vals|
    ensures r.Some? ==> |r.value| == n
    decreases n
  {
    if n == 0 then Some([])
    else
      match ScanTo(vals, n - 1)
      case None => None
      case Some(prev) =>
        match Next(Last(prev), vals[n - 1])
        case None => None
        case Some(m) => Some(prev + [m])
  }

  /** The running maxima of a whole group. */
  function Scan(vals: seq<string>): (r: Option<seq<TestState>>)
    ensures r.Some? ==> |r.value| == |vals|
  {
    ScanTo(vals, |vals|)
  }

  /** The scan of the first `n` values reads only those values. */
  lemma {:induction false} ScanToAgree(a: seq<string>, b: seq<string>, n: nat)
    requires n <= |a| && n <= |b|
    requires forall i :: 0 <= i < n ==> a[i] == b[i]
    ensures ScanTo(a, n) == ScanTo(b, n)
    decreases n
  {
    if n > 0 {
      ScanToAgree(a, b, n - 1);
    }
  }

  /** Scanning a prefix is scanning the first values. */
  lemma ScanOfPrefix(vals: seq<string>, k: nat)
    requires k <= |vals|
    ensures Scan(vals[..k]) == ScanTo(vals, k)
  {
    ScanToAgree(vals[..k], vals, k);
  }

  /** A group is valid iff every value is one of the four keys and, once a
      final 'no' or 'yes' appears, every later value is '' or that same one. */
  ghost predicate ValidGroup(vals: seq<string>)
  {
    && (forall i :: 0 <= i < |vals| ==> StateOf(vals[i]).Some?)
    && (forall i, j :: 0 <= i < j < |vals| && StateOf(vals[i]).Some? && StateOf(vals[j]).Some?
                       && Final(StateOf(vals[i]).value) ==>
          StateOf(vals[j]).value == Unset || StateOf(vals[j]).value == StateOf(vals[i]).value)
  }

  /** The state with the highest code among the values (`Unset` if none). */
  ghost function Highest(vals: seq<string>): TestState
  {
    if vals == [] then Unset
    else
      var prev := Highest(vals[..|vals| - 1]);
      var s := StateOf(vals[|vals| - 1]);
      if s.Some? && Code(s.value) > Code(prev) then s.value else prev
  }

  /** A final highest state is the state of some value; otherwise no value
      is final. */
  lemma {:induction false} HighestWitness(vals: seq<string>)
    ensures Final(Highest(vals)) ==> exists i :: 0 <= i < |vals| && StateOf(vals[i]) == Some(Highest(vals))
    ensures !Final(Highest(vals)) ==>
              forall i :: 0 <= i < |vals| && StateOf(vals[i]).Some? ==> !Final(StateOf(vals[i]).value)
  {
    if vals != [] {
      var init := vals[..|vals| - 1];
      HighestWitness(init);
      forall i | 0 <= i < |init| ensures init[i] == vals[i] { }
    }
  }

  /** Validity of a group extended by one value. */
  lemma ValidExtend(init: seq<string>, v: string)
    requires ValidGroup(init)
    ensures ValidGroup(init + [v]) <==> StateOf(v).Some? && Advance(Highest(init), StateOf(v).value).Some?
  {
    var vals := init + [v];
    var n := |init|;
    assert vals[..n] == init;
    assert vals[n] == v;
    assert forall i :: 0 <= i < n ==> vals[i] == init[i];
    HighestWitness(init);
    if StateOf(v).Some? && Advance(Highest(init), StateOf(v).value).Some? {
      forall i, j | 0 <= i < j < |vals| && StateOf(vals[i]).Some? && StateOf(vals[j]).Some?
                    && Final(StateOf(vals[i]).value)
        ensures StateOf(vals[j]).value == Unset || StateOf(vals[j]).value == StateOf(vals[i]).value
      {
        if j == n && !Final(Highest(init)) {
          assert false;
        }
      }
    }
  }

  /** Every prefix of a valid group is valid. */
  lemma ValidPrefix(vals: seq<string>, k: nat)
    requires k <= |vals|
    ensures ValidGroup(vals) ==> ValidGroup(vals[..k])
  {
    if ValidGroup(vals) {
      var pre := vals[..k];
      assert forall i :: 0 <= i < k ==> pre[i] == vals[i];
    }
  }

  /** The scan succeeds exactly on valid groups, and then its last state is
      the highest state of the group. */
  lemma {:induction false} ScanValid(vals: seq<string>)
    ensures Scan(vals).Some? <==> ValidGroup(vals)
    ensures Scan(vals).Some? ==> Last(Scan(vals).value) == Highest(vals)
  {
    if vals != [] {
      var n := |vals| - 1;
      var init := vals[..n];
      assert vals == init + [vals[n]];
      ScanValid(init);
      ScanOfPrefix(vals, n);
      ValidPrefix(vals, n);
      if ValidGroup(init) {
        ValidExtend(init, vals[n]);
      }
    }
  }

  /** Once the first `k` values are invalid, so are the first `n >= k`. */
  lemma {:induction false} ScanNonePersists(vals: seq<string>, k: nat, n: nat)
    requires k <= n <= |vals| && ScanTo(vals, k).None?
    ensures ScanTo(vals, n).None?
    decreases n
  {
    if k < n {
      ScanNonePersists(vals, k, n - 1);
    }
  }

  /** The scan of the first `k` values is a prefix of the scan of the first `n`. */
  lemma {:induction false} ScanToPrefix(vals: seq<string>, k: nat, n: nat)
    requires k <= n <= |vals| && ScanTo(vals, n).Some?
    ensures ScanTo(vals, k).Some? && ScanTo(vals, k).value == ScanTo(vals, n).value[..k]
    decreases n
  {
    if k < n {
      ScanToPrefix(vals, k, n - 1);
    }
  }

  /** The scan of a prefix is the prefix of the scan. */
  lemma ScanPrefix(vals: seq<string>, k: nat)
    requires k <= |vals| && Scan(vals).Some?
    ensures Scan(vals[..k]).Some? && Scan(vals[..k]).value == Scan(vals).value[..k]
  {
    ScanOfPrefix(vals, k);
    ScanToPrefix(vals, k, |vals|);
  }

  /** For a valid group the sanitised codes never decrease, a final code
      (2 or 3) never changes again, and 2 and 3 never both occur. */
  lemma {:induction false} ScanMonotone(vals: seq<string>)
    requires Scan(vals).Some?
    ensures forall i, j :: 0 <= i <= j < |vals| ==> Code(Scan(vals).value[i]) <= Code(Scan(vals).value[j])
    ensures forall i, j :: 0 <= i <= j < |vals| && Code(Scan(vals).value[i]) >= 2 ==>
              Scan(vals).value[j] == Scan(vals).value[i]
    ensures !((exists i :: 0 <= i < |vals| && Scan(vals).value[i] == No) &&
              (exists j :: 0 <= j < |vals| && Scan(vals).value[j] == Yes))
  {
    if vals != [] {
      var n := |vals| - 1;
      var init := vals[..n];
      ScanOfPrefix(vals, n);
      var ms := Scan(vals).value;
      var prev := Scan(init).value;
      ScanMonotone(init);
      assert ms == prev + [Next(Last(prev), vals[n]).value];
      forall i | 0 <= i < n
        ensures Code(ms[i]) <= Code(ms[n])
        ensures Code(ms[i]) >= 2 ==> ms[n] == ms[i]
      {
        assert ms[i] == prev[i];
      }
    }
  }

  /** `['', 'waiting', 'yes']` sanitises to the codes `[0, 1, 3]`. */
  lemma ExampleProgression()
    ensures Scan(["", "waiting", "yes"]).Some?
    ensures var ms := Scan(["", "waiting", "yes"]).value;
            [Code(ms[0]), Code(ms[1]), Code(ms[2])] == [0, 1, 3]
  {
    var vals := ["", "waiting", "yes"];
    assert StateOf(vals[0]) == Some(Unset);
    assert [] + [Unset] == [Unset];
    assert ScanTo(vals, 1) == Some([Unset]);
    assert StateOf(vals[1]) == Some(Waiting);
    assert [Unset] + [Waiting] == [Unset, Waiting];
    assert ScanTo(vals, 2) == Some([Unset, Waiting]);
    assert StateOf(vals[2]) == Some(Yes);
  }

  /** `['yes', 'no']` is an illegal progression. */
  lemma ExampleRegression()
    ensures Scan(["yes", "no"]).None?
  {
    var vals := ["yes", "no"];
    assert StateOf(vals[0]) == Some(Yes);
    assert [] + [Yes] == [Yes];
    assert ScanTo(vals, 1) == Some([Yes]);
    assert StateOf(vals[1]) == Some(No);
  }

  /** The outcome of validating the group `r` of `values`: the status words
      and sanitised codes of its rows, given the words before. */
  ghost predicate GroupDone(values: seq<string>, before: seq<Status>, status: seq<Status>, sanitised: seq<nat>, r: Range)
    requires r.start <= r.end < |values| == |before| == |status| == |sanitised|
  {
    var outcome := Scan(values[r.start..r.end + 1]);
    forall j :: r.start <= j <= r.end ==>
      if outcome.Some? then
        sanitised[j] == Code(outcome.value[j - r.start]) && status[j] == before[j]
      else
        sanitised[j] == 0 && status[j] == before[j] + FilterInvalidCovidProgression
  }

  lemma GroupDoneIntro(values: seq<string>, before: seq<Status>, status: seq<Status>, sanitised: seq<nat>,
                       r: Range, outcome: Option<seq<TestState>>)
    requires r.start <= r.end < |values| == |before| == |status| == |sanitised|
    requires outcome == Scan(values[r.start..r.end + 1])
    requires outcome.Some? ==> forall j :: r.start <= j <= r.end ==>
               sanitised[j] == Code(outcome.value[j - r.start]) && status[j] == before[j]
    requires outcome.None? ==> forall j :: r.start <= j <= r.end ==>
               sanitised[j] == 0 && status[j] == before[j] + FilterInvalidCovidProgression
    ensures GroupDone(values, before, status, sanitised, r)
  {
  }

  /** One row of the first loop of `inner_`, checked against the scan. */
  lemma SanitiseStep(group: seq<string>, k: nat, ms: seq<TestState>)
    requires k < |group| && ScanTo(group, k) == Some(ms)
    ensures Next(Last(ms), group[k]).None? ==> Scan(group).None?
    ensures Next(Last(ms), group[k]).Some? ==> ScanTo(group, k + 1) == Some(ms + [Next(Last(ms), group[k]).value])
  {
    if Next(Last(ms), group[k]).None? {
      ScanNonePersists(group, k + 1, |group|);
    }
  }

  /** The codes `ms` written over `[start, start + |ms|)` of `before`. */
  ghost predicate Written(z: seq<nat>, before: seq<nat>, start: nat, ms: seq<TestState>)
  {
    && |z| == |before|
    && forall k :: 0 <= k < |z| ==>
         z[k] == if start <= k < start + |ms| then Code(ms[k - start]) else before[k]
  }

  /** Writing the code of one more state right after the written codes. */
  lemma WrittenStep(z: seq<nat>, before: seq<nat>, start: nat, ms: seq<TestState>, m: TestState)
    requires Written(z, before, start, ms) && start + |ms| < |z|
    ensures Written(z[start + |ms| := Code(m)], before, start, ms + [m])
  {
  }

  /** The first loop of `inner_`: writes the running-maximum code of every
      row of the group and stops at the first illegal value. */
  method SanitiseGroup(values: seq<string>, sanitised: array<nat>, start: nat, end: nat) returns (invalid: bool)
    requires start <= end < |values| == sanitised.Length
    modifies sanitised
    ensures invalid <==> Scan(values[start..end + 1]).None?
    ensures !invalid ==> forall j :: start <= j <= end ==>
              sanitised[j] == Code(Scan(values[start..end + 1]).value[j - start])
    ensures forall j :: 0 <= j < |values| && !(start <= j <= end) ==> sanitised[j] == old(sanitised[j])
  {
    ghost var group := values[start..end + 1];
    ghost var before := sanitised[..];
    ghost var ms: seq<TestState> := [];
    var maxValue := Unset;
    var j := start;
    while j <= end
      invariant start <= j <= end + 1 && |ms| == j - start
      invariant ScanTo(group, j - start) == Some(ms)
      invariant maxValue == Last(ms)
      invariant Written(sanitised[..], before, start, ms)
      decreases end + 1 - j
    {
      var value := values[j];
      assert group[j - start] == value;
      SanitiseStep(group, j - start, ms);
      var next := Transition(maxValue, value);
      if next.None? {
        return true;
      }
      maxValue := next.value;
      WrittenStep(sanitised[..], before, start, ms, maxValue);
      sanitised[j] := Code(maxValue);
      ms := ms + [maxValue];
      j := j + 1;
    }
    return false;
  }

  /** The second loop of `inner_`: every row of the group gets code 0 and
      the invalid-progression flag. */
  method InvalidateGroup(status: array<Status>, sanitised: array<nat>, start: nat, end: nat)
    requires start <= end < status.Length == sanitised.Length
    modifies status, sanitised
    ensures forall j :: start <= j <= end ==>
              sanitised[j] == 0 && status[j] == old(status[j]) + FilterInvalidCovidProgression
    ensures forall j :: 0 <= j < status.Length && !(start <= j <= end) ==>
              status[j] == old(status[j]) && sanitised[j] == old(sanitised[j])
  {
    for k := start to end + 1
      invariant forall i :: start <= i < k ==>
                  sanitised[i] == 0 && status[i] == old(status[i]) + FilterInvalidCovidProgression
      invariant forall i :: 0 <= i < status.Length && !(start <= i < k) ==>
                  status[i] == old(status[i]) && sanitised[i] == old(sanitised[i])
    {
      sanitised[k] := Code(Unset);
      status[k] := status[k] + FilterInvalidCovidProgression;
    }
  }

  /** The visitor `inner_` for the group `[start, end]`. */
  method ValidateGroup(values: seq<string>, status: array<Status>, sanitised: array<nat>, start: nat, end: nat)
    requires start <= end < |values| == status.Length == sanitised.Length
    modifies status, sanitised
    ensures GroupDone(values, old(status[..]), status[..], sanitised[..], Range(start, end))
    ensures forall j :: 0 <= j < |values| && !(start <= j <= end) ==>
              status[j] == old(status[j]) && sanitised[j] == old(sanitised[j])
  {
    ghost var outcome := Scan(values[start..end + 1]);
    var invalid := SanitiseGroup(values, sanitised, start, end);
    if invalid {
      InvalidateGroup(status, sanitised, start, end);
      GroupDoneIntro(values, old(status[..]), status[..], sanitised[..], Range(start, end), outcome);
    } else {
      GroupDoneIntro(values, old(status[..]), status[..], sanitised[..], Range(start, end), outcome);
    }
  }

  /** `GroupDone` depends only on the rows of the group. */
  lemma GroupDoneTransfer(values: seq<string>, b1: seq<Status>, s1: seq<Status>, z1: seq<nat>,
                          b2: seq<Status>, s2: seq<Status>, z2: seq<nat>, r: Range)
    requires r.start <= r.end < |values| == |b1| == |s1| == |z1| == |b2| == |s2| == |z2|
    requires GroupDone(values, b1, s1, z1, r)
    requires forall j :: r.start <= j <= r.end ==> b1[j] == b2[j] && s1[j] == s2[j] && z1[j] == z2[j]
    ensures GroupDone(values, b2, s2, z2, r)
  {
    var outcome := Scan(values[r.start..r.end + 1]);
    GroupDoneIntro(values, b2, s2, z2, r, outcome);
  }

  /** Index `j` lies in one of the ranges. */
  ghost predicate InRange(rs: seq<Range>, j: nat)
  {
    exists k :: 0 <= k < |rs| && rs[k].start <= j <= rs[k].end
  }

  /** The visitor applied to each of the ordered ranges `rs` in turn: every
      range ends up validated against the words it had before the pass, and
      rows outside all ranges are untouched. */
  method ValidateGroups(values: seq<string>, status: array<Status>, sanitised: array<nat>, rs: seq<Range>)
    requires |values| == status.Length == sanitised.Length
    requires Ordered(rs, |values|)
    modifies status, sanitised
    ensures forall k :: 0 <= k < |rs| ==> GroupDone(values, old(status[..]), status[..], sanitised[..], rs[k])
    ensures forall j :: 0 <= j < |values| && !InRange(rs, j) ==>
              status[j] == old(status[j]) && sanitised[j] == old(sanitised[j])
  {
    ghost var before := status[..];
    ghost var zBefore := sanitised[..];
    for i := 0 to |rs|
      invariant forall k :: 0 <= k < i ==> GroupDone(values, before, status[..], sanitised[..], rs[k])
      invariant forall j :: 0 <= j < |values| && !InRange(rs[..i], j) ==>
                  status[j] == before[j] && sanitised[j] == zBefore[j]
    {
      ghost var s0 := status[..];
      ghost var z0 := sanitised[..];
      ValidateGroup(values, status, sanitised, rs[i].start, rs[i].end);
      forall k | 0 <= k < i
        ensures GroupDone(values, before, status[..], sanitised[..], rs[k])
      {
        GroupDoneTransfer(values, before, s0, z0, before, status[..], sanitised[..], rs[k]);
      }
      forall j | rs[i].start <= j <= rs[i].end
        ensures s0[j] == before[j]
      {
        assert !InRange(rs[..i], j);
      }
      GroupDoneTransfer(values, s0, status[..], sanitised[..], before, status[..], sanitised[..], rs[i]);
      forall j | 0 <= j < |values| && !InRange(rs[..i + 1], j)
        ensures status[j] == before[j] && sanitised[j] == zBefore[j]
      {
      }
    }
    assert rs[..|rs|] == rs;
  }

  /** The progression pass of the pipeline: the grouping pass over the
      patient ids with the visitor `inner_`. Every visited group is
      validated; a single-record input is never visited and keeps its
      words and codes. With no assessments at all the grouping pass raises
      (`raised`), and the pipeline stops there. */
  method ValidateCovidProgression(ids: seq<string>, values: seq<string>, status: array<Status>, sanitised: array<nat>)
    returns (raised: bool)
    requires |ids| == |values| == status.Length == sanitised.Length
    modifies status, sanitised
    ensures raised <==> |ids| == 0
    ensures 2 <= |ids| ==> Tiles(Runs(ids), |ids|) && Ordered(Runs(ids), |ids|)
    ensures 2 <= |ids| ==> forall k :: 0 <= k < |Runs(ids)| ==>
              GroupDone(values, old(status[..]), status[..], sanitised[..], Runs(ids)[k])
    ensures |ids| < 2 ==> status[..] == old(status[..]) && sanitised[..] == old(sanitised[..])
  {
    var visits := IterateOverPatientAssessments(ids, |ids|);
    if visits.None? {
      return true;
    }
    assert ids[..|ids|] == ids;
    RunsPartition(ids);
    ValidateGroups(values, status, sanitised, visits.value);
    return false;
  }
}
