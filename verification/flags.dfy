/** Per-record filter-status words: the flag constants of the registry and
    assessment checks, the counting loops the summaries use and the in-place
    flag clear. A record is retained iff its word is zero. */
module Flags {

  /** A filter-status word, a non-negative Python integer, as the set of the
      positions of its 1 bits: `a | b` is `a + b`, `a & b` is `a * b`,
      `a & ~b` is `a - b` and the word 0 is `{}`. Flag 0x8, for one, is `{3}`. */
  type Status = set<nat>

  /** The "all flags" word 0xffffffff. */
  const AllFlags: Status := set b: nat | b < 32

  // registry (patient) flags
  const PFilterOtherTerritory: Status := {0}  // 0x1
  const PFilterNoAssessments: Status := {1}  // 0x2
  const PFilterOneAssessment: Status := {2}  // 0x4
  const FilterMissingYob: Status := {3}  // 0x8
  const FilterBadYob: Status := {4}  // 0x10
  const FilterMissingHeight: Status := {5}  // 0x20
  const FilterBadHeight: Status := {6}  // 0x40
  const FilterMissingWeight: Status := {7}  // 0x80
  const FilterBadWeight: Status := {8}  // 0x100
  const FilterMissingBmi: Status := {9}  // 0x200
  const FilterBadBmi: Status := {10}  // 0x400
  const FilterPAll: Status := AllFlags

  // assessment flags
  const AFilterInvalidPatientId: Status := {0}  // 0x1
  const AFilterPatientFiltered: Status := {1}  // 0x2
  /** Zero: a missing temperature is deliberately not flagged. */
  const FilterMissingTemp: Status := {}  // 0x0
  const FilterBadTemp: Status := {3}  // 0x8
  const FilterInconsistentNotTested: Status := {4}  // 0x10
  const FilterInconsistentTested: Status := {5}  // 0x20
  const FilterInconsistentSymptoms: Status := {6}  // 0x40
  const FilterInconsistentNoSymptoms: Status := {7}  // 0x80
  const FilterInvalidCovidProgression: Status := {8}  // 0x100
  const FilterAAll: Status := AllFlags

  /** Number of words with some bit of `f` set. */
  function CountSet(flags: seq<Status>, f: Status): (n: nat)
    ensures n <= |flags|
  {
    if flags == [] then 0
    else CountSet(flags[..|flags| - 1], f) + (if flags[|flags| - 1] * f != {} then 1 else 0)
  }

  /** Number of words with no bit of `f` set. */
  function CountNotSet(flags: seq<Status>, f: Status): (n: nat)
    ensures n <= |flags|
  {
    if flags == [] then 0
    else CountNotSet(flags[..|flags| - 1], f) + (if flags[|flags| - 1] * f == {} then 1 else 0)
  }

  /** Number of clean (all-zero) words. */
  function CountEmpty(flags: seq<Status>): (n: nat)
    ensures n <= |flags|
  {
    if flags == [] then 0
    else CountEmpty(flags[..|flags| - 1]) + (if flags[|flags| - 1] == {} then 1 else 0)
  }

  method CountFlagEmpty(flags: seq<Status>) returns (count: nat)
    ensures count == CountEmpty(flags)
  {
    count := 0;
    for i := 0 to |flags|
      invariant count == CountEmpty(flags[..i])
    {
      assert flags[..i + 1][..i] == flags[..i];
      if flags[i] == {} {
        count := count + 1;
      }
    }
    assert flags[..|flags|] == flags;
  }

  method CountFlagNotSet(flags: seq<Status>, flagToTest: Status) returns (count: nat)
    ensures count == CountNotSet(flags, flagToTest)
  {
    count := 0;
    for i := 0 to |flags|
      invariant count == CountNotSet(flags[..i], flagToTest)
    {
      assert flags[..i + 1][..i] == flags[..i];
      if flags[i] * flagToTest == {} {
        count := count + 1;
      }
    }
    assert flags[..|flags|] == flags;
  }

  method CountFlagSet(flags: seq<Status>, flagToTest: Status) returns (count: nat)
    ensures count == CountSet(flags, flagToTest)
  {
    count := 0;
    for i := 0 to |flags|
      invariant count == CountSet(flags[..i], flagToTest)
    {
      assert flags[..i + 1][..i] == flags[..i];
      if flags[i] * flagToTest != {} {
        count := count + 1;
      }
    }
    assert flags[..|flags|] == flags;
  }

  /** Every word is counted exactly once, as set or as not set. */
  lemma {:induction false} SetPlusNotSet(flags: seq<Status>, f: Status)
    ensures CountSet(flags, f) + CountNotSet(flags, f) == |flags|
  {
    if flags != [] {
      SetPlusNotSet(flags[..|flags| - 1], f);
    }
  }

  /** A clean word has no bit of any `f` set. */
  lemma {:induction false} EmptyAtMostNotSet(flags: seq<Status>, f: Status)
    ensures CountEmpty(flags) <= CountNotSet(flags, f)
  {
    if flags != [] {
      EmptyAtMostNotSet(flags[..|flags| - 1], f);
    }
  }

  /** For words that hold only flags, testing against the all-flags word
      counts exactly the clean words. */
  lemma {:induction false} NotSetAllIsEmpty(flags: seq<Status>)
    requires forall i :: 0 <= i < |flags| ==> flags[i] <= AllFlags
    ensures CountNotSet(flags, FilterAAll) == CountEmpty(flags)
  {
    if flags != [] {
      var w := flags[|flags| - 1];
      NotSetAllIsEmpty(flags[..|flags| - 1]);
      if w != {} {
        var b :| b in w;
        assert b in w * FilterAAll;
      }
    }
  }

  /** A zero flag (such as `FilterMissingTemp`) is never counted as set. */
  lemma {:induction false} ZeroFlagNeverSet(flags: seq<Status>)
    ensures CountSet(flags, {}) == 0
  {
    if flags != [] {
      ZeroFlagNeverSet(flags[..|flags| - 1]);
    }
  }

  /** Every word with `toClear`'s bits removed. */
  function Cleared(values: seq<Status>, toClear: Status): (r: seq<Status>)
    ensures |r| == |values|
    ensures forall i :: 0 <= i < |values| ==> r[i] * toClear == {} && r[i] + values[i] * toClear == values[i]
  {
    if values == [] then []
    else Cleared(values[..|values| - 1], toClear) + [values[|values| - 1] - toClear]
  }

  /** `clear_set_flag`: removes the bits of `toClear` from every word in place. */
  method ClearSetFlag(values: array<Status>, toClear: Status)
    modifies values
    ensures values[..] == Cleared(old(values[..]), toClear)
  {
    ghost var orig := values[..];
    for v := 0 to values.Length
      invariant values[..v] == Cleared(orig[..v], toClear)
      invariant values[v..] == orig[v..]
    {
      assert orig[..v + 1][..v] == orig[..v];
      assert values[v] == orig[v];
      values[v] := values[v] - toClear;
      assert values[..v + 1] == values[..v] + [values[v]];
    }
    assert orig[..values.Length] == orig;
    assert values[..values.Length] == values[..];
  }

  /** Clearing twice is clearing once. */
  lemma {:induction false} ClearedIdempotent(values: seq<Status>, toClear: Status)
    ensures Cleared(Cleared(values, toClear), toClear) == Cleared(values, toClear)
  {
    if values != [] {
      var init := values[..|values| - 1];
      var once := Cleared(values, toClear);
      ClearedIdempotent(init, toClear);
      assert once[..|values| - 1] == Cleared(init, toClear);
      var last := values[|values| - 1];
      assert (last - toClear) - toClear == last - toClear;
    }
  }

  /** After a clear, no word is counted as having a cleared bit. */
  lemma {:induction false} ClearedNotCounted(values: seq<Status>, toClear: Status)
    ensures CountSet(Cleared(values, toClear), toClear) == 0
  {
    if values != [] {
      var init := values[..|values| - 1];
      ClearedNotCounted(init, toClear);
      assert Cleared(values, toClear)[..|values| - 1] == Cleared(init, toClear);
    }
  }

  /** Clearing all flags leaves every record that holds only flags clean. */
  lemma ClearAllIsClean(values: seq<Status>, i: nat)
    requires i < |values| && values[i] <= AllFlags
    ensures Cleared(values, FilterAAll)[i] == {}
  {
  }
}
