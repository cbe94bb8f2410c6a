/** Per-patient grouping: one linear pass over the patient-id column that
    hands a visitor the inclusive bounds `[start, end]` of each maximal run
    of equal ids. The visitor calls are modelled by the sequence of bounds
    the pass visits, in order. The pass does not check that the input is
    sorted; it groups contiguous runs only. */
module Grouping {
  import opened Basics

  /** Inclusive index bounds of one group. */
  datatype Range = Range(start: nat, end: nat)

  /** The ranges are non-empty and lie inside `[0, n)`. */
  predicate Within(rs: seq<Range>, n: nat)
  {
    forall k :: 0 <= k < |rs| ==> rs[k].start <= rs[k].end < n
  }

  /** The ranges lie inside `[0, n)` and are strictly increasing (so
      pairwise disjoint). */
  predicate Ordered(rs: seq<Range>, n: nat)
  {
    && Within(rs, n)
    && (forall k, l :: 0 <= k < l < |rs| ==> rs[k].end < rs[l].start)
  }

  /** The ranges cover `[lo, n)` in order, each starting right after the
      previous one ends. */
  predicate TilesFrom(rs: seq<Range>, lo: nat, n: nat)
    decreases |rs|
  {
    if rs == [] then lo == n
    else rs[0].start == lo && lo <= rs[0].end < n && TilesFrom(rs[1..], rs[0].end + 1, n)
  }

  /** The ranges partition the indices `[0, n)`. */
  predicate Tiles(rs: seq<Range>, n: nat)
  {
    TilesFrom(rs, 0, n)
  }

  /** `r` is a run of equal ids that cannot be extended either way. */
  predicate MaximalRun<T(==)>(ids: seq<T>, r: Range)
  {
    && r.start <= r.end < |ids|
    && (forall j :: r.start <= j <= r.end ==> ids[j] == ids[r.start])
    && (r.start == 0 || ids[r.start - 1] != ids[r.start])
    && (r.end == |ids| - 1 || ids[r.end + 1] != ids[r.end])
  }

  predicate MaximalRuns<T(==)>(ids: seq<T>, rs: seq<Range>)
  {
    forall k :: 0 <= k < |rs| ==> MaximalRun(ids, rs[k])
  }

  /** A tiling of `[lo, n)` is ordered, starts at `lo`, ends at `n - 1`, has
      no gaps, and is empty iff the interval is. */
  lemma {:induction false} TilesFromOrdered(rs: seq<Range>, lo: nat, n: nat)
    requires TilesFrom(rs, lo, n)
    ensures Ordered(rs, n)
    ensures lo <= n && (rs == [] <==> lo == n)
    ensures forall k :: 0 <= k < |rs| ==> lo <= rs[k].start
    ensures rs != [] ==> rs[0].start == lo && rs[|rs| - 1].end == n - 1
    ensures forall k :: 0 <= k < |rs| - 1 ==> rs[k + 1].start == rs[k].end + 1
    decreases |rs|
  {
    if rs != [] {
      var tail := rs[1..];
      TilesFromOrdered(tail, rs[0].end + 1, n);
      assert forall k :: 1 <= k < |rs| ==> rs[k] == tail[k - 1];
    }
  }

  /** Every index of a tiled interval lies in exactly one range. */
  lemma {:induction false} TilesCoverOnce(rs: seq<Range>, n: nat, i: nat)
    requires Tiles(rs, n) && i < n
    ensures exists k :: 0 <= k < |rs| && rs[k].start <= i <= rs[k].end
    ensures forall k, l ::
              0 <= k < |rs| && 0 <= l < |rs| && rs[k].start <= i <= rs[k].end && rs[l].start <= i <= rs[l].end
              ==> k == l
  {
    TilesFromOrdered(rs, 0, n);
    var k := 0;
    while rs[k].end < i
      invariant 0 <= k < |rs|
      invariant rs[k].start <= i
      decreases |rs| - k
    {
      k := k + 1;
    }
  }

  /** The last index of the run of values equal to `ids[s]` that starts at `s`. */
  function RunEnd<T(==)>(ids: seq<T>, s: nat): (e: nat)
    requires s < |ids|
    ensures s <= e < |ids|
    decreases |ids| - s
  {
    if s + 1 < |ids| && ids[s + 1] == ids[s] then RunEnd(ids, s + 1) else s
  }

  /** The run ending at `RunEnd(ids, s)` holds equal ids and cannot be
      extended to the right. */
  lemma {:induction false} RunEndMaximal<T>(ids: seq<T>, s: nat)
    requires s < |ids|
    ensures forall k :: s <= k <= RunEnd(ids, s) ==> ids[k] == ids[s]
    ensures RunEnd(ids, s) + 1 == |ids| || ids[RunEnd(ids, s) + 1] != ids[s]
    decreases |ids| - s
  {
    if s + 1 < |ids| && ids[s + 1] == ids[s] {
      RunEndMaximal(ids, s + 1);
    }
  }

  /** A run end is determined by the run: the two ensures of `RunEnd` pin it down. */
  lemma {:induction false} RunEndAt<T>(ids: seq<T>, s: nat, e: nat)
    requires s <= e < |ids|
    requires forall k :: s <= k <= e ==> ids[k] == ids[s]
    requires e + 1 == |ids| || ids[e + 1] != ids[s]
    ensures RunEnd(ids, s) == e
    decreases e - s
  {
    if s < e {
      RunEndAt(ids, s + 1, e);
    }
  }

  /** The maximal runs of `ids` from index `s` on. */
  function RunsFrom<T(==)>(ids: seq<T>, s: nat): seq<Range>
    requires s <= |ids|
    decreases |ids| - s
  {
    if s == |ids| then []
    else
      var e := RunEnd(ids, s);
      [Range(s, e)] + RunsFrom(ids, e + 1)
  }

  /** Peeling the first run off the runs from `s`. */
  lemma RunsFromStep<T>(ids: seq<T>, s: nat, i: nat)
    requires s < i <= |ids|
    requires forall k :: s <= k < i ==> ids[k] == ids[s]
    requires i == |ids| || ids[i] != ids[s]
    ensures RunsFrom(ids, s) == [Range(s, i - 1)] + RunsFrom(ids, i)
  {
    RunEndAt(ids, s, i - 1);
  }

  /** Visiting the run `[s, i - 1]` of the first `n` ids moves the pass on
      to the runs from `i`. */
  lemma VisitRun<T>(ids: seq<T>, n: nat, visits: seq<Range>, all: seq<Range>, s: nat, i: nat)
    requires s < i <= n <= |ids|
    requires forall k :: s <= k < i ==> ids[k] == ids[s]
    requires i == n || ids[i] != ids[s]
    requires visits + RunsFrom(ids[..n], s) == all
    ensures i < n ==> (visits + [Range(s, i - 1)]) + RunsFrom(ids[..n], i) == all
    ensures i == n ==> visits + [Range(s, i - 1)] == all
  {
    RunsFromStep(ids[..n], s, i);
    assert RunsFrom(ids[..n], n) == [];
  }

  /** The maximal runs of equal ids, in index order: the grouping every
      visitor is meant to see. */
  function Runs<T(==)>(ids: seq<T>): (r: seq<Range>)
    ensures Within(r, |ids|)
  {
    RunsFromPartition(ids, 0);
    TilesFromOrdered(RunsFrom(ids, 0), 0, |ids|);
    RunsFrom(ids, 0)
  }

  lemma {:induction false} RunsFromPartition<T>(ids: seq<T>, s: nat)
    requires s <= |ids|
    requires s == 0 || s == |ids| || ids[s - 1] != ids[s]
    ensures TilesFrom(RunsFrom(ids, s), s, |ids|)
    ensures MaximalRuns(ids, RunsFrom(ids, s))
    decreases |ids| - s
  {
    var rs := RunsFrom(ids, s);
    if s < |ids| {
      var e := RunEnd(ids, s);
      var tail := RunsFrom(ids, e + 1);
      RunEndMaximal(ids, s);
      RunsFromPartition(ids, e + 1);
      assert rs[1..] == tail;
      assert MaximalRun(ids, rs[0]);
      forall k | 1 <= k < |rs|
        ensures MaximalRun(ids, rs[k])
      {
        assert rs[k] == tail[k - 1];
      }
    }
  }

  /** The reference grouping partitions every input, whatever its length,
      into maximal runs. */
  lemma RunsPartition<T>(ids: seq<T>)
    ensures Tiles(Runs(ids), |ids|)
    ensures Ordered(Runs(ids), |ids|)
    ensures MaximalRuns(ids, Runs(ids))
  {
    RunsFromPartition(ids, 0);
    TilesFromOrdered(Runs(ids), 0, |ids|);
  }

  /** A single record forms one group of its own. */
  lemma SingleRecordIsOneGroup<T>(x: T)
    ensures Runs([x]) == [Range(0, 0)]
  {
    assert RunEnd([x], 0) == 0;
    assert RunsFrom([x], 1) == [];
  }

  /** `iterate_over_patient_assessments`: the pass as written, over the id
      column `ids` and the loop bound `n` (the length of the fields list in
      the pipeline; the length of the status list in the utility module).
      It reads `ids[0]` unconditionally, so an empty column raises an
      `IndexError`; with `n` past the end of the column, the loop raises
      one when it reads `ids[|ids|]`. A raise is `None`: it aborts the run,
      so the visits made before it are not reported. The loop starts at
      `i = 1`, so a single record is never visited. */
  method IterateOverPatientAssessments<T(==)>(ids: seq<T>, n: nat) returns (r: Option<seq<Range>>)
    ensures r.None? <==> |ids| == 0 || (2 <= n && |ids| < n)
    ensures 0 < |ids| && n < 2 ==> r == Some([])
    ensures 2 <= n <= |ids| ==> r == Some(Runs(ids[..n]))
  {
    if |ids| == 0 {
      return None;
    }
    if 2 <= n && |ids| < n {
      return None;
    }
    if n < 2 {
      return Some([]);
    }
    ghost var g := ids[..n];
    ghost var all := Runs(g);
    var visits := [];
    var curId := ids[0];
    var curStart, curEnd := 0, 0;
    var i := 1;
    while i < n
      invariant 1 <= i <= n
      invariant curStart <= i && curStart < n
      invariant curId == ids[curStart]
      invariant forall k :: curStart <= k < i ==> ids[k] == curId
      invariant curEnd == if curStart < i then i - 1 else curStart
      invariant i < n ==> visits + RunsFrom(g, curStart) == all
      invariant i == n ==> visits == all
      decreases n - i, i - curStart
    {
      while ids[i] == curId
        invariant curStart <= i < n
        invariant forall k :: curStart <= k < i ==> ids[k] == curId
        invariant curEnd == if curStart < i then i - 1 else curStart
        decreases n - i
      {
        curEnd := i;
        i := i + 1;
        if i >= n {
          break;
        }
      }
      VisitRun(ids, n, visits, all, curStart, i);
      visits := visits + [Range(curStart, curEnd)];
      if i < n {
        curStart := i;
        curEnd := curStart;
        curId := ids[i];
      }
    }
    return Some(visits);
  }

  /** `iterate_over_patient_assessments2`: the same pass over a list of
      patient ids, handing the visitor each group's id with its bounds. An
      empty list raises at `patient_ids[0]`, modelled as `None`. */
  method IterateOverPatientAssessments2<T(==)>(patientIds: seq<T>) returns (r: Option<seq<(T, Range)>>)
    ensures r.None? <==> |patientIds| == 0
    ensures |patientIds| == 1 ==> r == Some([])
    ensures 2 <= |patientIds| ==> r.Some? && |r.value| == |Runs(patientIds)|
    ensures 2 <= |patientIds| ==> forall k :: 0 <= k < |r.value| ==>
              && r.value[k].1 == Runs(patientIds)[k]
              && r.value[k].1.start < |patientIds|
              && r.value[k].0 == patientIds[r.value[k].1.start]
  {
    var visits := IterateOverPatientAssessments(patientIds, |patientIds|);
    if visits.None? {
      return None;
    }
    if |patientIds| < 2 {
      return Some([]);
    }
    var rs := visits.value;
    assert patientIds[..|patientIds|] == patientIds;
    RunsPartition(patientIds);
    return Some(seq(|rs|, k requires 0 <= k < |rs| => (patientIds[rs[k].start], rs[k])));
  }

  /** The pass with the final group of every input visited: a single record
      is a group of its own and an empty input visits nothing. */
  method IterateGroups<T(==)>(ids: seq<T>) returns (visits: seq<Range>)
    ensures visits == Runs(ids)
  {
    ghost var all := Runs(ids);
    visits := [];
    var curStart := 0;
    while curStart < |ids|
      invariant curStart <= |ids|
      invariant visits + RunsFrom(ids, curStart) == all
      decreases |ids| - curStart
    {
      var i := curStart + 1;
      while i < |ids| && ids[i] == ids[curStart]
        invariant curStart < i <= |ids|
        invariant forall k :: curStart <= k < i ==> ids[k] == ids[curStart]
      {
        i := i + 1;
      }
      RunsFromStep(ids, curStart, i);
      visits := visits + [Range(curStart, i - 1)];
      curStart := i;
    }
  }
}
