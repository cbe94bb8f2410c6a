/** The last two assessment steps: discarding every filtered assessment,
    then collapsing each patient's assessments of one calendar day into a
    single row. The day of a row is the `(year, month, day)` slice triple of
    its `updated_at` field (index 3); consecutive rows of a group whose
    triples differ start a new output row. */
module DayMerge {
  import opened Basics
  import opened Flags
  import opened Text
  import opened Grouping

  // ---------------------------------------------------------------- discard

  /** The entries whose status word is zero, in their original order. */
  function Kept<T>(rows: seq<T>, status: seq<Status>): (r: seq<T>)
    requires |rows| == |status|
    ensures |r| <= |rows|
  {
    if rows == [] then []
    else
      var n := |rows| - 1;
      Kept(rows[..n], status[..n]) + (if status[n] == {} then [rows[n]] else [])
  }

  /** The indices of the zero status words, in increasing order. */
  function KeptIndices(status: seq<Status>): seq<nat>
  {
    if status == [] then []
    else
      var n := |status| - 1;
      KeptIndices(status[..n]) + (if status[n] == {} then [n] else [])
  }

  /** The discard loop: appends every row whose status word is zero. */
  method DiscardFiltered(rows: seq<Row>, status: seq<Status>) returns (remaining: seq<Row>)
    requires |rows| == |status|
    ensures remaining == Kept(rows, status)
  {
    remaining := [];
    for ir := 0 to |rows|
      invariant remaining == Kept(rows[..ir], status[..ir])
    {
      assert rows[..ir + 1][..ir] == rows[..ir];
      assert status[..ir + 1][..ir] == status[..ir];
      if status[ir] == {} {
        remaining := remaining + [rows[ir]];
      }
    }
    assert rows[..|rows|] == rows && status[..|status|] == status;
  }

  /** Exactly the clean rows survive: as many as there are zero words. */
  lemma {:induction false} KeptCount<T>(rows: seq<T>, status: seq<Status>)
    requires |rows| == |status|
    ensures |Kept(rows, status)| == CountEmpty(status)
  {
    if rows != [] {
      var n := |rows| - 1;
      KeptCount(rows[..n], status[..n]);
    }
  }

  /** The discard keeps the rows at the zero-word indices, in order. */
  lemma {:induction false} KeptIsSelection<T>(rows: seq<T>, status: seq<Status>)
    requires |rows| == |status|
    ensures |Kept(rows, status)| == |KeptIndices(status)|
    ensures forall k :: 0 <= k < |KeptIndices(status)| ==>
              KeptIndices(status)[k] < |rows| && Kept(rows, status)[k] == rows[KeptIndices(status)[k]]
  {
    if rows != [] {
      var n := |rows| - 1;
      KeptIsSelection(rows[..n], status[..n]);
    }
  }

  /** The kept indices are increasing and are exactly those of the zero
      words. */
  lemma {:induction false} KeptIndicesExact(status: seq<Status>)
    ensures forall k, l :: 0 <= k < l < |KeptIndices(status)| ==> KeptIndices(status)[k] < KeptIndices(status)[l]
    ensures forall k :: 0 <= k < |KeptIndices(status)| ==> KeptIndices(status)[k] < |status|
    ensures forall i :: 0 <= i < |status| ==> (status[i] == {} <==> i in KeptIndices(status))
  {
    if status != [] {
      var n := |status| - 1;
      var pre := status[..n];
      KeptIndicesExact(pre);
      assert forall i :: 0 <= i < n ==> pre[i] == status[i];
    }
  }

  /** Discarding from a prefix keeps a prefix of what the whole discard keeps. */
  lemma {:induction false} KeptPrefix<T>(col: seq<T>, status: seq<Status>, i: nat)
    requires |col| == |status| && i <= |col|
    ensures Kept(col[..i], status[..i]) <= Kept(col, status)
    decreases |col| - i
  {
    if i < |col| {
      var n := |col| - 1;
      KeptPrefix(col[..n], status[..n], i);
      assert col[..n][..i] == col[..i] && status[..n][..i] == status[..i];
    } else {
      assert col[..i] == col && status[..i] == status;
    }
  }

  /** `n` false entries: a freshly zeroed boolean column. */
  function Falses(n: nat): (r: seq<bool>)
    ensures |r| == n && forall k :: 0 <= k < n ==> !r[k]
  {
    seq(n, k => false)
  }

  /** What the created-field compaction loop leaves in a column of
      `CountEmpty(status)` entries: it scans only the first
      `CountEmpty(status)` indices of the unfiltered column, so it keeps
      the clean entries among those and leaves the rest false. */
  function CompactedAsWritten(col: seq<bool>, status: seq<Status>): (r: seq<bool>)
    requires |col| == |status|
    ensures |r| == CountEmpty(status)
  {
    var n := CountEmpty(status);
    var front := Kept(col[..n], status[..n]);
    front + Falses(n - |front|)
  }

  /** The compaction of one created-field column as written: the loop runs
      over the indices of the remaining rows but tests and reads the
      unfiltered status and column at those indices. */
  method CompactColumnAsWritten(col: seq<bool>, status: seq<Status>, remainingCount: nat) returns (rdf: array<bool>)
    requires |col| == |status| && remainingCount == CountEmpty(status)
    ensures fresh(rdf)
    ensures rdf[..] == CompactedAsWritten(col, status)
  {
    rdf := new bool[remainingCount](k => false);
    var rdindex := 0;
    for ir := 0 to remainingCount
      invariant rdindex == |Kept(col[..ir], status[..ir])| <= ir
      invariant rdf[..] == Kept(col[..ir], status[..ir]) + Falses(remainingCount - rdindex)
    {
      assert col[..ir + 1][..ir] == col[..ir] && status[..ir + 1][..ir] == status[..ir];
      if status[ir] == {} {
        rdf[rdindex] := col[ir];
        rdindex := rdindex + 1;
      }
    }
  }

  /** One filtered row ahead of a clean one is enough to misalign the
      column: the loop looks at index 0 only, skips it, and never copies the
      clean row's `true`. */
  lemma CompactionMisaligned()
    ensures CompactedAsWritten([false, true], [{0}, {}]) == [false]
    ensures Kept([false, true], [{0}, {}]) == [true]
  {
    var st: seq<Status> := [{0}, {}];
    assert st[..1] == [{0}];
    assert CountEmpty(st) == 1;
    assert Kept([false, true][..1], st[..1]) == [];
  }

  /** The compaction as intended: the column keeps exactly the entries of
      the clean rows, in order, so it stays aligned with `Kept` of the rows. */
  method CompactColumn(col: seq<bool>, status: seq<Status>, remainingCount: nat) returns (rdf: array<bool>)
    requires |col| == |status| && remainingCount == CountEmpty(status)
    ensures fresh(rdf)
    ensures rdf[..] == Kept(col, status)
  {
    KeptCount(col, status);
    rdf := new bool[remainingCount](k => false);
    var rdindex := 0;
    for ir := 0 to |col|
      invariant rdindex == |Kept(col[..ir], status[..ir])| <= remainingCount
      invariant rdf[..] == Kept(col[..ir], status[..ir]) + Falses(remainingCount - rdindex)
    {
      assert col[..ir + 1][..ir] == col[..ir] && status[..ir + 1][..ir] == status[..ir];
      KeptPrefix(col, status, ir + 1);
      if status[ir] == {} {
        rdf[rdindex] := col[ir];
        rdindex := rdindex + 1;
      }
    }
    assert col[..|col|] == col && status[..|status|] == status;
  }

  /** Row `k` of the compacted column belongs to row `k` of the kept rows:
      both come from the `k`-th clean row. */
  lemma {:induction false} CompactedAligned(rows: seq<Row>, col: seq<bool>, status: seq<Status>, k: nat)
    requires |rows| == |col| == |status| && k < |Kept(rows, status)|
    ensures |Kept(col, status)| == |Kept(rows, status)|
    ensures k < |KeptIndices(status)| && KeptIndices(status)[k] < |rows|
    ensures Kept(col, status)[k] == col[KeptIndices(status)[k]]
    ensures Kept(rows, status)[k] == rows[KeptIndices(status)[k]]
  {
    KeptIsSelection(rows, status);
    KeptIsSelection(col, status);
  }

  // ---------------------------------------------------- same-day adjacency

  /** Every row has the fields up to `updated_at`. */
  predicate Stamped(rows: seq<Row>)
  {
    forall i :: 0 <= i < |rows| ==> 3 < |rows[i]|
  }

  /** The calendar day of every row's `updated_at`. */
  function Days(rows: seq<Row>): (d: seq<DateKey>)
    requires Stamped(rows)
    ensures |d| == |rows|
  {
    if rows == [] then []
    else
      var n := |rows| - 1;
      Days(rows[..n]) + [DayOf(rows[n][3])]
  }

  /** Entry `i` of the day column is the day of row `i`. */
  lemma {:induction false} DaysAt(rows: seq<Row>, i: nat)
    requires Stamped(rows) && i < |rows|
    ensures Days(rows)[i] == DayOf(rows[i][3])
  {
    var n := |rows| - 1;
    if i < n {
      DaysAt(rows[..n], i);
    }
  }

  /** The adjacent pairs `(j - 1, j)`, `start < j <= i`, on the same day. */
  function SamePairs(days: seq<DateKey>, start: nat, i: nat): nat
    requires start <= i < |days|
    decreases i - start
  {
    if i == start then 0
    else SamePairs(days, start, i - 1) + (if days[i - 1] == days[i] then 1 else 0)
  }

  /** The adjacent pairs `(j - 1, j)`, `start < j <= i`, on different days. */
  function DayChanges(days: seq<DateKey>, start: nat, i: nat): nat
    requires start <= i < |days|
    decreases i - start
  {
    if i == start then 0
    else DayChanges(days, start, i - 1) + (if days[i - 1] == days[i] then 0 else 1)
  }

  /** Each adjacent pair is either a same-day pair or a day change. */
  lemma {:induction false} ChangesPlusSame(days: seq<DateKey>, start: nat, i: nat)
    requires start <= i < |days|
    ensures DayChanges(days, start, i) + SamePairs(days, start, i) == i - start
    decreases i - start
  {
    if i > start {
      ChangesPlusSame(days, start, i - 1);
    }
  }

  lemma {:induction false} DayChangesMonotone(days: seq<DateKey>, start: nat, a: nat, b: nat)
    requires start <= a <= b < |days|
    ensures DayChanges(days, start, a) <= DayChanges(days, start, b)
    decreases b - a
  {
    if a < b {
      DayChangesMonotone(days, start, a, b - 1);
    }
  }

  /** The visitor of `calculate_merged_field_count_fac` for the group
      `[start, end]`: adds the group's same-day pairs to the running
      `merged_row_count`. */
  method CountSameDay(rows: seq<Row>, start: nat, end: nat, mergedRowCount: nat) returns (count: nat)
    requires Stamped(rows) && start <= end < |rows|
    ensures count == mergedRowCount + SamePairs(Days(rows), start, end)
  {
    ghost var days := Days(rows);
    count := mergedRowCount;
    for i := start + 1 to end + 1
      invariant count == mergedRowCount + SamePairs(days, start, i - 1)
    {
      var lastDate := DayOf(rows[i - 1][3]);
      var curDate := DayOf(rows[i][3]);
      DaysAt(rows, i - 1);
      DaysAt(rows, i);
      if lastDate == curDate {
        count := count + 1;
      }
    }
  }

  // ------------------------------------------------------ totals per group

  /** Same-day pairs over all groups. */
  function SameTotal(days: seq<DateKey>, rs: seq<Range>): nat
    requires Within(rs, |days|)
  {
    if rs == [] then 0
    else
      var r := rs[|rs| - 1];
      SameTotal(days, rs[..|rs| - 1]) + SamePairs(days, r.start, r.end)
  }

  /** Output rows over all groups: one per group plus one per day change. */
  function OutTotal(days: seq<DateKey>, rs: seq<Range>): nat
    requires Within(rs, |days|)
  {
    if rs == [] then 0
    else
      var r := rs[|rs| - 1];
      OutTotal(days, rs[..|rs| - 1]) + 1 + DayChanges(days, r.start, r.end)
  }

  /** The number of rows the ranges hold. */
  function Span(rs: seq<Range>): nat
  {
    if rs == [] then 0
    else
      var r := rs[|rs| - 1];
      Span(rs[..|rs| - 1]) + (if r.start <= r.end then r.end - r.start + 1 else 0)
  }

  /** Every row of a group is either merged into its predecessor or starts
      an output row. */
  lemma {:induction false} OutPlusSame(days: seq<DateKey>, rs: seq<Range>)
    requires Within(rs, |days|)
    ensures OutTotal(days, rs) + SameTotal(days, rs) == Span(rs)
  {
    if rs != [] {
      var r := rs[|rs| - 1];
      OutPlusSame(days, rs[..|rs| - 1]);
      ChangesPlusSame(days, r.start, r.end);
    }
  }

  /** Adjacent ranges starting at `lo`: the first `k` hold the rows up to the
      end of the `k`-th. */
  lemma {:induction false} SpanPrefix(rs: seq<Range>, lo: nat, k: nat)
    requires forall j :: 0 <= j < |rs| ==> rs[j].start <= rs[j].end
    requires rs != [] ==> rs[0].start == lo
    requires forall j :: 0 <= j < |rs| - 1 ==> rs[j + 1].start == rs[j].end + 1
    requires 0 < k <= |rs|
    ensures Span(rs[..k]) == rs[k - 1].end + 1 - lo
  {
    var pre := rs[..k];
    assert pre[..k - 1] == rs[..k - 1];
    if k > 1 {
      SpanPrefix(rs, lo, k - 1);
    }
  }

  /** A partition of `[0, n)` holds `n` rows. */
  lemma TilesSpan(rs: seq<Range>, n: nat)
    requires Tiles(rs, n)
    ensures Span(rs) == n
  {
    TilesFromOrdered(rs, 0, n);
    if rs != [] {
      SpanPrefix(rs, 0, |rs|);
      assert rs[..|rs|] == rs;
    }
  }

  /** Over a partition of the rows, the output rows are the input rows less
      the same-day pairs. */
  lemma OutTotalIsRemaining(days: seq<DateKey>, rs: seq<Range>)
    requires Tiles(rs, |days|)
    ensures Within(rs, |days|)
    ensures OutTotal(days, rs) == |days| - SameTotal(days, rs)
  {
    TilesFromOrdered(rs, 0, |days|);
    TilesSpan(rs, |days|);
    OutPlusSame(days, rs);
  }

  /** The output rows of the first groups never exceed those of all. */
  lemma {:induction false} OutTotalPrefix(days: seq<DateKey>, rs: seq<Range>, k: nat)
    requires Within(rs, |days|) && k <= |rs|
    ensures OutTotal(days, rs[..k]) <= OutTotal(days, rs)
    decreases |rs| - k
  {
    if k < |rs| {
      var pre := rs[..k + 1];
      assert pre[..k] == rs[..k];
      OutTotalPrefix(days, rs, k + 1);
    } else {
      assert rs[..k] == rs;
    }
  }

  /** The counting visitor run over the groups `rs` in turn. */
  method CountGroups(rows: seq<Row>, rs: seq<Range>) returns (mergedRowCount: nat)
    requires Stamped(rows) && Within(rs, |rows|)
    ensures mergedRowCount == SameTotal(Days(rows), rs)
  {
    mergedRowCount := 0;
    for k := 0 to |rs|
      invariant mergedRowCount == SameTotal(Days(rows), rs[..k])
    {
      assert rs[..k + 1][..k] == rs[..k];
      mergedRowCount := CountSameDay(rows, rs[k].start, rs[k].end, mergedRowCount);
    }
    assert rs[..|rs|] == rs;
  }

  /** The first pass of the day merge: the counting visitor run by the
      grouping pass. The result is `merged_row_count`, and the rows the
      merge will produce are the input rows less it. When every assessment
      was discarded the grouping pass raises, modelled as `None`. */
  method MergedFieldCount(rows: seq<Row>) returns (r: Option<nat>)
    requires Stamped(rows)
    ensures r.None? <==> |rows| == 0
    ensures |rows| == 1 ==> r == Some(0)
    ensures 2 <= |rows| ==> Within(Runs(Column(rows, 1)), |rows|)
    ensures 2 <= |rows| ==> r == Some(SameTotal(Days(rows), Runs(Column(rows, 1))))
    ensures 2 <= |rows| ==> OutTotal(Days(rows), Runs(Column(rows, 1))) == |rows| - r.value
  {
    var ids := Column(rows, 1);
    var visits := IterateOverPatientAssessments(ids, |rows|);
    if visits.None? {
      return None;
    }
    if |rows| < 2 {
      return Some(0);
    }
    assert ids[..|rows|] == ids;
    RunsPartition(ids);
    OutTotalIsRemaining(Days(rows), visits.value);
    var mergedRowCount := CountGroups(rows, visits.value);
    return Some(mergedRowCount);
  }

  // ------------------------------------------------------------ merged rows

  /** One output row: the identity fields `id`, `patient_id`, `created_at`,
      `updated_at` (`None` until the row is populated) and the boolean
      created fields, one per column. */
  datatype MergedRow = MergedRow(ident: Option<seq<string>>, flags: seq<bool>)

  /** Every output row has `width` boolean columns. */
  predicate Widths(res: seq<MergedRow>, width: nat)
  {
    forall s :: 0 <= s < |res| ==> |res[s].flags| == width
  }

  /** Every source row has `width` created fields. */
  predicate CreatedWidths(created: seq<seq<bool>>, width: nat)
  {
    forall j :: 0 <= j < |created| ==> |created[j]| == width
  }

  /** `populate_row` on values: the output row `slot` takes the source row's
      identity fields and ORs in its created fields. The methods below never
      write past the output rows or mix widths; the guard keeps this
      function total. */
  function Put(res: seq<MergedRow>, slot: nat, row: Row, flags: seq<bool>): (r: seq<MergedRow>)
    requires 3 < |row|
    ensures |r| == |res|
  {
    if slot < |res| && |res[slot].flags| == |flags| then
      res[slot := MergedRow(Some(row[..4]), OrSeq(res[slot].flags, flags))]
    else res
  }

  /** The arguments of one group's merge: `days == Days(rows)`, and one
      created-field vector per source row. */
  predicate Source(rows: seq<Row>, days: seq<DateKey>, created: seq<seq<bool>>)
  {
    Stamped(rows) && |days| == |rows| == |created|
  }

  /** The output rows after the rows `[start, i)` of one group have been
      populated, row `j` into slot `base + DayChanges(days, start, j)`. */
  function Merged(res: seq<MergedRow>, rows: seq<Row>, days: seq<DateKey>, created: seq<seq<bool>>,
                  start: nat, i: nat, base: nat): (r: seq<MergedRow>)
    requires Source(rows, days, created) && start <= i <= |rows|
    ensures |r| == |res|
    decreases i - start
  {
    if i == start then res
    else
      var prev := Merged(res, rows, days, created, start, i - 1, base);
      Put(prev, base + DayChanges(days, start, i - 1), rows[i - 1], created[i - 1])
  }

  /** Merging keeps the number of boolean columns of every slot. */
  lemma {:induction false} MergedWidth(res: seq<MergedRow>, rows: seq<Row>, days: seq<DateKey>, created: seq<seq<bool>>,
                                       start: nat, i: nat, base: nat, s: nat)
    requires Source(rows, days, created) && start <= i <= |rows|
    requires s < |res|
    ensures |Merged(res, rows, days, created, start, i, base)[s].flags| == |res[s].flags|
    decreases i - start
  {
    if start < i {
      MergedWidth(res, rows, days, created, start, i - 1, base, s);
    }
  }

  /** Slots outside those the group writes keep their rows. */
  lemma {:induction false} MergedFrame(res: seq<MergedRow>, rows: seq<Row>, days: seq<DateKey>, created: seq<seq<bool>>,
                                       start: nat, i: nat, base: nat, s: nat)
    requires Source(rows, days, created) && start <= i <= |rows|
    requires s < |res|
    requires s < base || i == start || base + DayChanges(days, start, i - 1) < s
    ensures Merged(res, rows, days, created, start, i, base)[s] == res[s]
    decreases i - start
  {
    if start < i {
      if start < i - 1 {
        DayChangesMonotone(days, start, i - 2, i - 1);
      }
      MergedFrame(res, rows, days, created, start, i - 1, base, s);
    }
  }

  /** Last wins: the identity fields of a slot are those of the last row of
      its day. */
  lemma {:induction false} MergedIdent(res: seq<MergedRow>, rows: seq<Row>, days: seq<DateKey>, created: seq<seq<bool>>,
                                       width: nat, start: nat, i: nat, base: nat, j: nat)
    requires Source(rows, days, created) && start <= i <= |rows|
    requires Widths(res, width) && CreatedWidths(created, width)
    requires start <= j < i && base + DayChanges(days, start, i - 1) < |res|
    requires j == i - 1 || days[j] != days[j + 1]
    ensures base + DayChanges(days, start, j) < |res|
    ensures Merged(res, rows, days, created, start, i, base)[base + DayChanges(days, start, j)].ident
            == Some(rows[j][..4])
    decreases i - start
  {
    DayChangesMonotone(days, start, j, i - 1);
    var slot := base + DayChanges(days, start, i - 1);
    MergedWidth(res, rows, days, created, start, i - 1, base, slot);
    if j < i - 1 {
      DayChangesMonotone(days, start, j + 1, i - 1);
      DayChangesMonotone(days, start, i - 2, i - 1);
      MergedIdent(res, rows, days, created, width, start, i - 1, base, j);
    }
  }

  /** Some row of `[start, i)` that goes to `slot` has column `c` set. */
  ghost predicate Contributes(days: seq<DateKey>, created: seq<seq<bool>>, start: nat, i: nat, base: nat,
                              slot: nat, c: nat)
    requires start <= i <= |days| == |created|
  {
    exists j :: start <= j < i && base + DayChanges(days, start, j) == slot && c < |created[j]| && created[j][c]
  }

  /** One column of a slot after one `Put`: set iff it was set or the put
      row targets the slot and has the column set. */
  lemma PutFlag(res: seq<MergedRow>, slot: nat, row: Row, flags: seq<bool>, s: nat, c: nat)
    requires 3 < |row| && s < |res| && c < |res[s].flags| == |flags|
    ensures |Put(res, slot, row, flags)[s].flags| == |res[s].flags|
    ensures Put(res, slot, row, flags)[s].flags[c] == (res[s].flags[c] || (s == slot && flags[c]))
  {
  }

  /** Extending the rows by row `i - 1` adds it as a possible contributor. */
  lemma ContributesStep(days: seq<DateKey>, created: seq<seq<bool>>, start: nat, i: nat, base: nat, s: nat, c: nat)
    requires start < i <= |days| == |created| && c < |created[i - 1]|
    ensures Contributes(days, created, start, i, base, s, c)
            == (Contributes(days, created, start, i - 1, base, s, c)
                || (base + DayChanges(days, start, i - 1) == s && created[i - 1][c]))
  {
    if Contributes(days, created, start, i, base, s, c) {
      var j :| start <= j < i && base + DayChanges(days, start, j) == s && c < |created[j]| && created[j][c];
      if j < i - 1 {
        assert Contributes(days, created, start, i - 1, base, s, c);
      }
    }
    if Contributes(days, created, start, i - 1, base, s, c) {
      var j :| start <= j < i - 1 && base + DayChanges(days, start, j) == s && c < |created[j]| && created[j][c];
      assert Contributes(days, created, start, i, base, s, c);
    }
    if base + DayChanges(days, start, i - 1) == s && created[i - 1][c] {
      assert Contributes(days, created, start, i, base, s, c);
    }
  }

  /** Each boolean column of a slot is the OR of its previous value and the
      column of every row merged into it. */
  lemma {:induction false} MergedFlags(res: seq<MergedRow>, rows: seq<Row>, days: seq<DateKey>, created: seq<seq<bool>>,
                                       width: nat, start: nat, i: nat, base: nat, s: nat, c: nat)
    requires Source(rows, days, created) && start <= i <= |rows|
    requires Widths(res, width) && CreatedWidths(created, width)
    requires s < |res| && c < width
    ensures |Merged(res, rows, days, created, start, i, base)[s].flags| == width
    ensures Merged(res, rows, days, created, start, i, base)[s].flags[c]
            == (res[s].flags[c] || Contributes(days, created, start, i, base, s, c))
    decreases i - start
  {
    if start < i {
      var prev := Merged(res, rows, days, created, start, i - 1, base);
      MergedFlags(res, rows, days, created, width, start, i - 1, base, s, c);
      PutFlag(prev, base + DayChanges(days, start, i - 1), rows[i - 1], created[i - 1], s, c);
      ContributesStep(days, created, start, i, base, s, c);
    }
  }

  /** The merge visitor. It keeps the index of the output row being filled
      and writes into the output columns in place. */
  class MergeAssessmentRows {
    var rfindex: nat
    const resultingFields: array<MergedRow>
    /** `createdFields[i]`: the boolean created fields of source row `i`. */
    const createdFields: seq<seq<bool>>
    /** The number of boolean columns. */
    const width: nat

    constructor (resultingFields: array<MergedRow>, createdFields: seq<seq<bool>>, width: nat)
      requires Widths(resultingFields[..], width) && CreatedWidths(createdFields, width)
      ensures this.resultingFields == resultingFields && this.createdFields == createdFields
      ensures this.width == width && rfindex == 0
      ensures Valid()
    {
      this.resultingFields := resultingFields;
      this.createdFields := createdFields;
      this.width := width;
      rfindex := 0;
    }

    /** The output rows and the created fields agree on the columns. */
    predicate Valid()
      reads this, resultingFields
    {
      Widths(resultingFields[..], width) && CreatedWidths(createdFields, width)
    }

    /** `populate_row`: copies the identity fields of `sourceFields[sourceIndex]`
        into the current output row and ORs its created fields in, column by
        column. */
    method PopulateRow(sourceFields: seq<Row>, sourceIndex: nat)
      requires Valid()
      requires sourceIndex < |sourceFields| == |createdFields| && 3 < |sourceFields[sourceIndex]|
      requires rfindex < resultingFields.Length
      modifies resultingFields
      ensures Valid()
      ensures resultingFields[..] == Put(old(resultingFields[..]), rfindex, sourceFields[sourceIndex], createdFields[sourceIndex])
    {
      var sourceRow := sourceFields[sourceIndex];
      var cur := resultingFields[rfindex];
      var cv := createdFields[sourceIndex];
      var flags := cur.flags;
      for ck := 0 to |flags|
        invariant |flags| == |cur.flags|
        invariant forall k :: 0 <= k < ck ==> flags[k] == (cur.flags[k] || cv[k])
        invariant forall k :: ck <= k < |flags| ==> flags[k] == cur.flags[k]
      {
        flags := flags[ck := flags[ck] || cv[ck]];
      }
      assert flags == OrSeq(cur.flags, cv);
      resultingFields[rfindex] := MergedRow(Some(sourceRow[..4]), flags);
    }

    /** The `(year, month, day)` slice triple of row `i`'s `updated_at`. */
    static method RowDate(fields: seq<Row>, i: nat) returns (date: DateKey)
      requires Stamped(fields) && i < |fields|
      ensures date == Days(fields)[i]
    {
      var dateStr := fields[i][3];
      date := DateKey(Slice(dateStr, 0, 4), Slice(dateStr, 5, 7), Slice(dateStr, 8, 10));
      DaysAt(fields, i);
    }

    /** One step of `__call__`'s loop: row `i` moves to the next output row
        when its day differs from `prevDate`, and is populated there. */
    method Advance(fields: seq<Row>, i: nat, prevDate: DateKey) returns (curDate: DateKey)
      requires Valid()
      requires Stamped(fields) && i < |fields| == |createdFields|
      requires rfindex + (if Days(fields)[i] == prevDate then 0 else 1) < resultingFields.Length
      modifies this, resultingFields
      ensures Valid()
      ensures curDate == Days(fields)[i]
      ensures rfindex == old(rfindex) + (if curDate == prevDate then 0 else 1)
      ensures resultingFields[..] == Put(old(resultingFields[..]), rfindex, fields[i], createdFields[i])
    {
      curDate := RowDate(fields, i);
      if curDate != prevDate {
        rfindex := rfindex + 1;
      }
      PopulateRow(fields, i);
    }

    /** `__call__` for the group `[start, end]`: the first row goes to the
        current output row, each day change moves to the next output row,
        and the index moves past the group's last output row at the end. */
    method Call(fields: seq<Row>, start: nat, end: nat)
      requires Valid()
      requires Stamped(fields) && start <= end < |fields| == |createdFields|
      requires rfindex + DayChanges(Days(fields), start, end) < resultingFields.Length
      modifies this, resultingFields
      ensures Valid()
      ensures rfindex == old(rfindex) + 1 + DayChanges(Days(fields), start, end)
      ensures resultingFields[..]
              == Merged(old(resultingFields[..]), fields, Days(fields), createdFields, start, end + 1, old(rfindex))
    {
      ghost var days := Days(fields);
      ghost var res := resultingFields[..];
      ghost var base := rfindex;
      var prevDate := RowDate(fields, start);
      PopulateRow(fields, start);
      for i := start + 1 to end + 1
        invariant Valid()
        invariant rfindex == base + DayChanges(days, start, i - 1)
        invariant DayChanges(days, start, i - 1) <= DayChanges(days, start, end)
        invariant prevDate == days[i - 1]
        invariant resultingFields[..] == Merged(res, fields, days, createdFields, start, i, base)
      {
        DayChangesMonotone(days, start, i, end);
        prevDate := Advance(fields, i, prevDate);
      }
      rfindex := rfindex + 1;
    }
  }

  /** The output rows after the merge visitor has run over the groups `rs`. */
  function MergeAll(res: seq<MergedRow>, rows: seq<Row>, days: seq<DateKey>, created: seq<seq<bool>>,
                    rs: seq<Range>): (r: seq<MergedRow>)
    requires Source(rows, days, created) && Within(rs, |rows|)
    ensures |r| == |res|
  {
    if rs == [] then res
    else
      var g := rs[|rs| - 1];
      var init := rs[..|rs| - 1];
      Merged(MergeAll(res, rows, days, created, init), rows, days, created, g.start, g.end + 1, OutTotal(days, init))
  }

  /** The merge visitor run over the groups `rs` in turn, from the first
      output row. */
  method MergeGroups(merge: MergeAssessmentRows, rows: seq<Row>, rs: seq<Range>)
    requires merge.Valid()
    requires Stamped(rows) && |rows| == |merge.createdFields| && Within(rs, |rows|)
    requires merge.rfindex == 0 && OutTotal(Days(rows), rs) <= merge.resultingFields.Length
    modifies merge, merge.resultingFields
    ensures merge.Valid()
    ensures merge.rfindex == OutTotal(Days(rows), rs)
    ensures merge.resultingFields[..]
            == MergeAll(old(merge.resultingFields[..]), rows, Days(rows), merge.createdFields, rs)
  {
    ghost var days := Days(rows);
    ghost var res := merge.resultingFields[..];
    for k := 0 to |rs|
      invariant merge.Valid()
      invariant merge.rfindex == OutTotal(days, rs[..k])
      invariant merge.resultingFields[..] == MergeAll(res, rows, days, merge.createdFields, rs[..k])
    {
      var pre := rs[..k + 1];
      assert pre[..k] == rs[..k];
      OutTotalPrefix(days, rs, k + 1);
      merge.Call(rows, rs[k].start, rs[k].end);
    }
    assert rs[..|rs|] == rs;
  }

  /** Merging every group keeps the number of boolean columns of every slot. */
  lemma {:induction false} MergeAllWidths(res: seq<MergedRow>, rows: seq<Row>, days: seq<DateKey>,
                                          created: seq<seq<bool>>, width: nat, rs: seq<Range>)
    requires Source(rows, days, created) && Within(rs, |rows|)
    requires Widths(res, width)
    ensures Widths(MergeAll(res, rows, days, created, rs), width)
    decreases |rs|
  {
    if rs != [] {
      var g := rs[|rs| - 1];
      var init := rs[..|rs| - 1];
      var prev := MergeAll(res, rows, days, created, init);
      var cur := Merged(prev, rows, days, created, g.start, g.end + 1, OutTotal(days, init));
      MergeAllWidths(res, rows, days, created, width, init);
      forall s | 0 <= s < |prev|
        ensures |cur[s].flags| == width
      {
        MergedWidth(prev, rows, days, created, g.start, g.end + 1, OutTotal(days, init), s);
      }
    }
  }

  /** Peeling the last group off the merge of the groups `rs`. */
  lemma {:induction false} MergeAllLast(res: seq<MergedRow>, rows: seq<Row>, days: seq<DateKey>, created: seq<seq<bool>>,
                     rs: seq<Range>)
    requires Source(rows, days, created) && Within(rs, |rows|) && rs != []
    ensures Within(rs[..|rs| - 1], |rows|)
    ensures OutTotal(days, rs) == OutTotal(days, rs[..|rs| - 1]) + 1 + DayChanges(days, rs[|rs| - 1].start, rs[|rs| - 1].end)
    ensures MergeAll(res, rows, days, created, rs)
            == Merged(MergeAll(res, rows, days, created, rs[..|rs| - 1]), rows, days, created,
                      rs[|rs| - 1].start, rs[|rs| - 1].end + 1, OutTotal(days, rs[..|rs| - 1]))
  {
  }

  /** The groups before `k` are the same in `rs` and in any longer prefix of it. */
  lemma {:induction false} PrefixGroups(rs: seq<Range>, n: nat, k: nat, m: nat)
    requires Within(rs, n) && k < m <= |rs|
    ensures Within(rs[..k], n) && rs[..m][..k] == rs[..k] && rs[..m][k] == rs[k]
  {
  }

  /** The last group writes only the slots from `OutTotal` of the groups
      before it on; the slots below keep their rows. */
  lemma {:induction false} MergeAllFrame(res: seq<MergedRow>, rows: seq<Row>, days: seq<DateKey>, created: seq<seq<bool>>,
                      rs: seq<Range>, slot: nat)
    requires Source(rows, days, created) && Within(rs, |rows|) && rs != []
    requires slot < |res| && slot < OutTotal(days, rs[..|rs| - 1])
    ensures MergeAll(res, rows, days, created, rs)[slot] == MergeAll(res, rows, days, created, rs[..|rs| - 1])[slot]
  {
    var n := |rs| - 1;
    MergeAllLast(res, rows, days, created, rs);
    var prev := MergeAll(res, rows, days, created, rs[..n]);
    MergedFrame(prev, rows, days, created, rs[n].start, rs[n].end + 1, OutTotal(days, rs[..n]), slot);
  }

  /** Row `j` of group `k` goes to a slot below the first output row of any
      later group `m`. */
  lemma {:induction false} GroupSlotBelow(days: seq<DateKey>, rs: seq<Range>, k: nat, j: nat, m: nat)
    requires Within(rs, |days|) && k < m <= |rs| && rs[k].start <= j <= rs[k].end
    ensures Within(rs[..k], |days|) && Within(rs[..m], |days|)
    ensures OutTotal(days, rs[..k]) + DayChanges(days, rs[k].start, j) < OutTotal(days, rs[..m])
  {
    PrefixGroups(rs, |days|, k, m);
    PrefixGroups(rs[..m], |days|, k, k + 1);
    assert rs[..m][..k + 1] == rs[..k + 1];
    MergeAllLastTotal(days, rs[..k + 1]);
    OutTotalPrefix(days, rs[..m], k + 1);
    DayChangesMonotone(days, rs[k].start, j, rs[k].end);
  }

  /** `OutTotal` of the groups `rs`: that of all but the last, plus the last
      group's output rows. */
  lemma {:induction false} MergeAllLastTotal(days: seq<DateKey>, rs: seq<Range>)
    requires Within(rs, |days|) && rs != []
    ensures Within(rs[..|rs| - 1], |days|)
    ensures OutTotal(days, rs) == OutTotal(days, rs[..|rs| - 1]) + 1 + DayChanges(days, rs[|rs| - 1].start, rs[|rs| - 1].end)
  {
  }

  /** Last wins within the last group of the whole table. */
  lemma {:induction false} MergeAllIdentLast(res: seq<MergedRow>, rows: seq<Row>, days: seq<DateKey>,
                          created: seq<seq<bool>>, width: nat, rs: seq<Range>, j: nat)
    requires Source(rows, days, created) && Within(rs, |rows|) && rs != []
    requires Widths(res, width) && CreatedWidths(created, width)
    requires OutTotal(days, rs) <= |res|
    requires rs[|rs| - 1].start <= j <= rs[|rs| - 1].end
    requires j == rs[|rs| - 1].end || days[j] != days[j + 1]
    ensures Within(rs[..|rs| - 1], |rows|)
    ensures OutTotal(days, rs[..|rs| - 1]) + DayChanges(days, rs[|rs| - 1].start, j) < |res|
    ensures MergeAll(res, rows, days, created, rs)[OutTotal(days, rs[..|rs| - 1]) + DayChanges(days, rs[|rs| - 1].start, j)].ident
            == Some(rows[j][..4])
  {
    var n := |rs| - 1;
    var g := rs[n];
    MergeAllLast(res, rows, days, created, rs);
    MergeAllWidths(res, rows, days, created, width, rs[..n]);
    MergedIdent(MergeAll(res, rows, days, created, rs[..n]), rows, days, created, width,
                g.start, g.end + 1, OutTotal(days, rs[..n]), j);
  }

  /** Last wins, over the whole table: row `j` of group `k` goes to the
      group's first output row `OutTotal(days, rs[..k])` plus the day
      changes before it, and when `j` is the last row of its day that slot
      ends up with `j`'s identity fields. */
  lemma {:induction false} MergeAllIdent(res: seq<MergedRow>, rows: seq<Row>, days: seq<DateKey>,
                                         created: seq<seq<bool>>, width: nat, rs: seq<Range>, k: nat, j: nat)
    requires Source(rows, days, created) && Within(rs, |rows|)
    requires Widths(res, width) && CreatedWidths(created, width)
    requires OutTotal(days, rs) <= |res|
    requires k < |rs| && rs[k].start <= j <= rs[k].end
    requires j == rs[k].end || days[j] != days[j + 1]
    ensures OutTotal(days, rs[..k]) + DayChanges(days, rs[k].start, j) < |res|
    ensures MergeAll(res, rows, days, created, rs)[OutTotal(days, rs[..k]) + DayChanges(days, rs[k].start, j)].ident
            == Some(rows[j][..4])
    decreases |rs|
  {
    var n := |rs| - 1;
    if k == n {
      MergeAllIdentLast(res, rows, days, created, width, rs, j);
    } else {
      var init := rs[..n];
      PrefixGroups(rs, |rows|, k, n);
      OutTotalPrefix(days, rs, n);
      MergeAllIdent(res, rows, days, created, width, init, k, j);
      GroupSlotBelow(days, rs, k, j, n);
      MergeAllFrame(res, rows, days, created, rs, OutTotal(days, rs[..k]) + DayChanges(days, rs[k].start, j));
    }
  }

  /** Group `k` of `rs` merges some row with column `c` set into slot `s`. */
  ghost predicate GroupContributes(days: seq<DateKey>, created: seq<seq<bool>>, rs: seq<Range>, k: nat, s: nat, c: nat)
    requires |days| == |created| && Within(rs, |days|) && k < |rs|
  {
    Contributes(days, created, rs[k].start, rs[k].end + 1, OutTotal(days, rs[..k]), s, c)
  }

  /** One column of a slot after the last group: set iff it was set before
      the group or the group merges a row with the column set into it. */
  lemma {:induction false} MergeAllFlagsLast(res: seq<MergedRow>, rows: seq<Row>, days: seq<DateKey>,
                          created: seq<seq<bool>>, width: nat, rs: seq<Range>, s: nat, c: nat)
    requires Source(rows, days, created) && Within(rs, |rows|) && rs != []
    requires Widths(res, width) && CreatedWidths(created, width)
    requires s < |res| && c < width
    ensures Within(rs[..|rs| - 1], |rows|)
    ensures |MergeAll(res, rows, days, created, rs[..|rs| - 1])[s].flags| == width
    ensures |MergeAll(res, rows, days, created, rs)[s].flags| == width
    ensures MergeAll(res, rows, days, created, rs)[s].flags[c]
            == (MergeAll(res, rows, days, created, rs[..|rs| - 1])[s].flags[c]
                || GroupContributes(days, created, rs, |rs| - 1, s, c))
  {
    var n := |rs| - 1;
    var g := rs[n];
    MergeAllLast(res, rows, days, created, rs);
    MergeAllWidths(res, rows, days, created, width, rs[..n]);
    MergedFlags(MergeAll(res, rows, days, created, rs[..n]), rows, days, created, width,
                g.start, g.end + 1, OutTotal(days, rs[..n]), s, c);
  }

  /** Each boolean column of every slot of the whole table is the OR of its
      previous value and the column of every row, of any group, merged into
      that slot. */
  lemma {:induction false} MergeAllFlags(res: seq<MergedRow>, rows: seq<Row>, days: seq<DateKey>,
                                         created: seq<seq<bool>>, width: nat, rs: seq<Range>, s: nat, c: nat)
    requires Source(rows, days, created) && Within(rs, |rows|)
    requires Widths(res, width) && CreatedWidths(created, width)
    requires s < |res| && c < width
    ensures |MergeAll(res, rows, days, created, rs)[s].flags| == width
    ensures MergeAll(res, rows, days, created, rs)[s].flags[c]
            == (res[s].flags[c] || exists k :: 0 <= k < |rs| && GroupContributes(days, created, rs, k, s, c))
    decreases |rs|
  {
    if rs != [] {
      var n := |rs| - 1;
      var init := rs[..n];
      MergeAllFlags(res, rows, days, created, width, init, s, c);
      MergeAllFlagsLast(res, rows, days, created, width, rs, s, c);
      forall k | 0 <= k < n
        ensures GroupContributes(days, created, init, k, s, c) == GroupContributes(days, created, rs, k, s, c)
      {
        PrefixGroups(rs, |rows|, k, n);
      }
      if exists k :: 0 <= k < |rs| && GroupContributes(days, created, rs, k, s, c) {
        var k :| 0 <= k < |rs| && GroupContributes(days, created, rs, k, s, c);
        if k < n {
          assert GroupContributes(days, created, init, k, s, c);
        }
      }
    }
  }

  /** The second pass of the day merge: the merge visitor run by the
      grouping pass into output columns of `|rows| - mergedRowCount` rows,
      `mergedRowCount` being the result of the first pass. The visitor
      fills exactly those rows, so no write falls outside them. With no
      rows left the grouping pass raises (`raised`) after the visitor has
      been built. */
  method MergeDays(rows: seq<Row>, createdFields: seq<seq<bool>>, width: nat, resultingFields: array<MergedRow>,
                   mergedRowCount: nat) returns (merge: MergeAssessmentRows, raised: bool)
    requires |rows| == |createdFields| && Stamped(rows)
    requires Widths(resultingFields[..], width) && CreatedWidths(createdFields, width)
    requires |rows| < 2 ==> mergedRowCount == 0
    requires 2 <= |rows| ==> mergedRowCount == SameTotal(Days(rows), Runs(Column(rows, 1)))
    requires resultingFields.Length == |rows| - mergedRowCount
    modifies resultingFields
    ensures raised <==> |rows| == 0
    ensures merge.resultingFields == resultingFields && merge.Valid()
    ensures |rows| < 2 ==> merge.rfindex == 0 && resultingFields[..] == old(resultingFields[..])
    ensures 2 <= |rows| ==> merge.rfindex == resultingFields.Length
    ensures 2 <= |rows| ==>
              resultingFields[..]
              == MergeAll(old(resultingFields[..]), rows, Days(rows), createdFields, Runs(Column(rows, 1)))
  {
    merge := new MergeAssessmentRows(resultingFields, createdFields, width);
    var ids := Column(rows, 1);
    var visits := IterateOverPatientAssessments(ids, |rows|);
    if visits.None? {
      return merge, true;
    }
    if |rows| < 2 {
      return merge, false;
    }
    assert ids[..|rows|] == ids;
    RunsPartition(ids);
    OutTotalIsRemaining(Days(rows), visits.value);
    MergeGroups(merge, rows, visits.value);
    return merge, false;
  }
}
