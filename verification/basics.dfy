/** Shared value types of the data-prep pipeline: optional values, results
    that carry a Python exception, loader rows, Python string slicing and
    Python's ordering of strings. */
module Basics {

  datatype Option<T> = None | Some(value: T)

  /** `Err` stands for the Python exception the operation raises. */
  datatype Result<T, E> = Ok(value: T) | Err(error: E)

  /** One delimited-file row as the loader yields it: the field tuple
      (the loader's line index that travels with it is not needed here). */
  type Row = seq<string>

  /** Python's `s[lo:hi]` for `0 <= lo <= hi`: bounds past the end clamp. */
  function Slice<T>(s: seq<T>, lo: nat, hi: nat): (r: seq<T>)
    requires lo <= hi
    ensures hi <= |s| ==> r == s[lo..hi]
    ensures |s| <= lo ==> r == []
    ensures |r| <= hi - lo
  {
    var l := if lo <= |s| then lo else |s|;
    var h := if hi <= |s| then hi else |s|;
    s[l..h]
  }

  /** The values of field `index` of every row, in row order. */
  function Column(rows: seq<Row>, index: nat): (c: seq<string>)
    requires forall i :: 0 <= i < |rows| ==> index < |rows[i]|
    ensures |c| == |rows|
    ensures forall i :: 0 <= i < |rows| ==> c[i] == rows[i][index]
  {
    seq(|rows|, i requires 0 <= i < |rows| => rows[i][index])
  }

  /** Element-wise `or` of two boolean vectors of one length (numpy's `|`). */
  function OrSeq(a: seq<bool>, b: seq<bool>): (r: seq<bool>)
    requires |a| == |b|
    ensures |r| == |a|
  {
    seq(|a|, i requires 0 <= i < |a| => a[i] || b[i])
  }

  /** Python's `a < b` on strings: lexicographic by code point. Dafny's own
      `<` on sequences means "proper prefix", so it is spelled out here. */
  predicate Below(a: string, b: string): (r: bool)
    ensures r ==> a != b
    ensures a < b ==> r
  {
    if |a| == 0 then |b| > 0
    else if |b| == 0 then false
    else if a[0] == b[0] then Below(a[1..], b[1..])
    else a[0] < b[0]
  }

  lemma {:induction false} BelowIrreflexive(a: string)
    ensures !Below(a, a)
  {
    if |a| > 0 {
      BelowIrreflexive(a[1..]);
    }
  }

  lemma {:induction false} BelowTransitive(a: string, b: string, c: string)
    requires Below(a, b) && Below(b, c)
    ensures Below(a, c)
  {
    if |a| > 0 && |b| > 0 && |c| > 0 && a[0] == b[0] && b[0] == c[0] {
      BelowTransitive(a[1..], b[1..], c[1..]);
    }
  }

  lemma {:induction false} BelowTotal(a: string, b: string)
    ensures a == b || Below(a, b) || Below(b, a)
  {
    if |a| > 0 && |b| > 0 && a[0] == b[0] {
      BelowTotal(a[1..], b[1..]);
      if a[1..] == b[1..] {
        assert a == [a[0]] + a[1..] && b == [b[0]] + b[1..];
      }
    }
  }

  /** Whatever lies below `y` lies below every `z` that is not below `y`. */
  lemma BelowMonotone(x: string, y: string, z: string)
    requires Below(x, y) && !Below(z, y)
    ensures Below(x, z)
  {
    BelowTotal(y, z);
    if Below(y, z) {
      BelowTransitive(x, y, z);
    }
  }

  /** `s` is in the order Python's `sorted` leaves strings in. */
  predicate SortedIds(s: seq<string>)
  {
    forall i, j :: 0 <= i < j < |s| ==> !Below(s[j], s[i])
  }
}
