/** `build_histogram`: counts the (optionally transformed) values of the
    records that are not marked as filtered, in a dictionary keyed by value,
    and returns its `(value, count)` items in insertion order. */
module Histogram {
  import opened Basics

  /** Python's `not filtered_records or not filtered_records[ir]`: record `i`
      is counted when there is no filter list (`None` or empty) or its entry
      is falsy. A non-empty filter list shorter than the dataset makes the
      source raise, so the callers keep it at least as long. */
  predicate Counted(filtered: Option<seq<bool>>, i: nat)
  {
    filtered.None? || filtered.value == [] || (i < |filtered.value| && !filtered.value[i])
  }

  /** The filter list, if given and non-empty, covers the first `n` records. */
  predicate Covers(filtered: Option<seq<bool>>, n: nat)
  {
    filtered.None? || filtered.value == [] || n <= |filtered.value|
  }

  /** The values the histogram counts among the first `n` records, in order. */
  function Values<T, K>(dataset: seq<T>, filtered: Option<seq<bool>>, tx: T -> K, n: nat): seq<K>
    requires n <= |dataset|
  {
    if n == 0 then []
    else Values(dataset, filtered, tx, n - 1) + (if Counted(filtered, n - 1) then [tx(dataset[n - 1])] else [])
  }

  /** Number of occurrences of `x` in `xs`. */
  function Occ<K(==)>(xs: seq<K>, x: K): nat
  {
    if xs == [] then 0
    else Occ(xs[..|xs| - 1], x) + (if xs[|xs| - 1] == x then 1 else 0)
  }

  lemma OccAppend<K>(xs: seq<K>, v: K, x: K)
    ensures Occ(xs + [v], x) == Occ(xs, x) + (if v == x then 1 else 0)
  {
    assert (xs + [v])[..|xs|] == xs;
  }

  /** A value occurs iff it is an element. */
  lemma {:induction false} OccPositive<K>(xs: seq<K>, x: K)
    ensures Occ(xs, x) > 0 <==> x in xs
  {
    if xs != [] {
      var init := xs[..|xs| - 1];
      OccPositive(init, x);
      assert xs == init + [xs[|xs| - 1]];
    }
  }

  /** The items hold pairwise distinct keys. */
  predicate DistinctKeys<K(==)>(h: seq<(K, nat)>)
  {
    forall i, j :: 0 <= i < j < |h| ==> h[i].0 != h[j].0
  }

  /** `h` is a histogram of `vals`: distinct keys, each paired with its
      positive number of occurrences, and every value present as a key. */
  predicate IsHistogramOf<K(==)>(h: seq<(K, nat)>, vals: seq<K>)
  {
    && DistinctKeys(h)
    && (forall i :: 0 <= i < |h| ==> 0 < h[i].1 == Occ(vals, h[i].0))
    && (forall v :: v in vals ==> exists i :: 0 <= i < |h| && h[i].0 == v)
  }

  /** The loop state of `build_histogram` after counting `vals`: the
      dictionary `histogram` and its keys in insertion order. */
  ghost predicate Tally<K>(histogram: map<K, nat>, keys: seq<K>, vals: seq<K>)
  {
    && (forall i, j :: 0 <= i < j < |keys| ==> keys[i] != keys[j])
    && (forall k :: k in histogram ==> k in keys)
    && (forall i :: 0 <= i < |keys| ==> keys[i] in histogram)
    && (forall k :: k in histogram ==> 0 < histogram[k] == Occ(vals, k))
    && (forall v :: v in vals ==> v in histogram)
  }

  /** Counting a value that is already a key increments its count. */
  lemma TallyHit<K>(histogram: map<K, nat>, keys: seq<K>, vals: seq<K>, v: K)
    requires Tally(histogram, keys, vals) && v in histogram
    ensures Tally(histogram[v := histogram[v] + 1], keys, vals + [v])
  {
    forall k | k in histogram
      ensures Occ(vals + [v], k) == Occ(vals, k) + (if v == k then 1 else 0)
    {
      OccAppend(vals, v, k);
    }
  }

  /** Counting a new value inserts it with count one, after the older keys. */
  lemma TallyNew<K>(histogram: map<K, nat>, keys: seq<K>, vals: seq<K>, v: K)
    requires Tally(histogram, keys, vals) && v !in histogram
    ensures Tally(histogram[v := 1], keys + [v], vals + [v])
  {
    forall k | k in histogram
      ensures Occ(vals + [v], k) == Occ(vals, k) + (if v == k then 1 else 0)
    {
      OccAppend(vals, v, k);
    }
    OccAppend(vals, v, v);
    OccPositive(vals, v);
  }

  /** `build_histogram`. `tx` is the transform; the source's `tx=None` is the
      identity. */
  method BuildHistogram<T, K(==)>(dataset: seq<T>, filtered: Option<seq<bool>>, tx: T -> K)
    returns (hlist: seq<(K, nat)>)
    requires Covers(filtered, |dataset|)
    ensures IsHistogramOf(hlist, Values(dataset, filtered, tx, |dataset|))
  {
    var histogram: map<K, nat> := map[];
    var keys: seq<K> := [];
    for ir := 0 to |dataset|
      invariant Tally(histogram, keys, Values(dataset, filtered, tx, ir))
    {
      if Counted(filtered, ir) {
        var value := tx(dataset[ir]);
        assert Values(dataset, filtered, tx, ir + 1) == Values(dataset, filtered, tx, ir) + [value];
        if value in histogram {
          TallyHit(histogram, keys, Values(dataset, filtered, tx, ir), value);
          histogram := histogram[value := histogram[value] + 1];
        } else {
          TallyNew(histogram, keys, Values(dataset, filtered, tx, ir), value);
          histogram := histogram[value := 1];
          keys := keys + [value];
        }
      } else {
        assert Values(dataset, filtered, tx, ir + 1) == Values(dataset, filtered, tx, ir);
      }
    }
    ghost var vals := Values(dataset, filtered, tx, |dataset|);
    hlist := seq(|keys|, i requires 0 <= i < |keys| => (keys[i], histogram[keys[i]]));
    forall v | v in vals
      ensures exists i :: 0 <= i < |hlist| && hlist[i].0 == v
    {
      var i :| 0 <= i < |keys| && keys[i] == v;
      assert hlist[i].0 == v;
    }
  }

  /** The sum of the counts. */
  function Total<K>(h: seq<(K, nat)>): nat
  {
    if h == [] then 0 else Total(h[..|h| - 1]) + h[|h| - 1].1
  }

  /** The number of keys of `h` equal to `x`. */
  function Hits<K(==)>(h: seq<(K, nat)>, x: K): nat
  {
    if h == [] then 0 else Hits(h[..|h| - 1], x) + (if h[|h| - 1].0 == x then 1 else 0)
  }

  /** A key that occurs once among distinct keys is hit once. */
  lemma {:induction false} HitsDistinct<K>(h: seq<(K, nat)>, x: K)
    requires DistinctKeys(h)
    ensures Hits(h, x) == (if exists i :: 0 <= i < |h| && h[i].0 == x then 1 else 0)
  {
    if h != [] {
      var init := h[..|h| - 1];
      HitsDistinct(init, x);
      if exists i :: 0 <= i < |h| && h[i].0 == x {
        var i :| 0 <= i < |h| && h[i].0 == x;
        if i < |h| - 1 {
          assert init[i].0 == x;
        }
      } else {
        assert forall i :: 0 <= i < |init| ==> init[i] == h[i];
      }
    }
  }

  /** `h` with every count replaced by the occurrences of its key in `vals`. */
  function Recount<K(==)>(h: seq<(K, nat)>, vals: seq<K>): (r: seq<(K, nat)>)
    ensures |r| == |h|
  {
    if h == [] then [] else Recount(h[..|h| - 1], vals) + [(h[|h| - 1].0, Occ(vals, h[|h| - 1].0))]
  }

  /** Adding one value adds one to the recounted total for each key it hits. */
  lemma {:induction false} RecountAppend<K>(h: seq<(K, nat)>, vals: seq<K>, v: K)
    ensures Total(Recount(h, vals + [v])) == Total(Recount(h, vals)) + Hits(h, v)
  {
    if h != [] {
      var init := h[..|h| - 1];
      RecountAppend(init, vals, v);
      OccAppend(vals, v, h[|h| - 1].0);
      var r1 := Recount(h, vals + [v]);
      var r0 := Recount(h, vals);
      assert r1[..|h| - 1] == Recount(init, vals + [v]);
      assert r0[..|h| - 1] == Recount(init, vals);
    }
  }

  /** Distinct keys that cover every value recount to the number of values. */
  lemma {:induction false} RecountTotal<K>(h: seq<(K, nat)>, vals: seq<K>)
    requires DistinctKeys(h)
    requires forall v :: v in vals ==> exists i :: 0 <= i < |h| && h[i].0 == v
    ensures Total(Recount(h, vals)) == |vals|
    decreases |vals|
  {
    if vals == [] {
      RecountEmpty(h);
    } else {
      var init := vals[..|vals| - 1];
      var v := vals[|vals| - 1];
      assert vals == init + [v];
      assert v in vals;
      assert forall x :: x in init ==> x in vals;
      RecountTotal(h, init);
      RecountAppend(h, init, v);
      HitsDistinct(h, v);
    }
  }

  lemma {:induction false} RecountEmpty<K>(h: seq<(K, nat)>)
    ensures Total(Recount(h, [])) == 0
  {
    if h != [] {
      RecountEmpty(h[..|h| - 1]);
      assert Recount(h, [])[..|h| - 1] == Recount(h[..|h| - 1], []);
    }
  }

  /** Counts that are the occurrences of their keys leave `h` unchanged by
      a recount. */
  lemma {:induction false} RecountSame<K>(h: seq<(K, nat)>, vals: seq<K>)
    requires forall i :: 0 <= i < |h| ==> h[i].1 == Occ(vals, h[i].0)
    ensures Recount(h, vals) == h
  {
    if h != [] {
      RecountSame(h[..|h| - 1], vals);
    }
  }

  /** The counts of a histogram add up to the number of values counted. */
  lemma HistogramTotal<K>(h: seq<(K, nat)>, vals: seq<K>)
    requires IsHistogramOf(h, vals)
    ensures Total(h) == |vals|
  {
    RecountSame(h, vals);
    RecountTotal(h, vals);
  }

  /** Without a filter list every record is counted. */
  lemma {:induction false} ValuesUnfiltered<T, K>(dataset: seq<T>, filtered: Option<seq<bool>>, tx: T -> K, n: nat)
    requires n <= |dataset| && (filtered.None? || filtered.value == [])
    ensures Values(dataset, filtered, tx, n) == seq(n, i requires 0 <= i < n => tx(dataset[i]))
  {
    if n > 0 {
      ValuesUnfiltered(dataset, filtered, tx, n - 1);
    }
  }

  /** Number of falsy entries among the first `n` of a filter list. */
  function Unmarked(filtered: seq<bool>, n: nat): nat
    requires n <= |filtered|
  {
    if n == 0 then 0 else Unmarked(filtered, n - 1) + (if filtered[n - 1] then 0 else 1)
  }

  /** With a non-empty filter list, exactly its unmarked records are counted. */
  lemma {:induction false} ValuesFiltered<T, K>(dataset: seq<T>, filtered: seq<bool>, tx: T -> K, n: nat)
    requires n <= |dataset| && n <= |filtered| && filtered != []
    ensures |Values(dataset, Some(filtered), tx, n)| == Unmarked(filtered, n)
  {
    if n > 0 {
      ValuesFiltered(dataset, filtered, tx, n - 1);
    }
  }

  /** The histogram's counts sum to the number of records not marked as
      filtered, and to the number of all records without a filter list. */
  lemma HistogramCountsRecords<T, K>(dataset: seq<T>, filtered: Option<seq<bool>>, tx: T -> K,
                                     h: seq<(K, nat)>)
    requires Covers(filtered, |dataset|)
    requires IsHistogramOf(h, Values(dataset, filtered, tx, |dataset|))
    ensures filtered.None? || filtered.value == [] ==> Total(h) == |dataset|
    ensures filtered.Some? && filtered.value != [] ==> Total(h) == Unmarked(filtered.value, |dataset|)
  {
    HistogramTotal(h, Values(dataset, filtered, tx, |dataset|));
    if filtered.None? || filtered.value == [] {
      ValuesUnfiltered(dataset, filtered, tx, |dataset|);
    } else {
      ValuesFiltered(dataset, filtered.value, tx, |dataset|);
    }
  }
}
