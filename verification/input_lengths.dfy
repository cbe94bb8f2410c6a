/** `check_input_lengths`: a guard that a tuple of named collections all
    have the same length. Each collection is modelled by its length. */
module InputLengths {
  import opened Basics

  /** Why the guard raises: the names and the collections differ in number
      (the leading `assert`), or the lengths are found inconsistent. In the
      second case the guard means to raise a `ValueError`, but joining the
      integer lengths into its message raises a `TypeError` first; both
      are modelled as `Inconsistent`. */
  datatype LengthsError = ArityMismatch | Inconsistent

  /** All the collections have the same length. */
  predicate AllEqual(lengths: seq<nat>)
  {
    forall i, j :: 0 <= i < |lengths| && 0 <= j < |lengths| ==> lengths[i] == lengths[j]
  }

  /** Among the first `n` lengths, every length after a non-zero one equals
      it: what the guard as written accepts, since it treats a remembered
      length of 0 like no length at all. */
  predicate AcceptedTo(lengths: seq<nat>, n: nat)
    requires n <= |lengths|
  {
    forall i, j :: 0 <= i < j < n && lengths[i] != 0 ==> lengths[j] == lengths[i]
  }

  predicate Accepted(lengths: seq<nat>)
  {
    AcceptedTo(lengths, |lengths|)
  }

  /** Python's `not length` for the remembered length. */
  predicate Unset(length: Option<nat>)
  {
    length.None? || length.value == 0
  }

  /** `check_input_lengths` as written: the first collection's length is
      remembered, but so is each later one while the remembered length is 0,
      so zero-length collections at the front are never compared. */
  method CheckInputLengths(names: seq<string>, lengths: seq<nat>) returns (r: Result<(), LengthsError>)
    ensures |names| != |lengths| ==> r == Err(ArityMismatch)
    ensures |names| == |lengths| ==> (r == Ok(()) <==> Accepted(lengths))
    ensures |names| == |lengths| && !Accepted(lengths) ==> r == Err(Inconsistent)
  {
    if |names| != |lengths| {
      return Err(ArityMismatch);
    }
    var length: Option<nat> := None;
    var error := false;
    for k := 0 to |lengths|
      invariant Unset(length) <==> forall i :: 0 <= i < k ==> lengths[i] == 0
      invariant !Unset(length) ==>
                  exists p :: 0 <= p < k && lengths[p] == length.value && forall i :: 0 <= i < p ==> lengths[i] == 0
      invariant error <==> !AcceptedTo(lengths, k)
    {
      var f := lengths[k];
      if Unset(length) {
        length := Some(f);
      } else if length.value != f {
        var p :| 0 <= p < k && lengths[p] == length.value && forall i :: 0 <= i < p ==> lengths[i] == 0;
        assert lengths[p] != 0 && lengths[k] != lengths[p];
        error := true;
      } else {
        var p :| 0 <= p < k && lengths[p] == length.value && forall i :: 0 <= i < p ==> lengths[i] == 0;
        if !error {
          forall i, j | 0 <= i < j < k + 1 && lengths[i] != 0
            ensures lengths[j] == lengths[i]
          {
            if j == k && p < i {
              assert lengths[i] == lengths[p];
            }
          }
        }
      }
    }
    if error {
      return Err(Inconsistent);
    }
    return Ok(());
  }

  /** Two collections of lengths 0 and 1 pass the guard as written although
      their lengths differ. */
  lemma ZeroLengthSlipsThrough()
    ensures Accepted([0, 1]) && !AllEqual([0, 1])
  {
    assert [0, 1][0] != [0, 1][1];
  }

  /** The guard as written never rejects consistent lengths. */
  lemma AllEqualAccepted(lengths: seq<nat>)
    requires AllEqual(lengths)
    ensures Accepted(lengths)
  {
  }

  /** The guard as written is exact when the first collection is not empty. */
  lemma AcceptedNonZeroFirst(lengths: seq<nat>)
    requires Accepted(lengths) && 0 < |lengths| && lengths[0] != 0
    ensures AllEqual(lengths)
  {
    forall i, j | 0 <= i < |lengths| && 0 <= j < |lengths|
      ensures lengths[i] == lengths[j]
    {
      if 0 < i {
        assert lengths[i] == lengths[0];
      }
      if 0 < j {
        assert lengths[j] == lengths[0];
      }
    }
  }

  /** The guard with "no length yet" told apart from a length of 0: it
      accepts exactly the consistent lengths. */
  method CheckInputLengthsCorrected(names: seq<string>, lengths: seq<nat>) returns (r: Result<(), LengthsError>)
    ensures |names| != |lengths| ==> r == Err(ArityMismatch)
    ensures |names| == |lengths| ==> (r == Ok(()) <==> AllEqual(lengths))
    ensures |names| == |lengths| && !AllEqual(lengths) ==> r == Err(Inconsistent)
  {
    if |names| != |lengths| {
      return Err(ArityMismatch);
    }
    var length: Option<nat> := None;
    var error := false;
    for k := 0 to |lengths|
      invariant length.None? <==> k == 0
      invariant length.Some? ==> length.value == lengths[0]
      invariant error <==> exists i :: 0 <= i < k && lengths[i] != lengths[0]
    {
      var f := lengths[k];
      if length.None? {
        length := Some(f);
      } else if length.value != f {
        error := true;
      }
    }
    if !error && |lengths| > 0 {
      assert forall i :: 0 <= i < |lengths| ==> lengths[i] == lengths[0];
    }
    if error {
      return Err(Inconsistent);
    }
    return Ok(());
  }
}
