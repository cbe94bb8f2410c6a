/** Categorical encoding: the fixed text-to-bool tables of the symptom and
    exposure fields, the per-column encoding that raises on an unmapped
    value, the any-symptom vector, and the category re-mapping helper. */
module Categorical {
  import opened Basics

  const SymptomaticFields: seq<string> :=
    ["fatigue", "shortness_of_breath", "abdominal_pain", "chest_pain",
     "delirium", "diarrhoea", "fever", "headache",
     "hoarse_voice", "loss_of_smell", "persistent_cough", "skipped_meals",
     "sore_throat", "unusual_muscle_pains"]

  const ExposureFields: seq<string> :=
    ["always_used_shortage", "have_used_PPE", "never_used_shortage", "sometimes_used_shortage",
     "treated_patients_with_covid"]

  /** The table shared by the yes/no symptom fields. */
  const TrueFalse: map<string, bool> := map["" := false, "False" := false, "True" := true]

  const CategoricalMaps: map<string, map<string, bool>> := map[
    "fatigue" := map["" := false, "no" := false, "mild" := true, "severe" := true],
    "shortness_of_breath" := map["" := false, "no" := false, "mild" := true, "significant" := true, "severe" := true],
    "abdominal_pain" := TrueFalse,
    "chest_pain" := TrueFalse,
    "delirium" := TrueFalse,
    "diarrhoea" := TrueFalse,
    "fever" := TrueFalse,
    "headache" := TrueFalse,
    "hoarse_voice" := TrueFalse,
    "loss_of_smell" := TrueFalse,
    "persistent_cough" := TrueFalse,
    "skipped_meals" := TrueFalse,
    "sore_throat" := TrueFalse,
    "unusual_muscle_pains" := TrueFalse,
    "always_used_shortage" := map["" := false, "all_needed" := false, "reused" := true],
    "have_used_PPE" := map["" := false, "never" := false, "sometimes" := true, "always" := true],
    "never_used_shortage" := map["" := false, "not_needed" := false, "not_available" := true],
    "sometimes_used_shortage" := map["" := false, "all_needed" := false, "reused" := true, "not_enough" := true],
    "treated_patients_with_covid" := map["" := false, "no" := false, "yes_suspected" := true,
                                         "yes_documented_suspected" := true, "yes_documented" := true]
  ]

  /** Every symptom and exposure field has a table, and every table maps
      the empty answer to `false`. */
  lemma TablesCoverFields()
    ensures forall k :: 0 <= k < |SymptomaticFields| ==> SymptomaticFields[k] in CategoricalMaps
    ensures forall k :: 0 <= k < |ExposureFields| ==> ExposureFields[k] in CategoricalMaps
    ensures forall f :: f in CategoricalMaps ==> "" in CategoricalMaps[f] && !CategoricalMaps[f][""]
  {
  }

  /** The utility module's `to_categorical`: every value replaced by its
      image under `transform`; the first value without one is the key of the
      KeyError raised. */
  method ToCategorical<K, V>(field: seq<K>, transform: map<K, V>) returns (r: Result<seq<V>, K>)
    ensures r.Ok? <==> forall i :: 0 <= i < |field| ==> field[i] in transform
    ensures r.Ok? ==> |r.value| == |field|
                      && forall i :: 0 <= i < |field| ==> field[i] in transform && r.value[i] == transform[field[i]]
    ensures r.Err? ==> r.error !in transform
                       && exists i :: 0 <= i < |field| && field[i] == r.error
                                      && forall j :: 0 <= j < i ==> field[j] in transform
  {
    var results: seq<V> := [];
    for ir := 0 to |field|
      invariant |results| == ir
      invariant forall i :: 0 <= i < ir ==> field[i] in transform && results[i] == transform[field[i]]
    {
      var v := field[ir];
      if v !in transform {
        return Err(v);
      }
      results := results + [transform[v]];
    }
    return Ok(results);
  }

  /** Field `index` of every row has an image under `mapdict`. */
  predicate AllMapped<V>(rows: seq<Row>, index: nat, mapdict: map<string, V>)
  {
    forall i :: 0 <= i < |rows| ==> index < |rows[i]| && rows[i][index] in mapdict
  }

  /** `col` is field `index` of `rows` encoded with `mapdict`. */
  ghost predicate Encodes<V>(rows: seq<Row>, index: nat, mapdict: map<string, V>, col: seq<V>)
  {
    && AllMapped(rows, index, mapdict)
    && |col| == |rows|
    && forall i :: 0 <= i < |rows| ==> col[i] == mapdict[rows[i][index]]
  }

  /** The pipeline's `to_categorical`: field `index` of every row encoded
      with `mapdict`. */
  method EncodeField<V>(rows: seq<Row>, index: nat, mapdict: map<string, V>) returns (r: Result<seq<V>, string>)
    requires forall i :: 0 <= i < |rows| ==> index < |rows[i]|
    ensures r.Ok? <==> AllMapped(rows, index, mapdict)
    ensures r.Ok? ==> Encodes(rows, index, mapdict, r.value)
    ensures r.Err? ==> r.error !in mapdict && exists i :: 0 <= i < |rows| && rows[i][index] == r.error
  {
    r := ToCategorical(Column(rows, index), mapdict);
  }

  /** Row `i` has a symptom in some column of `columns`. */
  predicate AnyAt(columns: seq<seq<bool>>, i: nat)
  {
    exists k :: 0 <= k < |columns| && i < |columns[k]| && columns[k][i]
  }

  lemma AnyAtAppend(columns: seq<seq<bool>>, col: seq<bool>, i: nat)
    requires i < |col|
    ensures AnyAt(columns + [col], i) <==> AnyAt(columns, i) || col[i]
  {
    var all := columns + [col];
    if AnyAt(all, i) {
      var k :| 0 <= k < |all| && i < |all[k]| && all[k][i];
      if k < |columns| {
        assert all[k] == columns[k];
      }
    }
    if AnyAt(columns, i) {
      var k :| 0 <= k < |columns| && i < |columns[k]| && columns[k][i];
      assert all[k] == columns[k];
    }
    assert all[|columns|] == col;
  }

  /** The encoded symptom columns and the any-symptom vector. */
  datatype Encoded = Encoded(columns: seq<seq<bool>>, any: seq<bool>)

  /** The symptom fields at `indices` encoded with `maps`, column by column,
      with the any-symptom vector accumulated by `or`. The first unmapped
      value stops the encoding. */
  method EncodeSymptoms(rows: seq<Row>, indices: seq<nat>, maps: seq<map<string, bool>>)
    returns (r: Result<Encoded, string>)
    requires |indices| == |maps|
    requires forall k, i :: 0 <= k < |indices| && 0 <= i < |rows| ==> indices[k] < |rows[i]|
    ensures r.Ok? <==> forall k :: 0 <= k < |indices| ==> AllMapped(rows, indices[k], maps[k])
    ensures r.Ok? ==> |r.value.columns| == |indices| && |r.value.any| == |rows|
    ensures r.Ok? ==> forall k :: 0 <= k < |indices| ==> Encodes(rows, indices[k], maps[k], r.value.columns[k])
    ensures r.Ok? ==> forall i :: 0 <= i < |rows| ==> (r.value.any[i] <==> AnyAt(r.value.columns, i))
    ensures r.Err? ==> exists k, i :: 0 <= k < |indices| && 0 <= i < |rows|
                                     && rows[i][indices[k]] == r.error && r.error !in maps[k]
  {
    var any := seq(|rows|, _ => false);
    var columns: seq<seq<bool>> := [];
    for s := 0 to |indices|
      invariant |columns| == s && |any| == |rows|
      invariant forall k :: 0 <= k < s ==> Encodes(rows, indices[k], maps[k], columns[k])
      invariant forall i :: 0 <= i < |rows| ==> (any[i] <==> AnyAt(columns, i))
    {
      var col := EncodeField(rows, indices[s], maps[s]);
      if col.Err? {
        return Err(col.error);
      }
      forall i | 0 <= i < |rows|
        ensures AnyAt(columns + [col.value], i) <==> AnyAt(columns, i) || col.value[i]
      {
        AnyAtAppend(columns, col.value, i);
      }
      any := OrSeq(any, col.value);
      columns := columns + [col.value];
    }
    return Ok(Encoded(columns, any));
  }

  /** The exposure fields at `indices` encoded with `maps`, column by column. */
  method EncodeExposures(rows: seq<Row>, indices: seq<nat>, maps: seq<map<string, bool>>)
    returns (r: Result<seq<seq<bool>>, string>)
    requires |indices| == |maps|
    requires forall k, i :: 0 <= k < |indices| && 0 <= i < |rows| ==> indices[k] < |rows[i]|
    ensures r.Ok? <==> forall k :: 0 <= k < |indices| ==> AllMapped(rows, indices[k], maps[k])
    ensures r.Ok? ==> |r.value| == |indices|
                      && forall k :: 0 <= k < |indices| ==> Encodes(rows, indices[k], maps[k], r.value[k])
    ensures r.Err? ==> exists k, i :: 0 <= k < |indices| && 0 <= i < |rows|
                                     && rows[i][indices[k]] == r.error && r.error !in maps[k]
  {
    var columns: seq<seq<bool>> := [];
    for e := 0 to |indices|
      invariant |columns| == e
      invariant forall k :: 0 <= k < e ==> Encodes(rows, indices[k], maps[k], columns[k])
    {
      var col := EncodeField(rows, indices[e], maps[e]);
      if col.Err? {
        return Err(col.error);
      }
      columns := columns + [col.value];
    }
    return Ok(columns);
  }

  /** Every key of a dictionary appears once in its iteration order `keys`. */
  ghost predicate DictOrder<K(!new), A>(keys: seq<K>, first: map<K, A>)
  {
    && (forall i, j :: 0 <= i < j < |keys| ==> keys[i] != keys[j])
    && (forall k :: k in first <==> k in keys)
  }

  ghost predicate Injective<K(!new), A>(first: map<K, A>)
  {
    forall m, n :: m in first && n in first && m != n ==> first[m] != first[n]
  }

  /** `map_between_categories`: for every key `m` of `first`, in the
      dictionary's order, `result[first[m]] := second[m]`; a key missing from
      `second` raises. Where two keys share a value the later one wins. */
  method MapBetweenCategories<K(==,!new), A(==,!new), B>(keys: seq<K>, first: map<K, A>, second: map<K, B>)
    returns (r: Result<map<A, B>, K>)
    requires DictOrder(keys, first)
    ensures r.Ok? <==> forall m :: m in first ==> m in second
    ensures r.Err? ==> r.error in first && r.error !in second
    ensures r.Ok? ==> forall v :: v in r.value <==> exists m :: m in first && first[m] == v
    ensures r.Ok? ==> forall i :: 0 <= i < |keys| ==>
              (forall j :: i < j < |keys| ==> first[keys[j]] != first[keys[i]]) ==>
              keys[i] in second && first[keys[i]] in r.value && r.value[first[keys[i]]] == second[keys[i]]
    ensures r.Ok? && Injective(first) ==> forall m :: m in first ==> m in second && r.value[first[m]] == second[m]
  {
    var result: map<A, B> := map[];
    for i := 0 to |keys|
      invariant forall j :: 0 <= j < i ==> keys[j] in second
      invariant forall v :: v in result <==> exists j :: 0 <= j < i && first[keys[j]] == v
      invariant forall j :: 0 <= j < i ==>
                  (forall l :: j < l < i ==> first[keys[l]] != first[keys[j]]) ==>
                  result[first[keys[j]]] == second[keys[j]]
    {
      var m := keys[i];
      if m !in second {
        return Err(m);
      }
      result := result[first[m] := second[m]];
    }
    r := Ok(result);
    forall v | v in result
      ensures exists m :: m in first && first[m] == v
    {
      var j :| 0 <= j < |keys| && first[keys[j]] == v;
    }
    forall m | m in first
      ensures m in second && first[m] in result
    {
      var j :| 0 <= j < |keys| && keys[j] == m;
    }
    if Injective(first) {
      forall m | m in first
        ensures r.value[first[m]] == second[m]
      {
        var j :| 0 <= j < |keys| && keys[j] == m;
        forall l | j < l < |keys|
          ensures first[keys[l]] != first[keys[j]]
        {
        }
      }
    }
  }
}
