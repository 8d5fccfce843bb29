/**
 * Unpacking the category object of mca.ts (lines 54-65): walk the variables in key order, keep
 * those with at least one category, and add up their widths into the column dimension.
 *
 * The object is modelled as its `Object.keys` listing: a sequence of (variable name, categories)
 * pairs in key order.
 */
module Categories {

  /** Positions of the variables that have at least one category, in key order. */
  function KeptPositions<V>(schema: seq<(string, seq<V>)>): (idx: seq<nat>)
    ensures forall k :: 0 <= k < |idx| ==> idx[k] < |schema|
    ensures forall a, b :: 0 <= a < b < |idx| ==> idx[a] < idx[b]
    ensures forall t: nat :: t in idx <==> t < |schema| && |schema[t].1| > 0
  {
    if |schema| == 0 then []
    else
      var n := |schema| - 1;
      var rest := KeptPositions(schema[..n]);
      assert forall t: nat :: t < n ==> schema[..n][t] == schema[t];
      if |schema[n].1| > 0 then rest + [n] else rest
  }

  /** The names of the kept variables (`columnKeys`). */
  function KeptKeys<V>(schema: seq<(string, seq<V>)>): seq<string>
  {
    var idx := KeptPositions(schema);
    seq(|idx|, i requires 0 <= i < |idx| => schema[idx[i]].0)
  }

  /** The category lists of the kept variables (`columnCategories`). */
  function KeptCategories<V>(schema: seq<(string, seq<V>)>): seq<seq<V>>
  {
    var idx := KeptPositions(schema);
    seq(|idx|, i requires 0 <= i < |idx| => schema[idx[i]].1)
  }

  /** Looking at one more variable appends its position exactly when it has a category. */
  lemma KeptPositionsStep<V>(schema: seq<(string, seq<V>)>, t: nat)
    requires t < |schema|
    ensures KeptPositions(schema[..t + 1]) ==
      KeptPositions(schema[..t]) + (if |schema[t].1| > 0 then [t] else [])
  {
    assert schema[..t + 1][..t] == schema[..t];
  }

  /** Looking at one more variable appends its name to the kept keys exactly when it has a category. */
  lemma KeptKeysStep<V>(schema: seq<(string, seq<V>)>, t: nat)
    requires t < |schema|
    ensures KeptKeys(schema[..t + 1]) ==
      KeptKeys(schema[..t]) + (if |schema[t].1| > 0 then [schema[t].0] else [])
  {
    var a, b := schema[..t], schema[..t + 1];
    KeptPositionsStep(schema, t);
    var rest := KeptPositions(a);
    var ka, kb := KeptKeys(a), KeptKeys(b);
    var ext := if |schema[t].1| > 0 then [schema[t].0] else [];
    assert |kb| == |ka + ext|;
    forall k | 0 <= k < |kb| ensures kb[k] == (ka + ext)[k] {
      if k < |rest| {
        assert rest[k] < t && b[rest[k]] == a[rest[k]];
      }
    }
  }

  /** Looking at one more variable appends its categories to the kept lists exactly when it has one. */
  lemma KeptCategoriesStep<V>(schema: seq<(string, seq<V>)>, t: nat)
    requires t < |schema|
    ensures KeptCategories(schema[..t + 1]) ==
      KeptCategories(schema[..t]) + (if |schema[t].1| > 0 then [schema[t].1] else [])
  {
    var a, b := schema[..t], schema[..t + 1];
    KeptPositionsStep(schema, t);
    var rest := KeptPositions(a);
    var ca, cb := KeptCategories(a), KeptCategories(b);
    var ext := if |schema[t].1| > 0 then [schema[t].1] else [];
    assert |cb| == |ca + ext|;
    forall k | 0 <= k < |cb| ensures cb[k] == (ca + ext)[k] {
      if k < |rest| {
        assert rest[k] < t && b[rest[k]] == a[rest[k]];
      }
    }
  }

  /** The number of indicator columns the category lists take up, side by side. */
  function Width<V>(cats: seq<seq<V>>): nat
  {
    if |cats| == 0 then 0 else Width(cats[..|cats| - 1]) + |cats[|cats| - 1]|
  }

  /** The kept variables are exactly those with a non-empty category list, in key order, each kept whole. */
  lemma KeptVariables<V>(schema: seq<(string, seq<V>)>)
    ensures |KeptKeys(schema)| == |KeptCategories(schema)|
    ensures forall i :: 0 <= i < |KeptCategories(schema)| ==> |KeptCategories(schema)[i]| > 0
    ensures forall t :: 0 <= t < |schema| && |schema[t].1| > 0 ==>
      exists i :: 0 <= i < |KeptKeys(schema)| && KeptKeys(schema)[i] == schema[t].0 && KeptCategories(schema)[i] == schema[t].1
  {
    var idx := KeptPositions(schema);
    forall i | 0 <= i < |idx| ensures |KeptCategories(schema)[i]| > 0 {
      assert idx[i] in idx;
    }
    forall t | 0 <= t < |schema| && |schema[t].1| > 0
      ensures exists i :: 0 <= i < |KeptKeys(schema)| && KeptKeys(schema)[i] == schema[t].0 && KeptCategories(schema)[i] == schema[t].1
    {
      assert t in idx;
      var i :| 0 <= i < |idx| && idx[i] == t;
      assert KeptKeys(schema)[i] == schema[t].0;
    }
  }

  /**
   * The forEach over the keys: pushes each variable that has at least one category and adds its
   * width to columnDimension.
   */
  method UnpackCategories<V>(schema: seq<(string, seq<V>)>) returns (columnKeys: seq<string>, columnCategories: seq<seq<V>>, columnDimension: nat)
    ensures columnKeys == KeptKeys(schema) && columnCategories == KeptCategories(schema)
    ensures forall i :: 0 <= i < |columnCategories| ==> |columnCategories[i]| > 0
    ensures columnDimension == Width(columnCategories)
  {
    columnKeys, columnCategories, columnDimension := [], [], 0;
    var t := 0;
    while t < |schema|
      invariant 0 <= t <= |schema|
      invariant columnKeys == KeptKeys(schema[..t]) && columnCategories == KeptCategories(schema[..t])
      invariant forall i :: 0 <= i < |columnCategories| ==> |columnCategories[i]| > 0
      invariant columnDimension == Width(columnCategories)
    {
      var key := schema[t].0;
      var cats := schema[t].1;
      KeptKeysStep(schema, t);
      KeptCategoriesStep(schema, t);
      if |cats| > 0 {
        assert (columnCategories + [cats])[..|columnCategories|] == columnCategories;
        columnKeys := columnKeys + [key];
        columnCategories := columnCategories + [cats];
        columnDimension := columnDimension + |cats|;
      }
      t := t + 1;
    }
    assert schema[..t] == schema;
  }
}
