/**
 `groupby` of the dask dataset interface: the key tuples of the grouping
 columns are enumerated in order of first appearance (holoviews'
 `unique_iterator`), keys holding a NaN float are skipped, 1-tuples are
 unwrapped to the bare value, and each group holds the rows with that key.
 The element dimensions of the groups are the key dimensions not grouped on.
 */
module DaskGrouping {
  import opened Values
  import opened Seqs
  import opened Tables

  /** The values of the grouping columns in one row. */
  type KeyTuple = seq<Value>

  /** Python's `==` on tuples. */
  predicate TupleEq(a: KeyTuple, b: KeyTuple) {
    |a| == |b| && forall j :: 0 <= j < |a| ==> SameKey(a[j], b[j])
  }

  /** Some component of the key is a float NaN; such keys are skipped. */
  predicate HasNaN(k: KeyTuple) {
    exists j :: 0 <= j < |k| && k[j].NaNV?
  }

  lemma TupleEqTransitive(a: KeyTuple, b: KeyTuple, c: KeyTuple)
    requires TupleEq(a, b) && TupleEq(b, c)
    ensures TupleEq(a, c)
  {
    forall j | 0 <= j < |a|
      ensures SameKey(a[j], c[j])
    {
      SameKeyEquivalence(a[j], b[j], c[j]);
    }
  }

  /** A tuple without NaN equals itself; one with NaN equals nothing. */
  lemma TupleEqReflexive(a: KeyTuple)
    ensures TupleEq(a, a) <==> !HasNaN(a)
  {
    if !HasNaN(a) {
      forall j | 0 <= j < |a|
        ensures SameKey(a[j], a[j])
      {
        SameKeyEquivalence(a[j], a[j], a[j]);
      }
    }
  }

  // ----- first-appearance enumeration -----

  /** Position `k` holds the first occurrence of its key. */
  predicate IsFirst(keys: seq<KeyTuple>, k: nat)
    requires k < |keys|
  {
    forall j :: 0 <= j < k ==> !TupleEq(keys[j], keys[k])
  }

  function FirstMask(keys: seq<KeyTuple>): (r: seq<bool>)
    ensures |r| == |keys|
  {
    seq(|keys|, k requires 0 <= k < |keys| => IsFirst(keys, k))
  }

  /** Reference definition of the enumeration: the keys standing at their
      first occurrence, in the order they occur. */
  function Firsts(keys: seq<KeyTuple>): seq<KeyTuple> {
    Filter(keys, FirstMask(keys))
  }

  lemma FirstMaskPrefix(keys: seq<KeyTuple>, i: nat)
    requires i < |keys|
    ensures FirstMask(keys[..i + 1])[..i] == FirstMask(keys[..i])
    ensures FirstMask(keys[..i + 1])[i] == IsFirst(keys, i)
  {
  }

  /** Every collected key is one of the first `i` keys. */
  ghost predicate Drawn(r: seq<KeyTuple>, keys: seq<KeyTuple>, i: nat)
    requires i <= |keys|
  {
    forall m :: 0 <= m < |r| ==> r[m] in keys[..i]
  }

  /** Each of the first `i` keys is collected, or equals a collected key. */
  ghost predicate Covers(r: seq<KeyTuple>, keys: seq<KeyTuple>, i: nat)
    requires i <= |keys|
  {
    forall j :: 0 <= j < i ==> exists m :: 0 <= m < |r| && (r[m] == keys[j] || TupleEq(r[m], keys[j]))
  }

  predicate Seen(r: seq<KeyTuple>, k: KeyTuple) {
    exists m :: 0 <= m < |r| && TupleEq(r[m], k)
  }

  /** Membership in the collected keys decides first occurrence. */
  lemma SeenIffNotFirst(keys: seq<KeyTuple>, i: nat, r: seq<KeyTuple>)
    requires i < |keys| && Drawn(r, keys, i) && Covers(r, keys, i)
    ensures Seen(r, keys[i]) <==> !IsFirst(keys, i)
  {
    if Seen(r, keys[i]) {
      var m :| 0 <= m < |r| && TupleEq(r[m], keys[i]);
      assert r[m] in keys[..i];
      var j :| 0 <= j < i && keys[..i][j] == r[m];
      assert keys[j] == r[m];
    }
    if !IsFirst(keys, i) {
      var j :| 0 <= j < i && TupleEq(keys[j], keys[i]);
      var m :| 0 <= m < |r| && (r[m] == keys[j] || TupleEq(r[m], keys[j]));
      if r[m] != keys[j] {
        TupleEqTransitive(r[m], keys[j], keys[i]);
      }
    }
  }

  lemma FirstsStep(keys: seq<KeyTuple>, i: nat)
    requires i < |keys|
    ensures Firsts(keys[..i + 1]) == Firsts(keys[..i]) + (if IsFirst(keys, i) then [keys[i]] else [])
  {
    FirstMaskPrefix(keys, i);
    assert keys[..i + 1][..i] == keys[..i];
  }

  lemma DrawnStep(keys: seq<KeyTuple>, i: nat, r: seq<KeyTuple>)
    requires i < |keys| && Drawn(r, keys, i)
    ensures Drawn(r + [keys[i]], keys, i + 1)
  {
    assert keys[..i + 1] == keys[..i] + [keys[i]];
  }

  lemma CoversStep(keys: seq<KeyTuple>, i: nat, r: seq<KeyTuple>)
    requires i < |keys| && Covers(r, keys, i)
    ensures Covers(r + [keys[i]], keys, i + 1)
  {
    var r' := r + [keys[i]];
    forall j | 0 <= j < i + 1
      ensures exists m :: 0 <= m < |r'| && (r'[m] == keys[j] || TupleEq(r'[m], keys[j]))
    {
      if j < i {
        var m :| 0 <= m < |r| && (r[m] == keys[j] || TupleEq(r[m], keys[j]));
        assert r'[m] == r[m];
      } else {
        assert r'[|r|] == keys[j];
      }
    }
  }

  lemma DrawnWiden(keys: seq<KeyTuple>, i: nat, r: seq<KeyTuple>)
    requires i < |keys| && Drawn(r, keys, i)
    ensures Drawn(r, keys, i + 1)
  {
    assert keys[..i + 1] == keys[..i] + [keys[i]];
  }

  lemma SeenStep(keys: seq<KeyTuple>, i: nat, r: seq<KeyTuple>)
    requires i < |keys| && Covers(r, keys, i) && Seen(r, keys[i])
    ensures Covers(r, keys, i + 1)
  {
    forall j | 0 <= j < i + 1
      ensures exists m :: 0 <= m < |r| && (r[m] == keys[j] || TupleEq(r[m], keys[j]))
    {
      if j == i {
        var m :| 0 <= m < |r| && TupleEq(r[m], keys[i]);
      }
    }
  }

  /** `unique_iterator` as a loop over the keys with a `seen` collection
      compared by Python `==`; it yields exactly the reference enumeration. */
  method UniqueKeys(keys: seq<KeyTuple>) returns (r: seq<KeyTuple>)
    ensures r == Firsts(keys)
  {
    r := [];
    var i := 0;
    while i < |keys|
      invariant 0 <= i <= |keys|
      invariant r == Firsts(keys[..i])
      invariant Drawn(r, keys, i) && Covers(r, keys, i)
    {
      var k := keys[i];
      SeenIffNotFirst(keys, i, r);
      FirstsStep(keys, i);
      if !Seen(r, k) {
        DrawnStep(keys, i, r);
        CoversStep(keys, i, r);
        r := r + [k];
      } else {
        DrawnWiden(keys, i, r);
        SeenStep(keys, i, r);
      }
      i := i + 1;
    }
    assert keys[..i] == keys;
  }

  /** The enumeration lists keys at their first occurrences, in order of
      occurrence, and lists every key-equal family once. */
  lemma FirstsSpec(keys: seq<KeyTuple>)
    ensures |Firsts(keys)| == |Kept(FirstMask(keys))|
    ensures forall a :: 0 <= a < |Firsts(keys)| ==>
              Kept(FirstMask(keys))[a] < |keys| &&
              Firsts(keys)[a] == keys[Kept(FirstMask(keys))[a]] &&
              IsFirst(keys, Kept(FirstMask(keys))[a])
    ensures forall a, b :: 0 <= a < b < |Firsts(keys)| ==>
              Kept(FirstMask(keys))[a] < Kept(FirstMask(keys))[b]
    ensures forall a, b :: 0 <= a < b < |Firsts(keys)| ==> !TupleEq(Firsts(keys)[a], Firsts(keys)[b])
  {
    var fm := FirstMask(keys);
    FilterSpec(keys, fm);
    KeptSpec(fm);
    assert forall a :: 0 <= a < |Kept(fm)| ==> Kept(fm)[a] in Kept(fm);
  }

  /** Every key without NaN is equal to some enumerated key (to only one, as
      `FirstsSpec` makes the enumerated keys pairwise unequal). */
  lemma FirstsCover(keys: seq<KeyTuple>, i: nat)
    requires i < |keys| && !HasNaN(keys[i])
    ensures exists a :: 0 <= a < |Firsts(keys)| && TupleEq(Firsts(keys)[a], keys[i])
    decreases i
  {
    var fm := FirstMask(keys);
    FilterSpec(keys, fm);
    KeptSpec(fm);
    if IsFirst(keys, i) {
      assert fm[i];
      var a :| 0 <= a < |Kept(fm)| && Kept(fm)[a] == i;
      TupleEqReflexive(keys[i]);
      assert Firsts(keys)[a] == keys[i];
    } else {
      var j :| 0 <= j < i && TupleEq(keys[j], keys[i]);
      assert !HasNaN(keys[j]) by {
        if HasNaN(keys[j]) {
          var q :| 0 <= q < |keys[j]| && keys[j][q].NaNV?;
          SameKeyEquivalence(keys[j][q], keys[i][q], keys[i][q]);
        }
      }
      FirstsCover(keys, j);
      var a :| 0 <= a < |Firsts(keys)| && TupleEq(Firsts(keys)[a], keys[j]);
      TupleEqTransitive(Firsts(keys)[a], keys[j], keys[i]);
    }
  }

  // ----- groupby -----

  /** A group key as handed to the container: a 1-tuple is unwrapped. */
  datatype Coord = Single(v: Value) | Multi(vs: seq<Value>)

  function Unwrap(k: KeyTuple): Coord {
    if |k| == 1 then Single(k[0]) else Multi(k)
  }

  datatype Group = Group(coord: Coord, rows: Table)

  /** The groups in order, and the key dimensions the group elements keep. */
  datatype Grouping = Grouping(elementDims: seq<string>, groups: seq<Group>)

  /** `columns.data[dimensions]`: the grouping columns, or a KeyError for the
      first dimension that is not a column. */
  function KeyColumns(t: Table, dims: seq<string>): (r: Result<seq<seq<Value>>>)
    requires Valid(t)
    ensures r.Ok? <==> forall j :: 0 <= j < |dims| ==> dims[j] in Names(t)
    ensures r.Err? ==> r.error.KeyError? && r.error.name in dims && r.error.name !in Names(t)
    ensures r.Ok? ==> |r.value| == |dims|
    ensures r.Ok? ==> forall j :: 0 <= j < |dims| ==>
              |r.value[j]| == t.rows && r.value[j] == Lookup(t, dims[j]).value.cells
    decreases |dims|
  {
    if |dims| == 0 then Ok([])
    else
      var col :- Lookup(t, dims[0]);
      var rest :- KeyColumns(t, dims[1..]);
      assert forall j :: 1 <= j < |dims| ==> dims[1..][j - 1] == dims[j];
      Ok([col.cells] + rest)
  }

  /** The key tuple of every row (`tuple(ind) for ind in indices`). */
  function RowKeys(rows: nat, cols: seq<seq<Value>>): (r: seq<KeyTuple>)
    requires forall j :: 0 <= j < |cols| ==> |cols[j]| == rows
    ensures |r| == rows
    ensures forall i :: 0 <= i < rows ==> |r[i]| == |cols| && forall j :: 0 <= j < |cols| ==> r[i][j] == cols[j][i]
  {
    seq(rows, i requires 0 <= i < rows => seq(|cols|, j requires 0 <= j < |cols| => cols[j][i]))
  }

  function NoNaNMask(coords: seq<KeyTuple>): (r: seq<bool>)
    ensures |r| == |coords|
  {
    seq(|coords|, c requires 0 <= c < |coords| => !HasNaN(coords[c]))
  }

  /** The group coordinates in order: first-appearance enumeration with the
      NaN keys skipped. */
  function Coords(keys: seq<KeyTuple>): seq<KeyTuple> {
    Filter(Firsts(keys), NoNaNMask(Firsts(keys)))
  }

  function GroupMask(keys: seq<KeyTuple>, k: KeyTuple): (r: seq<bool>)
    ensures |r| == |keys|
  {
    seq(|keys|, i requires 0 <= i < |keys| => TupleEq(keys[i], k))
  }

  /** `groupby(columns, dimensions, ...)` with the container and group types
      left abstract. The frame's own `groupby` rejects an empty key list with
      ValueError before any column is read. */
  function GroupBy(ds: Dataset, dims: seq<string>): (r: Result<Grouping>)
    requires Valid(ds.data)
    ensures r.Ok? <==> |dims| > 0 && forall j :: 0 <= j < |dims| ==> dims[j] in Names(ds.data)
    ensures |dims| == 0 ==> r == Err(ValueError)
    ensures |dims| > 0 && r.Err? ==> r.error.KeyError? && r.error.name in dims && r.error.name !in Names(ds.data)
    ensures r.Ok? ==> forall d :: d in r.value.elementDims <==> d in ds.kdims && d !in dims
    ensures r.Ok? ==> SubsequenceOf(r.value.elementDims, ds.kdims)
    ensures r.Ok? && |dims| == 1 ==> forall c :: 0 <= c < |r.value.groups| ==> r.value.groups[c].coord.Single?
    ensures r.Ok? && |dims| != 1 ==> forall c :: 0 <= c < |r.value.groups| ==> r.value.groups[c].coord.Multi?
  {
    if |dims| == 0 then Err(ValueError) else
    var cols :- KeyColumns(ds.data, dims);
    var keys := RowKeys(ds.data.rows, cols);
    CoordsWidth(keys, |dims|);
    WithoutKeepsOrder(ds.kdims, dims);
    Ok(Grouping(Without(ds.kdims, dims), MakeGroups(ds.data, keys, Coords(keys))))
  }

  /** One group per coordinate: its unwrapped key and the rows carrying it. */
  function MakeGroups(t: Table, keys: seq<KeyTuple>, coords: seq<KeyTuple>): (r: seq<Group>)
    requires Valid(t) && |keys| == t.rows
    ensures |r| == |coords|
    ensures forall c :: 0 <= c < |coords| ==>
              r[c] == Group(Unwrap(coords[c]), FilterRows(t, GroupMask(keys, coords[c])))
  {
    seq(|coords|, c requires 0 <= c < |coords| =>
          Group(Unwrap(coords[c]), FilterRows(t, GroupMask(keys, coords[c]))))
  }

  /** Every coordinate has one component per grouping dimension. */
  lemma CoordsWidth(keys: seq<KeyTuple>, w: nat)
    requires forall i :: 0 <= i < |keys| ==> |keys[i]| == w
    ensures forall c :: 0 <= c < |Coords(keys)| ==> |Coords(keys)[c]| == w
  {
    var fs := Firsts(keys);
    var nm := NoNaNMask(fs);
    FilterSpec(fs, nm);
    KeptSpec(nm);
    FirstsSpec(keys);
    forall c | 0 <= c < |Coords(keys)|
      ensures |Coords(keys)[c]| == w
    {
      var a := Kept(nm)[c];
      assert Coords(keys)[c] == fs[a];
    }
  }

  /** The facts about the coordinates, stated on the row keys. */
  lemma CoordsSpec(keys: seq<KeyTuple>)
    ensures forall c :: 0 <= c < |Coords(keys)| ==> !HasNaN(Coords(keys)[c])
    ensures forall c, d :: 0 <= c < d < |Coords(keys)| ==> !TupleEq(Coords(keys)[c], Coords(keys)[d])
    ensures forall i :: 0 <= i < |keys| && !HasNaN(keys[i]) ==>
              exists c :: 0 <= c < |Coords(keys)| && TupleEq(Coords(keys)[c], keys[i])
  {
    var fs := Firsts(keys);
    var nm := NoNaNMask(fs);
    var cs := Coords(keys);
    FilterSpec(fs, nm);
    KeptSpec(nm);
    FirstsSpec(keys);
    forall c | 0 <= c < |cs|
      ensures !HasNaN(cs[c])
    {
      assert Kept(nm)[c] in Kept(nm);
    }
    forall c, d | 0 <= c < d < |cs|
      ensures !TupleEq(cs[c], cs[d])
    {
    }
    forall i | 0 <= i < |keys| && !HasNaN(keys[i])
      ensures exists c :: 0 <= c < |cs| && TupleEq(cs[c], keys[i])
    {
      FirstsCover(keys, i);
      var a :| 0 <= a < |fs| && TupleEq(fs[a], keys[i]);
      assert !HasNaN(fs[a]) by {
        if HasNaN(fs[a]) {
          var q :| 0 <= q < |fs[a]| && fs[a][q].NaNV?;
          SameKeyEquivalence(fs[a][q], keys[i][q], keys[i][q]);
        }
      }
      assert nm[a];
      var c :| 0 <= c < |Kept(nm)| && Kept(nm)[c] == a;
      assert cs[c] == fs[a];
    }
  }

  /** The coordinates keep first-appearance order: each is a key at its first
      occurrence in the rows, and earlier coordinates occur earlier. */
  lemma CoordsFirstSeenOrder(keys: seq<KeyTuple>, c: nat, d: nat)
    requires c < d < |Coords(keys)|
    ensures exists p, q :: 0 <= p < q < |keys| && Coords(keys)[c] == keys[p] && Coords(keys)[d] == keys[q]
                           && IsFirst(keys, p) && IsFirst(keys, q)
  {
    var fs := Firsts(keys);
    var nm := NoNaNMask(fs);
    FilterSpec(fs, nm);
    KeptSpec(nm);
    FirstsSpec(keys);
    var a, b := Kept(nm)[c], Kept(nm)[d];
    var p, q := Kept(FirstMask(keys))[a], Kept(FirstMask(keys))[b];
    assert fs[a] == keys[p] && fs[b] == keys[q];
  }

  /** Group keys are distinct, none holds a NaN, every row whose key has no
      NaN lies in a group with its key, and each group holds exactly the rows
      whose key equals the group's. */
  lemma GroupByGroups(ds: Dataset, dims: seq<string>)
    requires Valid(ds.data) && GroupBy(ds, dims).Ok?
    ensures var cols := KeyColumns(ds.data, dims).value;
            var keys := RowKeys(ds.data.rows, cols);
            var g := GroupBy(ds, dims).value.groups;
            && |g| == |Coords(keys)|
            && (forall c :: 0 <= c < |g| ==>
                  g[c].coord == Unwrap(Coords(keys)[c]) && !HasNaN(Coords(keys)[c]) &&
                  g[c].rows == FilterRows(ds.data, GroupMask(keys, Coords(keys)[c])))
            && (forall c, d :: 0 <= c < d < |g| ==> !TupleEq(Coords(keys)[c], Coords(keys)[d]))
            && (forall i :: 0 <= i < ds.data.rows && !HasNaN(keys[i]) ==>
                  exists c :: 0 <= c < |g| && TupleEq(Coords(keys)[c], keys[i]))
  {
    var cols := KeyColumns(ds.data, dims).value;
    CoordsSpec(RowKeys(ds.data.rows, cols));
  }
}
