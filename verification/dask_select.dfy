/**
 Row selection of the dask dataset interface: `select_mask` turns a
 selection dictionary into a boolean row mask, `select` applies it (and
 unwraps a fully indexed single row into a scalar), and `sample` keeps the
 rows that match any (dimension, value) pair of the samples.

 A mask is `Option<Mask>`: `None` is Python's `None`, meaning "no mask".
 */
module DaskSelection {
  import opened Values
  import opened Seqs
  import opened Tables

  type Mask = seq<bool>

  /** A selection key. A bound of `NullV` in a slice is an omitted bound
      (Python's `None`); a tuple is unpacked into a slice; a set and a list
      behave alike. */
  datatype Key =
    | Slice(start: Value, stop: Value)
    | Tuple(items: seq<Value>)
    | Choice(items: seq<Value>)
    | Literal(v: Value)

  /** The items of the selection dictionary, dimension name to key. */
  type Selection = seq<(string, Key)>

  /** `slice(*items)`: one argument is the stop, two or three are start and
      stop (a step is ignored by the mask); any other arity is a TypeError. */
  function TupleAsSlice(items: seq<Value>): Result<Key> {
    if |items| == 1 then Ok(Slice(NullV, items[0]))
    else if 2 <= |items| <= 3 then Ok(Slice(items[0], items[1]))
    else Err(TypeError)
  }

  /** Key normalisation at the head of the loop: a tuple becomes a slice. */
  function Normalize(k: Key): (r: Result<Key>)
    ensures r.Ok? ==> !r.value.Tuple?
    ensures !k.Tuple? ==> r == Ok(k)
    ensures k.Tuple? ==> (r.Ok? <==> 1 <= |k.items| <= 3)
    ensures k.Tuple? && r.Err? ==> r.error == TypeError
    ensures k.Tuple? && |k.items| == 1 ==> r == Ok(Slice(NullV, k.items[0]))
    ensures k.Tuple? && 2 <= |k.items| <= 3 ==> r == Ok(Slice(k.items[0], k.items[1]))
  {
    if k.Tuple? then TupleAsSlice(k.items) else Ok(k)
  }

  predicate Fits(m: Option<Mask>, n: nat) {
    m.Some? ==> |m.value| == n
  }

  /** Row `i` is let through by mask `m` (no mask lets every row through). */
  predicate Admits(m: Option<Mask>, i: nat) {
    m.None? || (i < |m.value| && m.value[i])
  }

  /** Every mask of `ms` lets row `i` through. */
  predicate AllAdmit(ms: seq<Option<Mask>>, i: nat) {
    forall j :: 0 <= j < |ms| ==> Admits(ms[j], i)
  }

  lemma AllAdmitConcat(a: seq<Option<Mask>>, b: seq<Option<Mask>>, i: nat)
    ensures AllAdmit(a + b, i) <==> AllAdmit(a, i) && AllAdmit(b, i)
  {
    if AllAdmit(a + b, i) {
      forall j | 0 <= j < |a| ensures Admits(a[j], i) {
        assert (a + b)[j] == a[j];
      }
      forall j | 0 <= j < |b| ensures Admits(b[j], i) {
        assert (a + b)[|a| + j] == b[j];
      }
    }
    if AllAdmit(a, i) && AllAdmit(b, i) {
      forall j | 0 <= j < |a + b| ensures Admits((a + b)[j], i) {
        if j < |a| {
          assert (a + b)[j] == a[j];
        } else {
          assert (a + b)[j] == b[j - |a|];
        }
      }
    }
  }

  lemma AllAdmitOne(m: Option<Mask>, i: nat)
    ensures AllAdmit([m], i) <==> Admits(m, i)
  {
    assert [m][0] == m;
  }

  // ----- what a key means for one cell -----

  predicate SlicePasses(start: Value, stop: Value, v: Value) {
    (start.NullV? || Le(start, v)) && (stop.NullV? || Lt(v, stop))
  }

  /** The row-level meaning of a key: a half-open interval for a slice (an
      omitted bound is unbounded), a disjunction of equalities for a set or
      list, an equality for a literal. An empty set or list constrains
      nothing, because the code appends `None` for it. */
  predicate KeyPasses(k: Key, v: Value) {
    match k
    case Slice(s, e) => SlicePasses(s, e, v)
    case Tuple(items) =>
      if |items| == 1 then SlicePasses(NullV, items[0], v)
      else 2 <= |items| <= 3 && SlicePasses(items[0], items[1], v)
    case Choice(items) => |items| == 0 || exists j :: 0 <= j < |items| && ElemEq(v, items[j])
    case Literal(w) => ElemEq(v, w)
  }

  /** Row `i` satisfies the key given for one dimension. */
  predicate ItemPasses(t: Table, item: (string, Key), i: nat) {
    match Lookup(t, item.0)
    case Ok(col) => i < |col.cells| && KeyPasses(item.1, col.cells[i])
    case Err(_) => false
  }

  /** Row `i` satisfies every key of the selection. */
  predicate RowPasses(t: Table, sel: Selection, i: nat) {
    forall j :: 0 <= j < |sel| ==> ItemPasses(t, sel[j], i)
  }

  /** Every dimension names a column and every tuple key has 1 to 3 items. */
  predicate WellFormed(t: Table, sel: Selection) {
    forall j :: 0 <= j < |sel| ==> sel[j].0 in Names(t) && Normalize(sel[j].1).Ok?
  }

  function PassMask(t: Table, sel: Selection): (r: Mask)
    ensures |r| == t.rows
  {
    seq(t.rows, i requires 0 <= i < t.rows => RowPasses(t, sel, i))
  }

  // ----- the masks the code builds -----

  function StartMask(col: seq<Value>, start: Value): (r: Mask)
    ensures |r| == |col| && forall i :: 0 <= i < |col| ==> (r[i] <==> Le(start, col[i]))
  {
    seq(|col|, i requires 0 <= i < |col| => Le(start, col[i]))
  }

  function StopMask(col: seq<Value>, stop: Value): (r: Mask)
    ensures |r| == |col| && forall i :: 0 <= i < |col| ==> (r[i] <==> Lt(col[i], stop))
  {
    seq(|col|, i requires 0 <= i < |col| => Lt(col[i], stop))
  }

  function EqMask(col: seq<Value>, v: Value): (r: Mask)
    ensures |r| == |col| && forall i :: 0 <= i < |col| ==> (r[i] <==> ElemEq(col[i], v))
  {
    seq(|col|, i requires 0 <= i < |col| => ElemEq(col[i], v))
  }

  function OrMask(a: Mask, b: Mask): (r: Mask)
    requires |a| == |b|
    ensures |r| == |a| && forall i :: 0 <= i < |a| ==> (r[i] <==> a[i] || b[i])
  {
    seq(|a|, i requires 0 <= i < |a| => a[i] || b[i])
  }

  function AndMask(a: Mask, b: Mask): (r: Mask)
    requires |a| == |b|
    ensures |r| == |a| && forall i :: 0 <= i < |a| ==> (r[i] <==> a[i] && b[i])
  {
    seq(|a|, i requires 0 <= i < |a| => a[i] && b[i])
  }

  /** The `iter_slc` loop for a set or list key: the first equality mask
      starts it and each further one is or-ed in; no items leave it `None`. */
  function ChoiceMask(col: seq<Value>, items: seq<Value>): (r: Option<Mask>)
    ensures r.None? <==> |items| == 0
    ensures r.Some? ==> |r.value| == |col|
    ensures r.Some? ==> forall i :: 0 <= i < |col| ==>
              (r.value[i] <==> exists j :: 0 <= j < |items| && ElemEq(col[i], items[j]))
    decreases |items|
  {
    if |items| == 0 then None
    else
      var n := |items| - 1;
      var last := EqMask(col, items[n]);
      match ChoiceMask(col, items[..n])
      case None => Some(last)
      case Some(prev) =>
        assert forall j :: 0 <= j < n ==> items[..n][j] == items[j];
        Some(OrMask(prev, last))
  }

  /** The list `masks` built for one dimension (`k` already normalised). */
  function DimMasks(col: seq<Value>, k: Key): (r: seq<Option<Mask>>)
    requires !k.Tuple?
    ensures forall j :: 0 <= j < |r| ==> Fits(r[j], |col|)
  {
    match k
    case Slice(s, e) =>
      (if !s.NullV? then [Some(StartMask(col, s))] else [])
      + (if !e.NullV? then [Some(StopMask(col, e))] else [])
    case Choice(items) => [ChoiceMask(col, items)]
    case Literal(v) => [Some(EqMask(col, v))]
  }

  /** The accumulation step with the evident intent of the code: the first
      mask initialises the result and later masks are and-ed into it. A `None`
      mask (from an empty set or list) adds no constraint. */
  function Conjoin(acc: Option<Mask>, m: Option<Mask>): (r: Option<Mask>)
    requires acc.Some? && m.Some? ==> |acc.value| == |m.value|
  {
    if acc.None? then m
    else if m.None? then acc
    else Some(AndMask(acc.value, m.value))
  }

  function ConjoinAll(acc: Option<Mask>, ms: seq<Option<Mask>>, n: nat): (r: Option<Mask>)
    requires Fits(acc, n) && forall j :: 0 <= j < |ms| ==> Fits(ms[j], n)
    ensures Fits(r, n)
    decreases |ms|
  {
    if |ms| == 0 then acc
    else
      assert Fits(ms[0], n);
      ConjoinAll(Conjoin(acc, ms[0]), ms[1..], n)
  }

  function SelectMaskFrom(t: Table, sel: Selection, acc: Option<Mask>): (r: Result<Option<Mask>>)
    requires Valid(t) && Fits(acc, t.rows)
    ensures r.Ok? <==> WellFormed(t, sel)
    ensures r.Ok? ==> Fits(r.value, t.rows)
    decreases |sel|
  {
    if |sel| == 0 then Ok(acc)
    else
      var k :- Normalize(sel[0].1);
      var col :- Lookup(t, sel[0].0);
      assert |col.cells| == t.rows;
      assert forall j :: 1 <= j < |sel| ==> sel[1..][j - 1] == sel[j];
      SelectMaskFrom(t, sel[1..], ConjoinAll(acc, DimMasks(col.cells, k), t.rows))
  }

  /** `select_mask(dataset, selection)` (intended behaviour): an error when a
      dimension is not a column or a tuple has the wrong arity, otherwise the
      combined mask, `None` when no key produced one. */
  function SelectMask(t: Table, sel: Selection): (r: Result<Option<Mask>>)
    requires Valid(t)
    ensures r.Ok? <==> WellFormed(t, sel)
    ensures r.Ok? ==> Fits(r.value, t.rows)
    ensures |sel| == 0 ==> r == Ok(None)
  {
    SelectMaskFrom(t, sel, None)
  }

  // ----- meaning of the masks -----

  lemma ChoiceMaskIsDisjunction(col: seq<Value>, items: seq<Value>, i: nat)
    requires i < |col|
    ensures Admits(ChoiceMask(col, items), i) <==> KeyPasses(Choice(items), col[i])
  {
  }

  /** The masks built for one dimension all admit a row exactly when the key
      passes the row's cell. */
  lemma DimMasksMeaning(col: seq<Value>, k: Key, i: nat)
    requires !k.Tuple? && i < |col|
    ensures AllAdmit(DimMasks(col, k), i) <==> KeyPasses(k, col[i])
  {
    var ms := DimMasks(col, k);
    match k
    case Slice(s, e) =>
      var sm := if !s.NullV? then [Some(StartMask(col, s))] else [];
      var em := if !e.NullV? then [Some(StopMask(col, e))] else [];
      assert ms == sm + em;
      AllAdmitConcat(sm, em, i);
      AllAdmitOne(Some(StartMask(col, s)), i);
      AllAdmitOne(Some(StopMask(col, e)), i);
    case Choice(items) =>
      AllAdmitOne(ChoiceMask(col, items), i);
      ChoiceMaskIsDisjunction(col, items, i);
    case Literal(v) =>
      AllAdmitOne(Some(EqMask(col, v)), i);
  }

  lemma {:induction false} ConjoinAllMeaning(acc: Option<Mask>, ms: seq<Option<Mask>>, n: nat, i: nat)
    requires Fits(acc, n) && forall j :: 0 <= j < |ms| ==> Fits(ms[j], n)
    requires i < n
    ensures Admits(ConjoinAll(acc, ms, n), i) <==>
            Admits(acc, i) && forall j :: 0 <= j < |ms| ==> Admits(ms[j], i)
    decreases |ms|
  {
    if |ms| > 0 {
      var next := Conjoin(acc, ms[0]);
      assert Admits(next, i) <==> Admits(acc, i) && Admits(ms[0], i);
      ConjoinAllMeaning(next, ms[1..], n, i);
      assert forall j :: 1 <= j < |ms| ==> ms[1..][j - 1] == ms[j];
    }
  }

  lemma {:induction false} SelectMaskFromMeaning(t: Table, sel: Selection, acc: Option<Mask>, i: nat)
    requires Valid(t) && Fits(acc, t.rows) && WellFormed(t, sel) && i < t.rows
    ensures Admits(SelectMaskFrom(t, sel, acc).value, i) <==> Admits(acc, i) && RowPasses(t, sel, i)
    decreases |sel|
  {
    if |sel| > 0 {
      var k := Normalize(sel[0].1).value;
      var col := Lookup(t, sel[0].0).value;
      assert |col.cells| == t.rows;
      var ms := DimMasks(col.cells, k);
      var next := ConjoinAll(acc, ms, t.rows);
      ConjoinAllMeaning(acc, ms, t.rows, i);
      DimMasksMeaning(col.cells, k, i);
      assert KeyPasses(k, col.cells[i]) <==> ItemPasses(t, sel[0], i);
      assert forall j :: 1 <= j < |sel| ==> sel[1..][j - 1] == sel[j];
      assert WellFormed(t, sel[1..]);
      SelectMaskFromMeaning(t, sel[1..], next, i);
      assert RowPasses(t, sel, i) <==> ItemPasses(t, sel[0], i) && RowPasses(t, sel[1..], i);
    }
  }

  /** The overall mask is the conjunction of the per-dimension keys: a row is
      admitted exactly when it satisfies every key of the selection. */
  lemma SelectMaskMeaning(t: Table, sel: Selection)
    requires Valid(t) && WellFormed(t, sel)
    ensures SelectMask(t, sel).Ok?
    ensures forall i :: 0 <= i < t.rows ==>
              (Admits(SelectMask(t, sel).value, i) <==> RowPasses(t, sel, i))
  {
    forall i | 0 <= i < t.rows
      ensures Admits(SelectMask(t, sel).value, i) <==> RowPasses(t, sel, i)
    {
      SelectMaskFromMeaning(t, sel, None, i);
    }
  }

  /** A tuple key builds exactly the mask of the slice with the same start
      and stop. */
  lemma {:induction false} TupleKeyIsSlice(t: Table, sel: Selection, acc: Option<Mask>, j: nat)
    requires Valid(t) && Fits(acc, t.rows) && j < |sel| && sel[j].1.Tuple?
    requires TupleAsSlice(sel[j].1.items).Ok?
    ensures SelectMaskFrom(t, sel, acc)
            == SelectMaskFrom(t, sel[j := (sel[j].0, TupleAsSlice(sel[j].1.items).value)], acc)
    decreases |sel|
  {
    var sel' := sel[j := (sel[j].0, TupleAsSlice(sel[j].1.items).value)];
    if j > 0 {
      assert sel'[0] == sel[0];
      assert sel'[1..] == sel[1..][j - 1 := sel'[j]];
      match Normalize(sel[0].1)
      case Err(_) =>
      case Ok(k) =>
        match Lookup(t, sel[0].0)
        case Err(_) =>
        case Ok(col) =>
          assert |col.cells| == t.rows;
          TupleKeyIsSlice(t, sel[1..], ConjoinAll(acc, DimMasks(col.cells, k), t.rows), j - 1);
    } else {
      assert sel'[1..] == sel[1..];
    }
  }

  // ----- the code as written -----

  /** The accumulation step as the code writes it: `if select_mask:` asks a
      mask series for its truth value, which pandas and dask refuse with a
      ValueError, so any mask arriving after the first one raises. */
  function ConjoinAsWritten(acc: Option<Mask>, m: Option<Mask>): Result<Option<Mask>> {
    if acc.Some? then Err(ValueError) else Ok(m)
  }

  function ConjoinAllAsWritten(acc: Option<Mask>, ms: seq<Option<Mask>>): Result<Option<Mask>>
    decreases |ms|
  {
    if |ms| == 0 then Ok(acc)
    else
      var next :- ConjoinAsWritten(acc, ms[0]);
      ConjoinAllAsWritten(next, ms[1..])
  }

  function SelectMaskAsWrittenFrom(t: Table, sel: Selection, acc: Option<Mask>): Result<Option<Mask>>
    requires Valid(t)
    decreases |sel|
  {
    if |sel| == 0 then Ok(acc)
    else
      var k :- Normalize(sel[0].1);
      var col :- Lookup(t, sel[0].0);
      var next :- ConjoinAllAsWritten(acc, DimMasks(col.cells, k));
      SelectMaskAsWrittenFrom(t, sel[1..], next)
  }

  function SelectMaskAsWritten(t: Table, sel: Selection): Result<Option<Mask>>
    requires Valid(t)
  {
    SelectMaskAsWrittenFrom(t, sel, None)
  }

  /** Every mask but the last is `None`: the only sequences the truthiness
      test lets through, since it raises on any mask that follows a built
      one. */
  predicate NoneBeforeLast(ms: seq<Option<Mask>>) {
    forall j :: 0 <= j < |ms| - 1 ==> ms[j].None?
  }

  /** All masks `select_mask` builds, in the order the loop meets them. */
  function Masks(t: Table, sel: Selection): seq<Option<Mask>>
    requires Valid(t) && WellFormed(t, sel)
    decreases |sel|
  {
    if |sel| == 0 then []
    else
      assert forall j :: 1 <= j < |sel| ==> sel[1..][j - 1] == sel[j];
      DimMasks(Lookup(t, sel[0].0).value.cells, Normalize(sel[0].1).value) + Masks(t, sel[1..])
  }

  lemma NoneBeforeLastSplit(a: seq<Option<Mask>>, b: seq<Option<Mask>>)
    requires |a| > 0
    ensures NoneBeforeLast(a + b) <==> NoneBeforeLast(a) && NoneBeforeLast([a[|a| - 1]] + b)
  {
    var ab := a + b;
    var lb := [a[|a| - 1]] + b;
    if NoneBeforeLast(ab) {
      forall j | 0 <= j < |a| - 1 ensures a[j].None? {
        assert a[j] == ab[j];
      }
      forall j | 0 <= j < |lb| - 1 ensures lb[j].None? {
        assert lb[j] == ab[|a| - 1 + j];
      }
    }
    if NoneBeforeLast(a) && NoneBeforeLast(lb) {
      forall j | 0 <= j < |ab| - 1 ensures ab[j].None? {
        if j < |a| - 1 {
          assert ab[j] == a[j];
        } else {
          assert ab[j] == lb[j - (|a| - 1)];
        }
      }
    }
  }

  lemma NoneBeforeLastCons(x: Option<Mask>, ms: seq<Option<Mask>>)
    requires |ms| > 0
    ensures NoneBeforeLast([x] + ms) <==> x.None? && NoneBeforeLast(ms)
  {
    var xs := [x] + ms;
    if NoneBeforeLast(xs) {
      assert xs[0] == x;
      forall j | 0 <= j < |ms| - 1 ensures ms[j].None? {
        assert ms[j] == xs[j + 1];
      }
    }
    if x.None? && NoneBeforeLast(ms) {
      forall j | 0 <= j < |xs| - 1 ensures xs[j].None? {
        if j > 0 {
          assert xs[j] == ms[j - 1];
        }
      }
    }
  }

  /** The inner loop as written succeeds exactly when no mask follows a
      built one, and then leaves the last mask it met. */
  lemma {:induction false} ConjoinAllAsWrittenRaises(acc: Option<Mask>, ms: seq<Option<Mask>>)
    ensures ConjoinAllAsWritten(acc, ms).Ok? <==> NoneBeforeLast([acc] + ms)
    ensures ConjoinAllAsWritten(acc, ms).Ok? ==> ConjoinAllAsWritten(acc, ms).value == ([acc] + ms)[|ms|]
    ensures ConjoinAllAsWritten(acc, ms).Err? ==> ConjoinAllAsWritten(acc, ms).error == ValueError
    decreases |ms|
  {
    if |ms| > 0 {
      ConjoinAllAsWrittenRaises(ms[0], ms[1..]);
      NoneBeforeLastCons(acc, ms);
      assert [ms[0]] + ms[1..] == ms;
      assert ([acc] + ms)[|ms|] == ([ms[0]] + ms[1..])[|ms| - 1];
    }
  }

  /** The loop over the selection as written succeeds exactly when the
      selection is well formed and no mask follows a built one. */
  lemma {:induction false} SelectMaskAsWrittenFromRaises(t: Table, sel: Selection, acc: Option<Mask>)
    requires Valid(t)
    ensures SelectMaskAsWrittenFrom(t, sel, acc).Ok? <==>
              WellFormed(t, sel) && NoneBeforeLast([acc] + Masks(t, sel))
    decreases |sel|
  {
    if |sel| > 0 {
      assert forall j :: 1 <= j < |sel| ==> sel[1..][j - 1] == sel[j];
      assert WellFormed(t, sel) <==>
             sel[0].0 in Names(t) && Normalize(sel[0].1).Ok? && WellFormed(t, sel[1..]);
      if sel[0].0 in Names(t) && Normalize(sel[0].1).Ok? {
        var k := Normalize(sel[0].1).value;
        var col := Lookup(t, sel[0].0).value;
        var dm := DimMasks(col.cells, k);
        ConjoinAllAsWrittenRaises(acc, dm);
        if ConjoinAllAsWritten(acc, dm).Ok? {
          var next := ConjoinAllAsWritten(acc, dm).value;
          SelectMaskAsWrittenFromRaises(t, sel[1..], next);
          if WellFormed(t, sel) {
            assert Masks(t, sel) == dm + Masks(t, sel[1..]);
            assert [acc] + Masks(t, sel) == ([acc] + dm) + Masks(t, sel[1..]);
            NoneBeforeLastSplit([acc] + dm, Masks(t, sel[1..]));
          }
        } else if WellFormed(t, sel) {
          assert Masks(t, sel) == dm + Masks(t, sel[1..]);
          assert [acc] + Masks(t, sel) == ([acc] + dm) + Masks(t, sel[1..]);
          NoneBeforeLastSplit([acc] + dm, Masks(t, sel[1..]));
        }
      }
    }
  }

  /** `select_mask` as written raises exactly when the selection is well
      formed but some mask follows a built one. */
  lemma SelectMaskAsWrittenRaises(t: Table, sel: Selection)
    requires Valid(t)
    ensures SelectMaskAsWritten(t, sel).Ok? <==> WellFormed(t, sel) && NoneBeforeLast(Masks(t, sel))
  {
    SelectMaskAsWrittenFromRaises(t, sel, None);
    if WellFormed(t, sel) {
      var ms := Masks(t, sel);
      if |ms| > 0 {
        NoneBeforeLastCons(None, ms);
      }
    }
  }

  lemma {:induction false} ConjoinAllAsWrittenAgrees(acc: Option<Mask>, ms: seq<Option<Mask>>, n: nat)
    requires Fits(acc, n) && forall j :: 0 <= j < |ms| ==> Fits(ms[j], n)
    requires ConjoinAllAsWritten(acc, ms).Ok?
    ensures ConjoinAllAsWritten(acc, ms).value == ConjoinAll(acc, ms, n)
    decreases |ms|
  {
    if |ms| > 0 {
      ConjoinAllAsWrittenAgrees(ms[0], ms[1..], n);
    }
  }

  lemma {:induction false} SelectMaskAsWrittenFromAgrees(t: Table, sel: Selection, acc: Option<Mask>)
    requires Valid(t) && Fits(acc, t.rows)
    requires SelectMaskAsWrittenFrom(t, sel, acc).Ok?
    ensures SelectMaskFrom(t, sel, acc) == SelectMaskAsWrittenFrom(t, sel, acc)
    decreases |sel|
  {
    if |sel| > 0 {
      var k := Normalize(sel[0].1).value;
      var col := Lookup(t, sel[0].0).value;
      assert |col.cells| == t.rows;
      ConjoinAllAsWrittenAgrees(acc, DimMasks(col.cells, k), t.rows);
      SelectMaskAsWrittenFromAgrees(t, sel[1..], ConjoinAll(acc, DimMasks(col.cells, k), t.rows));
    }
  }

  /** Wherever the code as written does not raise, it computes the intended
      mask. */
  lemma SelectMaskAsWrittenAgrees(t: Table, sel: Selection)
    requires Valid(t) && SelectMaskAsWritten(t, sel).Ok?
    ensures SelectMask(t, sel) == SelectMaskAsWritten(t, sel)
  {
    SelectMaskAsWrittenFromAgrees(t, sel, None);
  }

  /** The discrepancy: a range with both bounds, `select(x=(0, 10))`, gives
      two masks, and the code as written raises where the intended code
      selects the rows with `0 <= x < 10`. */
  lemma AsWrittenRejectsBoundedRange()
    ensures SelectMaskAsWritten(Table([Column("x", IntKind, [IntV(5)])], 1), [("x", Tuple([IntV(0), IntV(10)]))])
            == Err(ValueError)
    ensures SelectMask(Table([Column("x", IntKind, [IntV(5)])], 1), [("x", Tuple([IntV(0), IntV(10)]))])
            == Ok(Some([true]))
  {
    var t := Table([Column("x", IntKind, [IntV(5)])], 1);
    var sel: Selection := [("x", Tuple([IntV(0), IntV(10)]))];
    var col := Lookup(t, "x").value;
    assert col.cells == [IntV(5)];
    assert StartMask(col.cells, IntV(0)) == [true];
    assert StopMask(col.cells, IntV(10)) == [true];
    var ms := DimMasks(col.cells, Slice(IntV(0), IntV(10)));
    assert ms == [Some([true]), Some([true])];
    assert AndMask([true], [true]) == [true];
    assert ms[1..] == [Some([true])];
    assert ConjoinAll(Some([true]), ms[1..], 1) == ConjoinAll(Some([true]), [], 1);
    assert ConjoinAllAsWritten(None, ms) == Err(ValueError);
    assert ConjoinAll(None, ms, 1) == Some([true]);
  }

  // ----- select -----

  /** Result of `select`: a frame, or the scalar cell of a fully indexed
      single row. */
  datatype Selected = Frame(table: Table) | Scalar(value: Value)

  /** `select(columns, selection_mask, **selection)`. A mask given directly is
      applied as it is. Otherwise the mask comes from the corrected
      `select_mask` (`SelectMask`), and when
      the selection indexes a scalar (`indexed`, decided by the generic
      interface) and one row remains, that row's first value-dimension cell
      is returned instead of a frame. */
  function Select(ds: Dataset, selectionMask: Option<Mask>, sel: Selection, indexed: bool): (r: Result<Selected>)
    requires Valid(ds.data)
    requires Fits(selectionMask, ds.data.rows)
    ensures selectionMask.Some? ==> r == Ok(Frame(FilterRows(ds.data, selectionMask.value)))
    ensures selectionMask.None? && !WellFormed(ds.data, sel) ==> r.Err?
    ensures r.Ok? && r.value.Scalar? ==> selectionMask.None? && indexed && |ds.vdims| > 0
    ensures r.Ok? && r.value.Frame? ==>
              Valid(r.value.table) && Names(r.value.table) == Names(ds.data) && r.value.table.rows <= ds.data.rows
    ensures r.Err? ==> selectionMask.None? && (!WellFormed(ds.data, sel) || indexed)
  {
    var t := ds.data;
    if selectionMask.Some? then Ok(Frame(FilterRows(t, selectionMask.value)))
    else
      var m :- SelectMask(t, sel);
      var df := if m.None? then t else FilterRows(t, m.value);
      if indexed && df.rows == 1 then
        if |ds.vdims| == 0 then Err(IndexError)
        else
          var col :- Lookup(df, ds.vdims[0]);
          assert |col.cells| == 1;
          Ok(Scalar(col.cells[0]))
      else Ok(Frame(df))
  }

  /** Whatever shape the code's mask takes, the frame it leaves is the
      original filtered by the row-level meaning of the selection. */
  lemma SelectedFrame(t: Table, sel: Selection)
    requires Valid(t) && WellFormed(t, sel)
    ensures var m := SelectMask(t, sel).value;
            (if m.None? then t else FilterRows(t, m.value)) == FilterRows(t, PassMask(t, sel))
  {
    SelectMaskMeaning(t, sel);
    var m := SelectMask(t, sel).value;
    var pm := PassMask(t, sel);
    if m.None? {
      FilterRowsAll(t, pm);
    } else {
      assert m.value == pm;
    }
  }

  /** `select` keeps exactly the rows satisfying every key, in their
      original order, when it does not unwrap a scalar. */
  lemma SelectKeepsPassingRows(ds: Dataset, sel: Selection, indexed: bool)
    requires Valid(ds.data) && WellFormed(ds.data, sel)
    requires !indexed || Count(PassMask(ds.data, sel)) != 1
    ensures Select(ds, None, sel, indexed) == Ok(Frame(FilterRows(ds.data, PassMask(ds.data, sel))))
  {
    SelectedFrame(ds.data, sel);
  }

  /** An empty selection yields no mask and `select` returns the frame
      unchanged. */
  lemma SelectEmptySelection(ds: Dataset, indexed: bool)
    requires Valid(ds.data)
    requires !indexed || ds.data.rows != 1
    ensures Select(ds, None, [], indexed) == Ok(Frame(ds.data))
  {
  }

  /** A fully indexed selection leaving exactly one row returns that row's
      cell of the first value dimension; with no value dimension it raises
      IndexError. */
  lemma SelectUnwrapsScalar(ds: Dataset, sel: Selection)
    requires Valid(ds.data) && WellFormed(ds.data, sel)
    requires Count(PassMask(ds.data, sel)) == 1
    ensures |ds.vdims| == 0 ==> Select(ds, None, sel, true) == Err(IndexError)
    ensures |ds.vdims| > 0 && ds.vdims[0] in Names(ds.data) ==>
              Kept(PassMask(ds.data, sel))[0] < ds.data.rows &&
              Select(ds, None, sel, true)
              == Ok(Scalar(Lookup(ds.data, ds.vdims[0]).value.cells[Kept(PassMask(ds.data, sel))[0]]))
  {
    var t := ds.data;
    var pm := PassMask(t, sel);
    var df := FilterRows(t, pm);
    SelectedFrame(t, sel);
    assert df.rows == 1;
    assert Select(ds, None, sel, true)
           == if |ds.vdims| == 0 then Err(IndexError)
              else match Lookup(df, ds.vdims[0])
                case Ok(col) => Ok(Scalar(col.cells[0]))
                case Err(e) => Err(e);
    if |ds.vdims| > 0 && ds.vdims[0] in Names(t) {
      FilterRowsSpec(t, pm);
      var c := Find(t, ds.vdims[0]).value;
      FindUnique(df, ds.vdims[0], c);
      assert df.columns[c].cells[0] == t.columns[c].cells[Kept(pm)[0]];
    }
  }

  // ----- sample -----

  /** One sample: a scalar is treated as a one-element list. */
  datatype Sample = One(v: Value) | Many(vs: seq<Value>)

  /** `np.isscalar(None)` is false, so a bare `None` sample reaches `zip`,
      which rejects it. */
  predicate HasBareNone(samples: seq<Sample>) {
    exists s :: 0 <= s < |samples| && samples[s].One? && samples[s].v.NullV?
  }

  function Elements(s: Sample): seq<Value> {
    if s.One? then [s.v] else s.vs
  }

  /** `zip(dims, values)`, truncated to the shorter of the two. */
  function Zip(dims: seq<string>, vals: seq<Value>): (r: seq<(string, Value)>)
    ensures |r| == if |dims| < |vals| then |dims| else |vals|
    ensures forall j :: 0 <= j < |r| ==> r[j] == (dims[j], vals[j])
  {
    seq(if |dims| < |vals| then |dims| else |vals|, j requires 0 <= j < |dims| && j < |vals| => (dims[j], vals[j]))
  }

  /** Every (dimension, value) pair the nested loops of `sample` visit, in order. */
  function SamplePairs(dims: seq<string>, samples: seq<Sample>): seq<(string, Value)>
    decreases |samples|
  {
    if |samples| == 0 then [] else Zip(dims, Elements(samples[0])) + SamplePairs(dims, samples[1..])
  }

  /** The or-accumulation of `data[c] == v` over the visited pairs. */
  function OrPairs(t: Table, pairs: seq<(string, Value)>, acc: Option<Mask>): (r: Result<Option<Mask>>)
    requires Valid(t) && Fits(acc, t.rows)
    ensures r.Ok? <==> forall p :: 0 <= p < |pairs| ==> pairs[p].0 in Names(t)
    ensures r.Ok? ==> Fits(r.value, t.rows)
    ensures r.Ok? && |pairs| > 0 ==> r.value.Some?
    decreases |pairs|
  {
    if |pairs| == 0 then Ok(acc)
    else
      var col :- Lookup(t, pairs[0].0);
      assert |col.cells| == t.rows;
      assert forall p :: 1 <= p < |pairs| ==> pairs[1..][p - 1] == pairs[p];
      var m := EqMask(col.cells, pairs[0].1);
      OrPairs(t, pairs[1..], if acc.None? then Some(m) else Some(OrMask(acc.value, m)))
  }

  /** `sample(columns, samples)`: with no pair to compare the mask stays
      `None`, and indexing the frame with `None` fails. */
  function SampleRows(ds: Dataset, samples: seq<Sample>): (r: Result<Table>)
    requires Valid(ds.data)
    ensures HasBareNone(samples) ==> r == Err(TypeError)
    ensures r.Ok? ==> Valid(r.value) && Names(r.value) == Names(ds.data) && r.value.rows <= ds.data.rows
  {
    if HasBareNone(samples) then Err(TypeError)
    else
      var m :- OrPairs(ds.data, SamplePairs(ds.kdims, samples), None);
      if m.None? then Err(InvalidIndexer) else Ok(FilterRows(ds.data, m.value))
  }

  /** Row `i` has cell `v` in column `dim`, compared element-wise. */
  predicate CellMatches(t: Table, dim: string, v: Value, i: nat) {
    match Lookup(t, dim)
    case Ok(col) => i < |col.cells| && ElemEq(col.cells[i], v)
    case Err(_) => false
  }

  /** Row `i` matches some value of some sample at the same position as one
      of the key dimensions. */
  predicate SampleHit(t: Table, dims: seq<string>, samples: seq<Sample>, i: nat) {
    exists s, j :: 0 <= s < |samples| && 0 <= j < |dims| && j < |Elements(samples[s])|
                   && CellMatches(t, dims[j], Elements(samples[s])[j], i)
  }

  function SampleMask(t: Table, dims: seq<string>, samples: seq<Sample>): (r: Mask)
    ensures |r| == t.rows
  {
    seq(t.rows, i requires 0 <= i < t.rows => SampleHit(t, dims, samples, i))
  }

  /** Row `i` is hit by one of the visited (dimension, value) pairs. */
  predicate PairsHit(t: Table, pairs: seq<(string, Value)>, i: nat) {
    exists p :: 0 <= p < |pairs| && CellMatches(t, pairs[p].0, pairs[p].1, i)
  }

  /** A row is hit by a visited pair exactly when it is hit by a sample. */
  lemma {:induction false} SamplePairsSpec(dims: seq<string>, samples: seq<Sample>, t: Table, i: nat)
    ensures PairsHit(t, SamplePairs(dims, samples), i)
            <==> SampleHit(t, dims, samples, i)
    decreases |samples|
  {
    if |samples| > 0 {
      SamplePairsSpec(dims, samples[1..], t, i);
      if SampleHit(t, dims, samples, i) {
        SampleHitToPair(dims, samples, t, i);
      }
      if PairsHit(t, SamplePairs(dims, samples), i) {
        PairToSampleHit(dims, samples, t, i);
      }
    }
  }

  lemma SampleHitToPair(dims: seq<string>, samples: seq<Sample>, t: Table, i: nat)
    requires |samples| > 0 && SampleHit(t, dims, samples, i)
    requires SampleHit(t, dims, samples[1..], i) ==>
             PairsHit(t, SamplePairs(dims, samples[1..]), i)
    ensures PairsHit(t, SamplePairs(dims, samples), i)
  {
    var ps := SamplePairs(dims, samples);
    var z := Zip(dims, Elements(samples[0]));
    var rest := SamplePairs(dims, samples[1..]);
    assert ps == z + rest;
    var s, j :| 0 <= s < |samples| && 0 <= j < |dims| && j < |Elements(samples[s])|
                && CellMatches(t, dims[j], Elements(samples[s])[j], i);
    if s == 0 {
      assert ps[j] == (dims[j], Elements(samples[s])[j]);
    } else {
      assert samples[1..][s - 1] == samples[s];
      assert SampleHit(t, dims, samples[1..], i);
      var p :| 0 <= p < |rest| && CellMatches(t, rest[p].0, rest[p].1, i);
      assert ps[|z| + p] == rest[p];
    }
  }

  lemma PairToSampleHit(dims: seq<string>, samples: seq<Sample>, t: Table, i: nat)
    requires |samples| > 0
    requires PairsHit(t, SamplePairs(dims, samples), i)
    requires (PairsHit(t, SamplePairs(dims, samples[1..]), i))
             ==> SampleHit(t, dims, samples[1..], i)
    ensures SampleHit(t, dims, samples, i)
  {
    var ps := SamplePairs(dims, samples);
    var z := Zip(dims, Elements(samples[0]));
    var rest := SamplePairs(dims, samples[1..]);
    assert ps == z + rest;
    var p :| 0 <= p < |ps| && CellMatches(t, ps[p].0, ps[p].1, i);
    if p < |z| {
      assert CellMatches(t, dims[p], Elements(samples[0])[p], i);
    } else {
      assert rest[p - |z|] == ps[p];
      var s, j :| 0 <= s < |samples[1..]| && 0 <= j < |dims| && j < |Elements(samples[1..][s])|
                  && CellMatches(t, dims[j], Elements(samples[1..][s])[j], i);
      assert samples[1..][s] == samples[s + 1];
    }
  }

  lemma {:induction false} OrPairsMeaning(t: Table, pairs: seq<(string, Value)>, acc: Option<Mask>, i: nat)
    requires Valid(t) && Fits(acc, t.rows) && i < t.rows
    requires forall p :: 0 <= p < |pairs| ==> pairs[p].0 in Names(t)
    requires acc.Some? || |pairs| > 0
    ensures OrPairs(t, pairs, acc).Ok?
    ensures Admits(OrPairs(t, pairs, acc).value, i) <==>
            (acc.Some? && acc.value[i]) || PairsHit(t, pairs, i)
    decreases |pairs|
  {
    if |pairs| > 0 {
      var col := Lookup(t, pairs[0].0).value;
      assert |col.cells| == t.rows;
      var m := EqMask(col.cells, pairs[0].1);
      var next := if acc.None? then Some(m) else Some(OrMask(acc.value, m));
      assert forall p :: 1 <= p < |pairs| ==> pairs[1..][p - 1] == pairs[p];
      OrPairsMeaning(t, pairs[1..], next, i);
      assert next.value[i] <==> (acc.Some? && acc.value[i]) || CellMatches(t, pairs[0].0, pairs[0].1, i);
      if PairsHit(t, pairs, i) {
        var p :| 0 <= p < |pairs| && CellMatches(t, pairs[p].0, pairs[p].1, i);
        if p > 0 {
          assert pairs[1..][p - 1] == pairs[p];
        }
      }
    }
  }

  /** `sample` keeps a row exactly when some sample has, at some position
      covered by both the key dimensions and the sample, a value equal to the
      row's cell in that dimension; the masks of different pairs are or-ed,
      even within one sample. With nothing to compare it fails. */
  lemma SampleMeaning(ds: Dataset, samples: seq<Sample>)
    requires Valid(ds.data)
    requires forall j :: 0 <= j < |ds.kdims| ==> ds.kdims[j] in Names(ds.data)
    ensures HasBareNone(samples) ==> SampleRows(ds, samples) == Err(TypeError)
    ensures !HasBareNone(samples) && |SamplePairs(ds.kdims, samples)| == 0 ==> SampleRows(ds, samples) == Err(InvalidIndexer)
    ensures !HasBareNone(samples) && |SamplePairs(ds.kdims, samples)| > 0 ==>
              SampleRows(ds, samples) == Ok(FilterRows(ds.data, SampleMask(ds.data, ds.kdims, samples)))
  {
    var t := ds.data;
    var pairs := SamplePairs(ds.kdims, samples);
    SamplePairsInDims(ds.kdims, samples);
    if |pairs| > 0 {
      var m := OrPairs(t, pairs, None).value;
      forall i | 0 <= i < t.rows
        ensures m.value[i] == SampleMask(t, ds.kdims, samples)[i]
      {
        OrPairsMeaning(t, pairs, None, i);
        SamplePairsSpec(ds.kdims, samples, t, i);
      }
      assert m.value == SampleMask(t, ds.kdims, samples);
    }
  }

  lemma {:induction false} SamplePairsInDims(dims: seq<string>, samples: seq<Sample>)
    ensures forall p :: 0 <= p < |SamplePairs(dims, samples)| ==> SamplePairs(dims, samples)[p].0 in dims
    decreases |samples|
  {
    if |samples| > 0 {
      SamplePairsInDims(dims, samples[1..]);
    }
  }

  /** A scalar sample behaves as the one-element list holding it. */
  lemma ScalarSampleIsList(ds: Dataset, samples: seq<Sample>, s: nat)
    requires Valid(ds.data) && s < |samples| && samples[s].One? && !samples[s].v.NullV?
    ensures SampleRows(ds, samples) == SampleRows(ds, samples[s := Many([samples[s].v])])
  {
    var samples' := samples[s := Many([samples[s].v])];
    assert forall k :: 0 <= k < |samples| ==> Elements(samples[k]) == Elements(samples'[k]);
    SamplePairsSameElements(ds.kdims, samples, samples');
  }

  lemma {:induction false} SamplePairsSameElements(dims: seq<string>, a: seq<Sample>, b: seq<Sample>)
    requires |a| == |b| && forall k :: 0 <= k < |a| ==> Elements(a[k]) == Elements(b[k])
    ensures SamplePairs(dims, a) == SamplePairs(dims, b)
    decreases |a|
  {
    if |a| > 0 {
      SamplePairsSameElements(dims, a[1..], b[1..]);
    }
  }
}
