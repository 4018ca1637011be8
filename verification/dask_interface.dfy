/**
 The remaining operations of the dask dataset interface: `range`, `sort`,
 `aggregate` (which columns are kept and which reduction is dispatched),
 `unpack_scalar`, `add_dimension` and `shape`. A lazy frame is modelled as
 its computed table.
 */
module DaskInterface {
  import opened Values
  import opened Seqs
  import opened Tables
  import opened DaskSelection

  // ----- range -----

  /** Smallest and largest non-missing cells under the Python 2 ordering. */
  function MinMax(xs: seq<Value>): (r: Option<(Value, Value)>)
    ensures r.None? <==> forall i :: 0 <= i < |xs| ==> Missing(xs[i])
    ensures r.Some? ==> r.value.0 in xs && r.value.1 in xs
    ensures r.Some? ==> !Missing(r.value.0) && !Missing(r.value.1)
    ensures r.Some? ==> forall i :: 0 <= i < |xs| && !Missing(xs[i]) ==>
              Le(r.value.0, xs[i]) && Le(xs[i], r.value.1)
    decreases |xs|
  {
    if |xs| == 0 then None
    else
      var rest := MinMax(xs[1..]);
      assert forall i :: 1 <= i < |xs| ==> xs[i] == xs[1..][i - 1];
      LeIsTotalPreorder();
      if Missing(xs[0]) then rest
      else
        match rest
        case None => Some((xs[0], xs[0]))
        case Some((lo, hi)) =>
          Some((if Le(xs[0], lo) then xs[0] else lo, if Le(hi, xs[0]) then xs[0] else hi))
  }

  /** `range(columns, dimension)`. An object column is sorted after dropping
      nulls and its first and last entries are returned, so a column with no
      non-null entry raises IndexError; other columns use `min`/`max`, which
      skip NaN and give NaN when nothing is left. A name that is not a
      dimension fails in `get_dimension`. */
  function Range(ds: Dataset, dim: string): (r: Result<(Value, Value)>)
    requires Valid(ds.data)
    ensures dim !in ds.kdims + ds.vdims ==> r == Err(AttributeError)
    ensures dim in ds.kdims + ds.vdims && dim !in Names(ds.data) ==> r == Err(KeyError(dim))
    ensures r.Ok? && !Missing(r.value.0) ==>
              var cells := Lookup(ds.data, dim).value.cells;
              r.value.0 in cells && r.value.1 in cells && !Missing(r.value.1) &&
              forall i :: 0 <= i < |cells| && !Missing(cells[i]) ==>
                Le(r.value.0, cells[i]) && Le(cells[i], r.value.1)
    ensures r.Ok? && Missing(r.value.0) ==>
              r.value == (NaNV, NaNV) && !Lookup(ds.data, dim).value.kind.ObjectKind? &&
              forall i :: 0 <= i < |Lookup(ds.data, dim).value.cells| ==> Missing(Lookup(ds.data, dim).value.cells[i])
    ensures dim in ds.kdims + ds.vdims && dim in Names(ds.data) && r.Err? ==>
              r.error == IndexError && Lookup(ds.data, dim).value.kind.ObjectKind? &&
              forall i :: 0 <= i < |Lookup(ds.data, dim).value.cells| ==> Missing(Lookup(ds.data, dim).value.cells[i])
  {
    if dim !in ds.kdims + ds.vdims then Err(AttributeError)
    else
      var col :- Lookup(ds.data, dim);
      match MinMax(col.cells)
      case Some(p) => Ok(p)
      case None => if col.kind.ObjectKind? then Err(IndexError) else Ok((NaNV, NaNV))
  }

  /** A missing cell inserted anywhere never changes the range. */
  lemma {:induction false} MinMaxIgnoresMissing(xs: seq<Value>, i: nat, v: Value)
    requires i <= |xs| && Missing(v)
    ensures MinMax(xs[..i] + [v] + xs[i..]) == MinMax(xs)
    decreases i
  {
    var ys := xs[..i] + [v] + xs[i..];
    if i == 0 {
      assert ys[1..] == xs;
    } else {
      assert ys[0] == xs[0];
      assert ys[1..] == xs[1..][..i - 1] + [v] + xs[1..][i - 1..];
      MinMaxIgnoresMissing(xs[1..], i - 1, v);
    }
  }

  // ----- sort -----

  /** `sort(columns, by)`: dask frames cannot be sorted, so the data comes back
      as it was (after a warning). */
  function Sort(ds: Dataset, keys: seq<string>): (r: Table)
    ensures r == ds.data
  {
    ds.data
  }

  // ----- aggregate -----

  /** The aggregation function: its `func_name`, when it has one. */
  datatype AggFunction = Named(name: string) | Unnamed

  /** The reduction `aggregate` dispatches to: a frame method for a built-in
      numpy function, or `apply` of the function itself. */
  datatype Reduction = Builtin(frameMethod: string) | Apply

  /** The columns reindexed, whether they are grouped, and the reduction. */
  datatype AggPlan = AggPlan(groupCols: seq<string>, valueCols: seq<string>, grouped: bool, reduction: Reduction)

  /** The `inbuilts` table of frame methods for numpy function names. */
  function Inbuilt(name: string): (r: Option<string>)
    ensures name == "amin" ==> r == Some("min")
    ensures name == "amax" ==> r == Some("max")
    ensures name in ["mean", "std", "sum", "var"] ==> r == Some(name)
    ensures r.Some? <==> name in ["amin", "amax", "mean", "std", "sum", "var"]
  {
    if name == "amin" then Some("min")
    else if name == "amax" then Some("max")
    else if name in ["mean", "std", "sum", "var"] then Some(name)
    else None
  }

  function BuiltinMethod(f: AggFunction): Option<string> {
    if f.Named? then Inbuilt(f.name) else None
  }

  /** The value-dimension columns of numeric kind, in frame column order. */
  function NumericValueColumns(cols: seq<Column>, vdims: seq<string>): (r: seq<string>)
    ensures forall x :: x in r <==> exists c :: 0 <= c < |cols| && cols[c].name == x && NumericKind(cols[c].kind) && x in vdims
    ensures SubsequenceOf(r, ColumnNames(cols))
    decreases |cols|
  {
    if |cols| == 0 then []
    else
      var rest := NumericValueColumns(cols[1..], vdims);
      assert forall c :: 1 <= c < |cols| ==> cols[1..][c - 1] == cols[c];
      assert ColumnNames(cols)[1..] == ColumnNames(cols[1..]);
      if NumericKind(cols[0].kind) && cols[0].name in vdims then
        assert ([cols[0].name] + rest)[1..] == rest;
        [cols[0].name] + rest
      else
        SubsequenceSkip(rest, ColumnNames(cols));
        rest
  }

  /** The names of a list of columns, in order. */
  function ColumnNames(cols: seq<Column>): (r: seq<string>)
    ensures |r| == |cols|
    ensures forall c :: 0 <= c < |cols| ==> r[c] == cols[c].name
  {
    seq(|cols|, c requires 0 <= c < |cols| => cols[c].name)
  }

  predicate IsNumericColumn(t: Table, x: string) {
    exists c :: 0 <= c < |t.columns| && t.columns[c].name == x && NumericKind(t.columns[c].kind)
  }

  /** The first of `names` that is not a column, if any. */
  function FirstMissing(t: Table, names: seq<string>): (r: Option<string>)
    ensures r.None? <==> forall j :: 0 <= j < |names| ==> names[j] in Names(t)
    ensures r.Some? ==> r.value in names && r.value !in Names(t)
  {
    if |names| == 0 then None
    else if names[0] !in Names(t) then Some(names[0])
    else
      assert forall j :: 1 <= j < |names| ==> names[1..][j - 1] == names[j];
      FirstMissing(t, names[1..])
  }

  /** `aggregate(columns, dimensions, function)`: the grouping columns are
      the key dimensions among `dimensions`, the value columns the numeric
      value dimensions; with no dimensions only a built-in function can be
      applied, and dimensions naming no key dimension leave `groupby` with
      no keys, which it rejects with a ValueError. */
  function Aggregate(ds: Dataset, dims: seq<string>, f: AggFunction): (r: Result<AggPlan>)
    ensures r.Ok? ==> forall x :: x in r.value.groupCols <==> x in ds.kdims && x in dims
    ensures r.Ok? ==> SubsequenceOf(r.value.groupCols, ds.kdims)
    ensures r.Ok? ==> forall x :: x in r.value.valueCols <==>
              x in ds.vdims && IsNumericColumn(ds.data, x)
    ensures r.Ok? ==> (r.value.grouped <==> |dims| > 0)
    ensures r.Ok? ==> forall m :: r.value.reduction == Builtin(m) <==> BuiltinMethod(f) == Some(m)
    ensures |dims| == 0 && BuiltinMethod(f).None? && r.Err? ==>
              r.error == NotImplementedError("") || r.error.KeyError?
    ensures r.Ok? ==> SubsequenceOf(r.value.valueCols, Names(ds.data))
    ensures r.Err? ==>
              || (|dims| == 0 && BuiltinMethod(f).None?)
              || (|dims| > 0 && |Only(ds.kdims, dims)| == 0 && r.error == ValueError)
              || (exists x :: x in Only(ds.kdims, dims) && x !in Names(ds.data) && r.error == KeyError(x))
    ensures (forall x :: x in Only(ds.kdims, dims) ==> x in Names(ds.data)) ==>
              (r.Err? <==> (|dims| == 0 && BuiltinMethod(f).None?) || (|dims| > 0 && |Only(ds.kdims, dims)| == 0))
    ensures |dims| > 0 && |Only(ds.kdims, dims)| == 0 ==> r == Err(ValueError)
    ensures (exists x :: x in Only(ds.kdims, dims) && x !in Names(ds.data)) ==>
              r.Err? && r.error.KeyError? && r.error.name in Only(ds.kdims, dims) && r.error.name !in Names(ds.data)
    ensures FirstMissing(ds.data, Only(ds.kdims, dims)).Some? ==>
              r == Err(KeyError(FirstMissing(ds.data, Only(ds.kdims, dims)).value))
  {
    var cols := Only(ds.kdims, dims);
    var numeric := NumericValueColumns(ds.data.columns, ds.vdims);
    OnlyKeepsOrder(ds.kdims, dims);
    assert ColumnNames(ds.data.columns) == Names(ds.data);
    match FirstMissing(ds.data, cols)
    case Some(x) => Err(KeyError(x))
    case None =>
      if |dims| > 0 && |cols| == 0 then Err(ValueError)
      else
        match BuiltinMethod(f)
        case Some(m) => Ok(AggPlan(cols, numeric, |dims| > 0, Builtin(m)))
        case None =>
          if |dims| > 0 then Ok(AggPlan(cols, numeric, true, Apply))
          else Err(NotImplementedError(""))
  }

  // ----- unpack_scalar, add_dimension, shape -----

  /** `unpack_scalar(columns, data)`: a frame of exactly one column and one
      row becomes its cell; any other frame is returned as it is, except that
      one row with no column fails on `iat[0, 0]`. */
  function UnpackScalar(t: Table): (r: Result<Selected>)
    requires Valid(t)
    ensures r.Ok? && r.value.Scalar? <==> |t.columns| == 1 && t.rows == 1
    ensures r.Ok? && r.value.Scalar? ==> r.value.value == t.columns[0].cells[0]
    ensures r.Ok? && r.value.Frame? ==> r.value.table == t
    ensures r.Err? <==> |t.columns| == 0 && t.rows == 1
  {
    if |t.columns| > 1 || t.rows != 1 then Ok(Frame(t))
    else if |t.columns| == 0 then Err(IndexError)
    else Ok(Scalar(t.columns[0].cells[0]))
  }

  /** The values handed to `add_dimension`. */
  datatype Assigned = ScalarValue(v: Value) | ArrayValue(vs: seq<Value>)

  /** `np.isscalar`: numbers and strings are scalars, `None` is not. */
  predicate IsScalar(a: Assigned) {
    a.ScalarValue? && !a.v.NullV?
  }

  /** The dtype kind of a column filled with one scalar. */
  function KindOf(v: Value): Kind {
    match v
    case IntV(_) => IntKind
    case FloatV(_) => FloatKind
    case NaNV => FloatKind
    case StrV(_) => ObjectKind
    case NullV => ObjectKind
  }

  const NonScalarMessage := "Dask dataframe does not support assigning non-scalar value."

  /** `add_dimension(columns, dimension, dim_pos, values, vdim)`. The position
      and the vdim flag do not influence the frame: `assign` appends. */
  function AddDimension(t: Table, name: string, values: Assigned): (r: Result<Table>)
    requires Valid(t)
    ensures name in Names(t) ==> r == Ok(t)
    ensures name !in Names(t) && !IsScalar(values) ==> r == Err(NotImplementedError(NonScalarMessage))
    ensures name !in Names(t) && IsScalar(values) ==>
              && r.Ok? && Valid(r.value)
              && r.value.rows == t.rows
              && Names(r.value) == Names(t) + [name]
              && r.value.columns[..|t.columns|] == t.columns
              && forall i :: 0 <= i < t.rows ==> r.value.columns[|t.columns|].cells[i] == values.v
  {
    if name in Names(t) then Ok(t)
    else if !IsScalar(values) then Err(NotImplementedError(NonScalarMessage))
    else
      var added := Column(name, KindOf(values.v), seq(t.rows, _ => values.v));
      var r := Table(t.columns + [added], t.rows);
      assert r.columns[..|t.columns|] == t.columns;
      assert Names(r) == Names(t) + [name];
      Ok(r)
  }

  /** `shape`: (rows, columns). */
  function Shape(t: Table): (r: (nat, nat))
    ensures Valid(t) ==> r.0 == t.rows
    ensures Valid(t) ==> r.1 == |Names(t)| && forall c :: 0 <= c < |t.columns| ==> |t.columns[c].cells| == r.0
  {
    (t.rows, |t.columns|)
  }

  /** Adding a new dimension adds one column and keeps the row count. */
  lemma ShapeAfterAddDimension(t: Table, name: string, values: Assigned)
    requires Valid(t) && AddDimension(t, name, values).Ok?
    ensures name in Names(t) ==> Shape(AddDimension(t, name, values).value) == Shape(t)
    ensures name !in Names(t) ==> Shape(AddDimension(t, name, values).value) == (t.rows, |t.columns| + 1)
  {
  }

  /** A selection keeps every column and as many rows as pass it. */
  lemma ShapeAfterSelect(ds: Dataset, sel: Selection, indexed: bool)
    requires Valid(ds.data) && WellFormed(ds.data, sel)
    requires !indexed || Count(PassMask(ds.data, sel)) != 1
    ensures Select(ds, None, sel, indexed).Ok? && Select(ds, None, sel, indexed).value.Frame?
    ensures Shape(Select(ds, None, sel, indexed).value.table) == (Count(PassMask(ds.data, sel)), |ds.data.columns|)
  {
    SelectKeepsPassingRows(ds, sel, indexed);
  }
}
