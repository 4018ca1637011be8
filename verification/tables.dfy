/**
 A data frame as the dask interface sees it once computed: named columns of
 equal length, each with a numpy dtype kind, and the dataset wrapper that
 says which columns are key dimensions and which are value dimensions.
 */
module Tables {
  import opened Values
  import opened Seqs

  /** numpy's `dtype.kind` of a column: i, u, f, c, b, O, or anything else. */
  datatype Kind = IntKind | UIntKind | FloatKind | ComplexKind | BoolKind | ObjectKind | OtherKind

  /** The kinds `aggregate` treats as numeric (`dtype.kind in 'iufc'`). */
  predicate NumericKind(k: Kind) {
    k.IntKind? || k.UIntKind? || k.FloatKind? || k.ComplexKind?
  }

  datatype Column = Column(name: string, kind: Kind, cells: seq<Value>)

  /** `rows` is the frame's length; it is kept even when there are no columns. */
  datatype Table = Table(columns: seq<Column>, rows: nat)

  /** Every column has one cell per row and column names are distinct. */
  predicate Valid(t: Table) {
    && (forall c :: 0 <= c < |t.columns| ==> |t.columns[c].cells| == t.rows)
    && (forall c, d :: 0 <= c < d < |t.columns| ==> t.columns[c].name != t.columns[d].name)
  }

  /** A holoviews Dataset backed by a frame: its key and value dimension names. */
  datatype Dataset = Dataset(data: Table, kdims: seq<string>, vdims: seq<string>)

  function Names(t: Table): (r: seq<string>)
    ensures |r| == |t.columns|
    ensures forall c :: 0 <= c < |r| ==> r[c] == t.columns[c].name
  {
    seq(|t.columns|, c requires 0 <= c < |t.columns| => t.columns[c].name)
  }

  function FindFrom(cols: seq<Column>, name: string, from: nat): (r: Option<nat>)
    requires from <= |cols|
    ensures r.Some? ==> from <= r.value < |cols| && cols[r.value].name == name
    ensures r.Some? ==> forall c :: from <= c < r.value ==> cols[c].name != name
    ensures r.None? <==> forall c :: from <= c < |cols| ==> cols[c].name != name
    decreases |cols| - from
  {
    if from == |cols| then None
    else if cols[from].name == name then Some(from)
    else FindFrom(cols, name, from + 1)
  }

  /** Position of the column called `name`, if there is one. */
  function Find(t: Table, name: string): (r: Option<nat>)
    ensures r.Some? ==> r.value < |t.columns| && t.columns[r.value].name == name
    ensures r.None? <==> name !in Names(t)
  {
    FindFrom(t.columns, name, 0)
  }

  /** `df[name]`: the column called `name`, or a KeyError. */
  function Lookup(t: Table, name: string): (r: Result<Column>)
    ensures r.Ok? <==> name in Names(t)
    ensures r.Ok? ==> r.value.name == name && r.value in t.columns
    ensures r.Err? ==> r.error == KeyError(name)
  {
    match Find(t, name)
    case Some(c) => Ok(t.columns[c])
    case None => Err(KeyError(name))
  }

  /** In a valid table a name picks out exactly one column. */
  lemma FindUnique(t: Table, name: string, c: nat)
    requires Valid(t) && c < |t.columns| && t.columns[c].name == name
    ensures Find(t, name) == Some(c)
  {
  }

  lemma FilterColumnsLength(t: Table, keep: seq<bool>)
    requires Valid(t) && |keep| == t.rows
    ensures forall c :: 0 <= c < |t.columns| ==> |Filter(t.columns[c].cells, keep)| == Count(keep)
  {
    forall c | 0 <= c < |t.columns|
      ensures |Filter(t.columns[c].cells, keep)| == Count(keep)
    {
      FilterSpec(t.columns[c].cells, keep);
    }
  }

  /** `df[mask]`: the rows whose mask entry is true; columns, their names and
      kinds are unchanged. */
  function FilterRows(t: Table, keep: seq<bool>): (r: Table)
    requires Valid(t) && |keep| == t.rows
    ensures Valid(r)
    ensures r.rows == Count(keep) && Names(r) == Names(t) && r.rows <= t.rows
    ensures |r.columns| == |t.columns|
    ensures forall c :: 0 <= c < |t.columns| ==> r.columns[c].name == t.columns[c].name && r.columns[c].kind == t.columns[c].kind
  {
    FilterColumnsLength(t, keep);
    KeptSpec(keep);
    Table(seq(|t.columns|, c requires 0 <= c < |t.columns| =>
                Column(t.columns[c].name, t.columns[c].kind, Filter(t.columns[c].cells, keep))),
          Count(keep))
  }

  /** Row `j` of the filtered table is row `Kept(keep)[j]` of the original. */
  lemma FilterRowsSpec(t: Table, keep: seq<bool>)
    requires Valid(t) && |keep| == t.rows
    ensures forall c, j :: 0 <= c < |t.columns| && 0 <= j < Count(keep) ==>
              Kept(keep)[j] < t.rows &&
              FilterRows(t, keep).columns[c].cells[j] == t.columns[c].cells[Kept(keep)[j]]
  {
    KeptSpec(keep);
    var r := FilterRows(t, keep);
    forall c, j | 0 <= c < |t.columns| && 0 <= j < Count(keep)
      ensures Kept(keep)[j] < t.rows && r.columns[c].cells[j] == t.columns[c].cells[Kept(keep)[j]]
    {
      FilterSpec(t.columns[c].cells, keep);
      assert r.columns[c].cells == Filter(t.columns[c].cells, keep);
    }
  }

  /** A mask that keeps every row leaves the table as it was. */
  lemma FilterRowsAll(t: Table, keep: seq<bool>)
    requires Valid(t) && |keep| == t.rows
    requires forall i :: 0 <= i < |keep| ==> keep[i]
    ensures FilterRows(t, keep) == t
  {
    var r := FilterRows(t, keep);
    forall c | 0 <= c < |t.columns|
      ensures r.columns[c] == t.columns[c]
    {
      FilterAll(t.columns[c].cells, keep);
    }
    FilterAll(keep, keep);
    FilterSpec(keep, keep);
    assert r.columns == t.columns;
  }
}
