/**
 The data the bokeh `HeatMapPlot` and `QuadMeshPlot` adapters send to their
 glyphs: the x/y field swap and the column-major z order of a heat map with
 its NaN-as-'-' hover text, the patches of an irregular quad mesh filtered
 to finite z values, and the quad edges of a regular one.
 */
module MeshPlots {
  import opened Values
  import opened Seqs
  import opened Grids

  /** A float z value. */
  datatype Float = Fin(x: real) | NaN | Inf(negative: bool)

  /** `np.isfinite` applied element-wise. */
  function FiniteMask(zs: seq<Float>): (r: seq<bool>)
    ensures |r| == |zs|
    ensures forall i :: 0 <= i < |zs| ==> (r[i] <==> zs[i].Fin?)
  {
    seq(|zs|, i requires 0 <= i < |zs| => zs[i].Fin?)
  }

  // ----- HeatMapPlot -----

  /** The coordinates of one axis of the gridded heat map: strings are sent as
      they are, anything else through the dimension's `pprint_value`. */
  datatype Axis = StrAxis(labels: seq<string>) | ValueAxis(values: seq<Value>)

  datatype HeatDim = HeatDim(name: string, axis: Axis)

  /** A heat map after gridding: its two key dimensions, the value array
      `dimension_values(2, flat=False)` and the flat values of each value
      dimension. */
  datatype HeatMapElement = HeatMapElement(xdim: HeatDim, ydim: HeatDim, z: Grid<Float>,
                                           vdims: seq<(string, seq<Float>)>)

  datatype HeatMapData = HeatMapData(xvals: seq<string>, yvals: seq<string>, zvalues: seq<Float>,
                                     hover: seq<(string, seq<string>)>)

  /** The glyph's x and y field names, and the data unless the source is
      static. */
  datatype HeatMapOutput = HeatMapOutput(xField: string, yField: string, data: Option<HeatMapData>)

  function Labels(d: HeatDim, pprint: (string, Value) -> string): (r: seq<string>)
    ensures d.axis.StrAxis? ==> r == d.axis.labels
    ensures d.axis.ValueAxis? ==> |r| == |d.axis.values|
    ensures d.axis.ValueAxis? ==> forall i :: 0 <= i < |r| ==> r[i] == pprint(d.name, d.axis.values[i])
  {
    match d.axis
    case StrAxis(labels) => labels
    case ValueAxis(values) => seq(|values|, i requires 0 <= i < |values| => pprint(d.name, values[i]))
  }

  /** The hover column of one value dimension: NaN is shown as '-'. */
  function HoverColumn(name: string, vs: seq<Float>, pprint: (string, Float) -> string): (r: seq<string>)
    ensures |r| == |vs|
  {
    seq(|vs|, i requires 0 <= i < |vs| => if vs[i].NaN? then "-" else pprint(name, vs[i]))
  }

  function Hover(vdims: seq<(string, seq<Float>)>, pprint: (string, Float) -> string): (r: seq<(string, seq<string>)>)
    ensures |r| == |vdims|
    ensures forall k :: 0 <= k < |vdims| ==> r[k].0 == vdims[k].0
  {
    seq(|vdims|, k requires 0 <= k < |vdims| => (vdims[k].0, HoverColumn(vdims[k].0, vdims[k].1, pprint)))
  }

  /** `HeatMapPlot.get_data`. Dimension names are taken as already sanitized. */
  function HeatMapGetData(e: HeatMapElement, invertAxes: bool, staticSource: bool, hoverTool: bool,
                          pprint: (string, Value) -> string, pprintZ: (string, Float) -> string): (r: HeatMapOutput)
    requires Valid(e.z)
    ensures r.data.None? <==> staticSource
    ensures r.data.Some? ==> |r.data.value.zvalues| == e.z.rows * e.z.cols
    ensures r.data.Some? ==> (|r.data.value.hover| > 0 ==> hoverTool)
  {
    var xd := if invertAxes then e.ydim else e.xdim;
    var yd := if invertAxes then e.xdim else e.ydim;
    if staticSource then HeatMapOutput(xd.name, yd.name, None)
    else
      var zvals := if invertAxes then Flatten(Transpose(e.z)) else Flatten(Transpose(e.z));
      FlattenLength(Transpose(e.z));
      var hover := if hoverTool then Hover(e.vdims, pprintZ) else [];
      HeatMapOutput(xd.name, yd.name, Some(HeatMapData(Labels(xd, pprint), Labels(yd, pprint), zvals, hover)))
  }

  /** `invert_axes` exchanges the x and y fields, and each field carries the
      labels of the dimension it is named after. */
  lemma HeatMapAxisSwap(e: HeatMapElement, staticSource: bool, hoverTool: bool,
                        pprint: (string, Value) -> string, pprintZ: (string, Float) -> string)
    requires Valid(e.z)
    ensures var r := HeatMapGetData(e, false, staticSource, hoverTool, pprint, pprintZ);
            r.xField == e.xdim.name && r.yField == e.ydim.name &&
            (r.data.Some? ==> r.data.value.xvals == Labels(e.xdim, pprint) && r.data.value.yvals == Labels(e.ydim, pprint))
    ensures var r := HeatMapGetData(e, true, staticSource, hoverTool, pprint, pprintZ);
            r.xField == e.ydim.name && r.yField == e.xdim.name &&
            (r.data.Some? ==> r.data.value.xvals == Labels(e.ydim, pprint) && r.data.value.yvals == Labels(e.xdim, pprint))
  {
  }

  /** Both branches of the `invert_axes` test produce the same z values. */
  lemma HeatMapZOrderIgnoresInvert(e: HeatMapElement, staticSource: bool, hoverTool: bool,
                                   pprint: (string, Value) -> string, pprintZ: (string, Float) -> string)
    requires Valid(e.z) && !staticSource
    ensures HeatMapGetData(e, true, staticSource, hoverTool, pprint, pprintZ).data.value.zvalues ==
            HeatMapGetData(e, false, staticSource, hoverTool, pprint, pprintZ).data.value.zvalues
  {
  }

  /** The z values run down the columns of the value array: entry `k` is row
      `k % rows`, column `k / rows`. */
  lemma HeatMapZColumnMajor(e: HeatMapElement, invertAxes: bool, hoverTool: bool,
                            pprint: (string, Value) -> string, pprintZ: (string, Float) -> string, k: nat)
    requires Valid(e.z) && k < e.z.rows * e.z.cols
    ensures var zs := HeatMapGetData(e, invertAxes, false, hoverTool, pprint, pprintZ).data.value.zvalues;
            k < |zs| && e.z.rows > 0 && k / e.z.rows < e.z.cols &&
            zs[k] == e.z.cells[k % e.z.rows][k / e.z.rows]
  {
    FlattenTransposeAt(e.z, k);
  }

  /** With a hover tool every value dimension gets a text column; a cell reads
      '-' exactly when its value is NaN, provided the formatter never prints
      '-' itself, and otherwise it is the formatted value. */
  lemma HeatMapHoverText(e: HeatMapElement, invertAxes: bool,
                         pprint: (string, Value) -> string, pprintZ: (string, Float) -> string, k: nat, i: nat)
    requires Valid(e.z) && k < |e.vdims| && i < |e.vdims[k].1|
    ensures var h := HeatMapGetData(e, invertAxes, false, true, pprint, pprintZ).data.value.hover;
            && |h| == |e.vdims| && h[k].0 == e.vdims[k].0 && |h[k].1| == |e.vdims[k].1|
            && (e.vdims[k].1[i].NaN? ==> h[k].1[i] == "-")
            && (!e.vdims[k].1[i].NaN? ==> h[k].1[i] == pprintZ(e.vdims[k].0, e.vdims[k].1[i]))
            && ((forall v :: pprintZ(e.vdims[k].0, v) != "-") ==> (h[k].1[i] == "-" <==> e.vdims[k].1[i].NaN?))
  {
  }

  // ----- QuadMeshPlot, irregular grids -----

  /** `zdata.T.flatten()` under `invert_axes`, `zdata.flatten()` otherwise. */
  function IrregularZ(zdata: Grid<Float>, invertAxes: bool): (r: seq<Float>)
    requires Valid(zdata)
    ensures |r| == zdata.rows * zdata.cols
  {
    FlattenLength(zdata);
    FlattenLength(Transpose(zdata));
    if invertAxes then Flatten(Transpose(zdata)) else Flatten(zdata)
  }

  /** Under `invert_axes` the irregular z values run down the columns. */
  lemma IrregularZInverted(zdata: Grid<Float>, k: nat)
    requires Valid(zdata) && k < zdata.rows * zdata.cols
    ensures zdata.rows > 0 && k / zdata.rows < zdata.cols && k < |IrregularZ(zdata, true)|
    ensures IrregularZ(zdata, true)[k] == zdata.cells[k % zdata.rows][k / zdata.rows]
  {
    FlattenTransposeAt(zdata, k);
    assert IrregularZ(zdata, true) == Flatten(Transpose(zdata));
  }

  /** Otherwise they run along the rows. */
  lemma IrregularZPlain(zdata: Grid<Float>, k: nat)
    requires Valid(zdata) && k < zdata.rows * zdata.cols
    ensures zdata.cols > 0 && k / zdata.cols < zdata.rows && k < |IrregularZ(zdata, false)|
    ensures IrregularZ(zdata, false)[k] == zdata.cells[k / zdata.cols][k % zdata.cols]
  {
    FlattenAt(zdata, k);
    assert IrregularZ(zdata, false) == Flatten(zdata);
  }

  function Min(a: nat, b: nat): nat {
    if a < b then a else b
  }

  /** The first `n` polygons with their last vertex dropped, kept where the
      z value is finite: the reference for the loop below. */
  function Patches(ps: seq<seq<real>>, zvals: seq<Float>, n: nat): seq<seq<real>>
    requires n <= |ps| && n <= |zvals|
  {
    Filter(seq(n, i requires 0 <= i < n => DropLast(ps[i])), FiniteMask(zvals[..n]))
  }

  lemma PatchesStep(ps: seq<seq<real>>, zvals: seq<Float>, n: nat)
    requires n < |ps| && n < |zvals|
    ensures Patches(ps, zvals, n + 1) ==
            Patches(ps, zvals, n) + (if zvals[n].Fin? then [DropLast(ps[n])] else [])
  {
    var xs := seq(n + 1, i requires 0 <= i < n + 1 => DropLast(ps[i]));
    var keep := FiniteMask(zvals[..n + 1]);
    assert xs[..n] == seq(n, i requires 0 <= i < n => DropLast(ps[i]));
    assert keep[..n] == FiniteMask(zvals[..n]);
  }

  /** The patch loop: `zip` stops at the shortest of the three lists. */
  method IrregularPatches(xs: seq<seq<real>>, ys: seq<seq<real>>, zvals: seq<Float>)
    returns (px: seq<seq<real>>, py: seq<seq<real>>)
    ensures var n := Min(Min(|xs|, |ys|), |zvals|);
            px == Patches(xs, zvals, n) && py == Patches(ys, zvals, n)
  {
    var n := Min(Min(|xs|, |ys|), |zvals|);
    px, py := [], [];
    var i := 0;
    while i < n
      invariant 0 <= i <= n
      invariant px == Patches(xs, zvals, i) && py == Patches(ys, zvals, i)
    {
      PatchesStep(xs, zvals, i);
      PatchesStep(ys, zvals, i);
      if zvals[i].Fin? {
        px := px + [DropLast(xs[i])];
        py := py + [DropLast(ys[i])];
      }
      i := i + 1;
    }
  }

  datatype IrregularData = IrregularData(xs: seq<seq<real>>, ys: seq<seq<real>>, z: seq<Float>)

  /** The irregular branch of `QuadMeshPlot.get_data`, from the polygons that
      `colormesh` built from the coordinate edges. */
  method IrregularQuadMesh(polysX: seq<seq<real>>, polysY: seq<seq<real>>, zdata: Grid<Float>, invertAxes: bool)
    returns (d: IrregularData)
    requires Valid(zdata)
    ensures var zvals := IrregularZ(zdata, invertAxes);
            var n := Min(Min(|polysX|, |polysY|), |zvals|);
            && d.xs == Patches(polysX, zvals, n) && d.ys == Patches(polysY, zvals, n)
            && d.z == Filter(zvals, FiniteMask(zvals))
  {
    var zvals := IrregularZ(zdata, invertAxes);
    var px, py := IrregularPatches(polysX, polysY, zvals);
    d := IrregularData(px, py, Filter(zvals, FiniteMask(zvals)));
  }

  /** When there is one polygon per z value, the patches and the z values
      line up: one entry per finite z value, polygon `j` being the polygon of
      the `j`-th finite value without its closing vertex. */
  lemma IrregularAligned(polysX: seq<seq<real>>, polysY: seq<seq<real>>, zvals: seq<Float>)
    requires |polysX| == |zvals| && |polysY| == |zvals|
    ensures var keep := FiniteMask(zvals);
            var n := |zvals|;
            && |Patches(polysX, zvals, n)| == Count(keep)
            && |Patches(polysY, zvals, n)| == Count(keep)
            && |Filter(zvals, keep)| == Count(keep)
            && forall j :: 0 <= j < Count(keep) ==>
                 Kept(keep)[j] < n &&
                 Filter(zvals, keep)[j] == zvals[Kept(keep)[j]] && Filter(zvals, keep)[j].Fin? &&
                 Patches(polysX, zvals, n)[j] == DropLast(polysX[Kept(keep)[j]]) &&
                 Patches(polysY, zvals, n)[j] == DropLast(polysY[Kept(keep)[j]])
  {
    var n := |zvals|;
    var keep := FiniteMask(zvals);
    assert zvals[..n] == zvals;
    var dx := seq(n, i requires 0 <= i < n => DropLast(polysX[i]));
    var dy := seq(n, i requires 0 <= i < n => DropLast(polysY[i]));
    FilterSpec(dx, keep);
    FilterSpec(dy, keep);
    FilterSpec(zvals, keep);
    KeptSpec(keep);
  }

  // ----- QuadMeshPlot, regular grids -----

  /** `cartesian_product([a, b])`: every pair of an `a` value and a `b` value,
      with `a` varying slowest. */
  function CartesianProduct(a: seq<real>, b: seq<real>): (r: (seq<real>, seq<real>))
    ensures |r.0| == |a| * |b| && |r.1| == |a| * |b|
  {
    var n := |a| * |b|;
    (seq(n, k requires 0 <= k < n => DivBound(k, |a|, |b|); a[k / |b|]),
     seq(n, k requires 0 <= k < n => DivBound(k, |a|, |b|); b[k % |b|]))
  }

  /** Entry `i * |b| + j` of the product pairs `a[i]` with `b[j]`, and every
      entry is such a pair. */
  lemma CartesianProductAt(a: seq<real>, b: seq<real>, k: nat)
    requires k < |a| * |b|
    ensures |b| > 0 && k / |b| < |a| && k % |b| < |b|
    ensures CartesianProduct(a, b).0[k] == a[k / |b|] && CartesianProduct(a, b).1[k] == b[k % |b|]
  {
    DivBound(k, |a|, |b|);
  }

  datatype Quads = Quads(left: seq<real>, right: seq<real>, bottom: seq<real>, top: seq<real>, z: seq<Float>)

  /** `zdata.flatten()` under `invert_axes`, `zdata.T.flatten()` otherwise:
      the opposite choice from the irregular branch. */
  function RegularZ(zdata: Grid<Float>, invertAxes: bool): (r: seq<Float>)
    requires Valid(zdata)
    ensures |r| == zdata.rows * zdata.cols
  {
    FlattenLength(zdata);
    FlattenLength(Transpose(zdata));
    if invertAxes then Flatten(zdata) else Flatten(Transpose(zdata))
  }

  /** The regular branch of `QuadMeshPlot.get_data`, from the coordinate edges
      of the two key dimensions; `invert_axes` exchanges them. */
  function RegularQuadMesh(edges0: seq<real>, edges1: seq<real>, zdata: Grid<Float>, invertAxes: bool): (q: Quads)
    requires Valid(zdata)
    ensures var nx := |DropLast(if invertAxes then edges1 else edges0)|;
            var ny := |DropLast(if invertAxes then edges0 else edges1)|;
            && |q.left| == nx * ny && |q.right| == nx * ny
            && |q.bottom| == nx * ny && |q.top| == nx * ny
            && |q.z| == zdata.rows * zdata.cols
  {
    var xc := if invertAxes then edges1 else edges0;
    var yc := if invertAxes then edges0 else edges1;
    var lowers := CartesianProduct(DropLast(xc), DropLast(yc));
    var uppers := CartesianProduct(DropFirst(xc), DropFirst(yc));
    Quads(lowers.0, uppers.0, lowers.1, uppers.1, RegularZ(zdata, invertAxes))
  }

  /** Pair `x * ny + y` of the lower and upper edge products is the
      interval pair `(x, x + 1)`, `(y, y + 1)`: `y` varies fastest. */
  lemma EdgeProductsAt(xc: seq<real>, yc: seq<real>, x: nat, y: nat)
    requires x + 1 < |xc| && y + 1 < |yc|
    ensures var k := x * (|yc| - 1) + y;
            var lowers := CartesianProduct(DropLast(xc), DropLast(yc));
            var uppers := CartesianProduct(DropFirst(xc), DropFirst(yc));
            && k < |lowers.0| && k < |uppers.0|
            && lowers.0[k] == xc[x] && uppers.0[k] == xc[x + 1]
            && lowers.1[k] == yc[y] && uppers.1[k] == yc[y + 1]
  {
    var nx, ny := |xc| - 1, |yc| - 1;
    QuadIndex(x, y, nx, ny);
    var k := x * ny + y;
    assert |DropFirst(xc)| == nx == |DropLast(xc)| && |DropFirst(yc)| == ny == |DropLast(yc)|;
    CartesianProductAt(DropLast(xc), DropLast(yc), k);
    CartesianProductAt(DropFirst(xc), DropFirst(yc), k);
  }

  /** Under `invert_axes` the regular z values run along the rows. */
  lemma RegularZInverted(zdata: Grid<Float>, k: nat)
    requires Valid(zdata) && k < zdata.rows * zdata.cols
    ensures zdata.cols > 0 && k / zdata.cols < zdata.rows && k < |RegularZ(zdata, true)|
    ensures RegularZ(zdata, true)[k] == zdata.cells[k / zdata.cols][k % zdata.cols]
  {
    FlattenAt(zdata, k);
    assert RegularZ(zdata, true) == Flatten(zdata);
  }

  /** Otherwise they run down the columns. */
  lemma RegularZPlain(zdata: Grid<Float>, k: nat)
    requires Valid(zdata) && k < zdata.rows * zdata.cols
    ensures zdata.rows > 0 && k / zdata.rows < zdata.cols && k < |RegularZ(zdata, false)|
    ensures RegularZ(zdata, false)[k] == zdata.cells[k % zdata.rows][k / zdata.rows]
  {
    FlattenTransposeAt(zdata, k);
    assert RegularZ(zdata, false) == Flatten(Transpose(zdata));
  }

  /** `a < b` leaves a whole `n` between `a * n` and `b * n`. */
  lemma MulGap(a: nat, b: nat, n: nat)
    requires a < b
    ensures a * n + n <= b * n
  {
    var c := b - a;
    assert b == a + c;
    assert (a + c) * n == a * n + c * n;
    assert (c - 1) * n >= 0;
    assert c * n == (c - 1) * n + n;
  }

  /** Quad `x * ny + y` of an `nx × ny` product is pair `(x, y)`. */
  lemma QuadIndex(x: nat, y: nat, nx: nat, ny: nat)
    requires x < nx && y < ny
    ensures x * ny + y < nx * ny
    ensures (x * ny + y) / ny == x && (x * ny + y) % ny == y
  {
    var k := x * ny + y;
    MulGap(x, nx, ny);
    DivBound(k, nx, ny);
    var d, m := k / ny, k % ny;
    if d > x {
      MulGap(x, d, ny);
    } else if d < x {
      MulGap(d, x, ny);
    }
  }

  /** The quad over interval `i0` of the first key dimension's edges and
      interval `i1` of the second's carries cell `[i1][i0]`, when the value
      array has one row per interval of the second key dimension and one
      column per interval of the first. Without `invert_axes` the x edges are
      the first key dimension's, and its interval varies slowest. */
  lemma RegularQuadCellPlain(edges0: seq<real>, edges1: seq<real>, zdata: Grid<Float>, i0: nat, i1: nat)
    requires Valid(zdata) && zdata.rows == |edges1| - 1 && zdata.cols == |edges0| - 1
    requires i0 < zdata.cols && i1 < zdata.rows
    ensures var q := RegularQuadMesh(edges0, edges1, zdata, false);
            var k := i0 * zdata.rows + i1;
            && k < |q.left| && k < |q.z|
            && q.left[k] == edges0[i0] && q.right[k] == edges0[i0 + 1]
            && q.bottom[k] == edges1[i1] && q.top[k] == edges1[i1 + 1]
            && q.z[k] == zdata.cells[i1][i0]
  {
    var k := i0 * zdata.rows + i1;
    QuadIndex(i0, i1, zdata.cols, zdata.rows);
    assert k < zdata.rows * zdata.cols by {
      assert zdata.cols * zdata.rows == zdata.rows * zdata.cols;
    }
    EdgeProductsAt(edges0, edges1, i0, i1);
    RegularZPlain(zdata, k);
  }

  /** Under `invert_axes` the x edges are the second key dimension's, its
      interval varies slowest, and the quad over the same two intervals
      carries the same cell `[i1][i0]`. */
  lemma RegularQuadCellInverted(edges0: seq<real>, edges1: seq<real>, zdata: Grid<Float>, i0: nat, i1: nat)
    requires Valid(zdata) && zdata.rows == |edges1| - 1 && zdata.cols == |edges0| - 1
    requires i0 < zdata.cols && i1 < zdata.rows
    ensures var q := RegularQuadMesh(edges0, edges1, zdata, true);
            var k := i1 * zdata.cols + i0;
            && k < |q.left| && k < |q.z|
            && q.left[k] == edges1[i1] && q.right[k] == edges1[i1 + 1]
            && q.bottom[k] == edges0[i0] && q.top[k] == edges0[i0 + 1]
            && q.z[k] == zdata.cells[i1][i0]
  {
    var k := i1 * zdata.cols + i0;
    QuadIndex(i1, i0, zdata.rows, zdata.cols);
    EdgeProductsAt(edges1, edges0, i1, i0);
    RegularZInverted(zdata, k);
  }

}
