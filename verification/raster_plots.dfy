/**
 The image geometry of the bokeh `RasterPlot` and `RGBPlot` adapters: the
 bounding box `(l, b, r, t)` of an image, the three optional inversions
 (transpose with a bounds swap, column reversal with an l/r swap, row
 reversal with a b/t swap) and the emitted glyph fields
 `x = l, y = b, dw = r - l, dh = t - b`; for RGB images, the stacking of the
 channels and the opaque alpha channel added to three-channel images.
 */
module RasterPlots {
  import opened Values
  import opened Grids

  datatype Bounds = Bounds(l: real, b: real, r: real, t: real)

  /** The plot options `invert_axes`, `invert_xaxis`, `invert_yaxis`. */
  datatype Axes = Axes(invertAxes: bool, invertX: bool, invertY: bool)

  /** Whether an element's type is exactly `Raster` (subclasses such as
      `Image` are not). */
  datatype ElementType = RasterType | OtherType

  /** `RasterPlot.__init__`: a plot of `Raster` elements flips its y axis. */
  function InitAxes(opts: Axes, hmapType: ElementType): (r: Axes)
    ensures r.invertAxes == opts.invertAxes && r.invertX == opts.invertX
    ensures hmapType == RasterType ==> r.invertY != opts.invertY
    ensures hmapType == OtherType ==> r == opts
  {
    if hmapType == RasterType then opts.(invertY := !opts.invertY) else opts
  }

  /** `l, b, r, t = b, l, t, r`. */
  function SwapAxes(bb: Bounds): Bounds {
    Bounds(bb.b, bb.l, bb.t, bb.r)
  }

  datatype Oriented<T> = Oriented(image: Grid<T>, bounds: Bounds)

  /** The inversion steps shared by both `get_data` methods. Cell `(i, j)` of
      the result comes from the source cell found by undoing the flips and
      then the transpose; the flips only exchange the two ends of an axis. */
  function Orient<T>(img: Grid<T>, bb: Bounds, axes: Axes): (o: Oriented<T>)
    requires Valid(img)
    ensures Valid(o.image)
    ensures axes.invertAxes ==> o.image.rows == img.cols && o.image.cols == img.rows
    ensures !axes.invertAxes ==> o.image.rows == img.rows && o.image.cols == img.cols
    ensures forall i, j :: 0 <= i < o.image.rows && 0 <= j < o.image.cols ==>
              var ii := if axes.invertY then o.image.rows - 1 - i else i;
              var jj := if axes.invertX then o.image.cols - 1 - j else j;
              o.image.cells[i][j] == (if axes.invertAxes then img.cells[jj][ii] else img.cells[ii][jj])
    ensures var s := if axes.invertAxes then SwapAxes(bb) else bb;
            o.bounds == Bounds(if axes.invertX then s.r else s.l, if axes.invertY then s.t else s.b,
                               if axes.invertX then s.l else s.r, if axes.invertY then s.b else s.t)
  {
    var g1 := if axes.invertAxes then Transpose(img) else img;
    var b1 := if axes.invertAxes then SwapAxes(bb) else bb;
    var g2 := if axes.invertX then FlipCols(g1) else g1;
    var b2 := if axes.invertX then b1.(l := b1.r, r := b1.l) else b1;
    var g3 := if axes.invertY then FlipRows(g2) else g2;
    var b3 := if axes.invertY then b2.(b := b2.t, t := b2.b) else b2;
    Oriented(g3, b3)
  }

  /** The glyph's data source: one image and its placement. */
  datatype ImageSource<T> = ImageSource(image: Grid<T>, x: real, y: real, dw: real, dh: real)

  function Emit<T>(o: Oriented<T>): (s: ImageSource<T>)
    ensures s.image == o.image
    ensures s.x == o.bounds.l && s.y == o.bounds.b
    ensures s.x + s.dw == o.bounds.r && s.y + s.dh == o.bounds.t
  {
    ImageSource(o.image, o.bounds.l, o.bounds.b, o.bounds.r - o.bounds.l, o.bounds.t - o.bounds.b)
  }

  // ----- RasterPlot -----

  /** The array `dimension_values(2, flat=False)`: booleans or numbers. */
  datatype RasterImage = BoolImage(bits: Grid<bool>) | NumericImage(values: Grid<real>)

  predicate ValidImage(img: RasterImage) {
    match img
    case BoolImage(g) => Valid(g)
    case NumericImage(g) => Valid(g)
  }

  /** A Raster-like element: its exact type, its array, the number of
      distinct x and y coordinates, and its bounds. */
  datatype RasterElement = RasterElement(etype: ElementType, image: RasterImage,
                                         xcount: nat, ycount: nat, bounds: Bounds)

  /** `img.astype(np.int8)` for a boolean image; other images are kept. */
  function CastImage(img: RasterImage): (g: Grid<real>)
    requires ValidImage(img)
    ensures Valid(g)
    ensures img.BoolImage? ==> g.rows == img.bits.rows && g.cols == img.bits.cols
    ensures img.BoolImage? ==> forall i, j :: 0 <= i < g.rows && 0 <= j < g.cols ==>
              (g.cells[i][j] == 1.0 <==> img.bits.cells[i][j]) &&
              (g.cells[i][j] == 0.0 <==> !img.bits.cells[i][j])
    ensures img.NumericImage? ==> g == img.values
  {
    match img
    case BoolImage(bits) => Map(bits, (x: bool) => if x then 1.0 else 0.0)
    case NumericImage(values) => values
  }

  /** The box before inversion: a `Raster` spans one unit per sample from the
      origin; any other element uses its declared bounds. */
  function BaseBounds(e: RasterElement): (bb: Bounds)
    ensures e.etype == RasterType ==> bb == Bounds(0.0, 0.0, e.xcount as real, e.ycount as real)
    ensures e.etype == OtherType ==> bb == e.bounds
  {
    if e.etype == RasterType then Bounds(0.0, 0.0, e.xcount as real, e.ycount as real) else e.bounds
  }

  /** `RasterPlot.get_data`; a static source sends no data. */
  function RasterGetData(e: RasterElement, axes: Axes, staticSource: bool): (r: Option<ImageSource<real>>)
    requires ValidImage(e.image)
    ensures r.None? <==> staticSource
    ensures r.Some? ==>
              var bb := BaseBounds(e);
              && r.value.dw == (if axes.invertAxes then bb.t - bb.b else bb.r - bb.l) * (if axes.invertX then -1.0 else 1.0)
              && r.value.dh == (if axes.invertAxes then bb.r - bb.l else bb.t - bb.b) * (if axes.invertY then -1.0 else 1.0)
  {
    if staticSource then None
    else Some(Emit(Orient(CastImage(e.image), BaseBounds(e), axes)))
  }

  /** Without inversions a `Raster` is placed at the origin, one unit per
      sample. */
  lemma RasterUnitBounds(e: RasterElement)
    requires ValidImage(e.image) && e.etype == RasterType
    ensures var s := RasterGetData(e, Axes(false, false, false), false).value;
            s.x == 0.0 && s.y == 0.0 && s.dw == e.xcount as real && s.dh == e.ycount as real
  {
  }

  /** A `Raster` plotted with default options has its first row at the top:
      the rows are reversed and the box runs down from `ycount`. */
  lemma RasterDefaultIsTopDown(e: RasterElement, i: nat, j: nat)
    requires ValidImage(e.image) && e.etype == RasterType
    requires var g := CastImage(e.image); i < g.rows && j < g.cols
    ensures var s := RasterGetData(e, InitAxes(Axes(false, false, false), RasterType), false).value;
            var g := CastImage(e.image);
            && s.x == 0.0 && s.dw == e.xcount as real
            && s.y == e.ycount as real && s.dh == -(e.ycount as real)
            && s.image.rows == g.rows && s.image.cells[i][j] == g.cells[g.rows - 1 - i][j]
  {
  }

  /** `invert_axes` transposes the image and exchanges width and height. */
  lemma InvertAxesTransposes<T>(img: Grid<T>, bb: Bounds)
    requires Valid(img)
    ensures var s := Emit(Orient(img, bb, Axes(true, false, false)));
            && s.image == Transpose(img)
            && s.x == bb.b && s.y == bb.l
            && s.dw == bb.t - bb.b && s.dh == bb.r - bb.l
  {
    var o := Orient(img, bb, Axes(true, false, false));
    var t := Transpose(img);
    forall i | 0 <= i < t.rows
      ensures o.image.cells[i] == t.cells[i]
    {
    }
  }

  /** Inverting the x axis places the image at the old right edge and
      negates its width; nothing vertical changes. */
  lemma InvertXNegatesWidth<T>(img: Grid<T>, bb: Bounds, invertAxes: bool, invertY: bool)
    requires Valid(img)
    ensures var plain := Emit(Orient(img, bb, Axes(invertAxes, false, invertY)));
            var flipped := Emit(Orient(img, bb, Axes(invertAxes, true, invertY)));
            && flipped.dw == -plain.dw
            && flipped.x == plain.x + plain.dw
            && flipped.y == plain.y && flipped.dh == plain.dh
            && flipped.image == FlipCols(plain.image)
  {
    var o := Orient(img, bb, Axes(invertAxes, false, invertY));
    var f := Orient(img, bb, Axes(invertAxes, true, invertY));
    var want := FlipCols(o.image);
    forall i | 0 <= i < f.image.rows
      ensures f.image.cells[i] == want.cells[i]
    {
    }
  }

  /** Inverting the y axis places the image at the old top edge and negates
      its height; nothing horizontal changes. */
  lemma InvertYNegatesHeight<T>(img: Grid<T>, bb: Bounds, invertAxes: bool, invertX: bool)
    requires Valid(img)
    ensures var plain := Emit(Orient(img, bb, Axes(invertAxes, invertX, false)));
            var flipped := Emit(Orient(img, bb, Axes(invertAxes, invertX, true)));
            && flipped.dh == -plain.dh
            && flipped.y == plain.y + plain.dh
            && flipped.x == plain.x && flipped.dw == plain.dw
            && flipped.image == FlipRows(plain.image)
  {
  }

  // ----- RGBPlot -----

  /** An RGB(A) element: one array per value dimension, whether they are
      `uint8`, and its bounds. */
  datatype RGBElement = RGBElement(channels: seq<Grid<real>>, uint8: bool, bounds: Bounds)

  predicate SameShape(a: Grid<real>, b: Grid<real>) {
    a.rows == b.rows && a.cols == b.cols
  }

  /** `np.dstack` of 2-D arrays: each pixel becomes the vector of its channel
      values. An empty list or arrays of different shapes raise ValueError. */
  function DStack(chs: seq<Grid<real>>): (r: Result<Grid<seq<real>>>)
    requires AllValid(chs)
    ensures r.Err? <==> |chs| == 0 || exists c :: 0 <= c < |chs| && !SameShape(chs[c], chs[0])
    ensures r.Err? ==> r.error == ValueError
    ensures r.Ok? ==> Valid(r.value) && r.value.rows == chs[0].rows && r.value.cols == chs[0].cols
    ensures r.Ok? ==> forall c :: 0 <= c < |chs| ==> SameShape(chs[c], chs[0])
    ensures r.Ok? ==> forall i, j :: 0 <= i < r.value.rows && 0 <= j < r.value.cols ==>
              |r.value.cells[i][j]| == |chs| &&
              forall c :: 0 <= c < |chs| ==> r.value.cells[i][j][c] == chs[c].cells[i][j]
  {
    if |chs| == 0 || exists c :: 0 <= c < |chs| && !SameShape(chs[c], chs[0]) then Err(ValueError)
    else
      var n, m := chs[0].rows, chs[0].cols;
      assert forall c :: 0 <= c < |chs| ==> SameShape(chs[c], chs[0]);
      Ok(Grid(n, m, seq(n, i requires 0 <= i < n =>
           seq(m, j requires 0 <= j < m =>
             seq(|chs|, c requires 0 <= c < |chs| => chs[c].cells[i][j])))))
  }

  /** The opaque alpha value: 255 for `uint8` data, 1 for float data. */
  function Opaque(uint8: bool): real {
    if uint8 then 255.0 else 1.0
  }

  /** A three-channel image gets an opaque fourth channel; any other depth is
      kept as it is. */
  function PadAlpha(img: Grid<seq<real>>, depth: nat, uint8: bool): (r: Grid<seq<real>>)
    requires Valid(img)
    ensures Valid(r) && r.rows == img.rows && r.cols == img.cols
    ensures depth != 3 ==> r == img
    ensures depth == 3 ==> forall i, j :: 0 <= i < r.rows && 0 <= j < r.cols ==>
              |r.cells[i][j]| == |img.cells[i][j]| + 1 &&
              r.cells[i][j][..|img.cells[i][j]|] == img.cells[i][j] &&
              r.cells[i][j][|img.cells[i][j]|] == Opaque(uint8)
  {
    if depth == 3 then Map(img, (p: seq<real>) => p + [Opaque(uint8)]) else img
  }

  /** `RGBPlot.get_data`, up to the packing of the bytes into `uint32`. */
  function RGBGetData(e: RGBElement, axes: Axes, staticSource: bool): (r: Result<Option<ImageSource<seq<real>>>>)
    requires AllValid(e.channels)
    ensures staticSource ==> r == Ok(None)
    ensures !staticSource ==> (r.Ok? <==> DStack(e.channels).Ok?)
    ensures r.Ok? && r.value.Some? ==>
              && r.value.value.dw == (if axes.invertAxes then e.bounds.t - e.bounds.b else e.bounds.r - e.bounds.l) * (if axes.invertX then -1.0 else 1.0)
              && r.value.value.dh == (if axes.invertAxes then e.bounds.r - e.bounds.l else e.bounds.t - e.bounds.b) * (if axes.invertY then -1.0 else 1.0)
  {
    if staticSource then Ok(None)
    else
      var img :- DStack(e.channels);
      var padded := PadAlpha(img, |e.channels|, e.uint8);
      var o := Orient(padded, e.bounds, axes);
      Ok(Some(Emit(o)))
  }

  /** Every pixel of a three-channel `uint8` image is sent with four channels,
      the last one fully opaque, whatever the inversions. */
  lemma RGBAddsOpaqueAlpha(e: RGBElement, axes: Axes, i: nat, j: nat)
    requires AllValid(e.channels)
    requires |e.channels| == 3 && e.uint8
    requires RGBGetData(e, axes, false).Ok?
    requires var s := RGBGetData(e, axes, false).value.value; i < s.image.rows && j < s.image.cols
    ensures var p := RGBGetData(e, axes, false).value.value.image.cells[i][j];
            |p| == 4 && p[3] == 255.0
  {
    var img := DStack(e.channels).value;
    var padded := PadAlpha(img, 3, true);
    var o := Orient(padded, e.bounds, axes);
    assert RGBGetData(e, axes, false).value.value.image == o.image;
  }
}
