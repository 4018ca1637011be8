# holoviews: dask dataset interface and bokeh raster adapters, modelled in Dafny

This project models two pieces of holoviews as pure Dafny functions, lemmas and
a few methods.

1. **The dask dataset interface** (`DaskInterface` in
   `holoviews/core/data/dask.py`). A lazy dask frame is modelled as the table
   it computes: named columns of equal length, each with a numpy dtype kind.
   The model covers:
   - how `select_mask` turns a selection dictionary into a row mask;
   - how `select` applies that mask and unwraps a fully indexed single row into a scalar;
   - how `sample` or-combines equality masks;
   - how `groupby` lists its group keys;
   - which columns `aggregate` keeps and which reduction it dispatches;
   - `range`, `sort`, `unpack_scalar`, `add_dimension` and `shape`.
2. **The geometry of the bokeh raster plots** (`holoviews/plotting/bokeh/raster.py`).
   - The bounding box and the three inversions of `RasterPlot` and `RGBPlot`.
   - The opaque alpha channel that `RGBPlot` adds.
   - The x/y field swap, z order and NaN hover text of `HeatMapPlot`.
   - The patch filtering and quad edges of `QuadMeshPlot`.

Files:
- `values.dfy`: the cell values, the Python exceptions as a `Result`, and the comparison rules.
- `seqs.dfy`: mask filtering, `xs[:-1]`/`xs[1:]`, and list comprehensions.
- `tables.dfy`: columns, tables and datasets, plus `df[name]` and `df[mask]`.
- `dask_select.dfy`: `select_mask`, `select` and `sample`.
- `dask_group.dfy`: `groupby` and its key enumeration.
- `dask_interface.dfy`: the other interface methods.
- `grids.dfy`: 2-D arrays and their transposes, flips and flattening.
- `raster_plots.dfy`: `RasterPlot` and `RGBPlot`.
- `mesh_plots.dfy`: `HeatMapPlot` and `QuadMeshPlot`.

Comparisons follow the Python 2 and pandas rules the code runs under:
- Element-wise frame comparisons are false whenever a cell is missing (None or NaN).
- Python's own `==` on extracted key tuples has `None == None` true and `NaN == NaN` false.
- Numbers order by value, strings order lexicographically, and every number is smaller than every string.

Three behaviours of the source are modelled as written and worth knowing:
- An empty set or list selection key appends `None` as its mask (`dask.py:81-88`). The model treats a `None` mask as "no constraint". An empty set or list therefore selects every row (`DaskSelection.KeyPasses`).
- `HeatMapPlot.get_data` computes `zvals.T.flatten()` in both branches of its `invert_axes` test (`raster.py:145-149`). `MeshPlots.HeatMapZOrderIgnoresInvert` proves the z values do not depend on the option.
- In `QuadMeshPlot.get_data` the irregular branch flattens `zdata.T` under `invert_axes`, and the regular branch flattens `zdata` under `invert_axes`. `MeshPlots.RegularQuadCellPlain` and `MeshPlots.RegularQuadCellInverted` prove that, in both settings, each quad of the regular branch gets the z value of the cell its edges bound.

## Model

| member | source | states |
|---|---|---|
| Tables.Lookup | holoviews/core/data/dask.py:42 | `df[name]` yields the column of that name exactly when there is one, and KeyError otherwise |
| Tables.FilterRows | holoviews/core/data/dask.py:105-108 | `df[mask]` keeps every column, with its name and kind, and has as many rows as the mask has true entries |
| Tables.FilterRowsSpec | holoviews/core/data/dask.py:105-108 | row `j` of `df[mask]` is the `j`-th row of the original whose mask entry is true |
| Tables.FilterRowsAll | holoviews/core/data/dask.py:108 | an all-true mask leaves the frame unchanged |
| DaskSelection.Normalize | holoviews/core/data/dask.py:71-72 | `slice(*k)`: a 1-item tuple becomes a slice with only that stop, and a 2- or 3-item tuple a slice from its first item to its second. Any other size raises TypeError; every other key is left alone |
| DaskSelection.TupleKeyIsSlice | holoviews/core/data/dask.py:71-72 | replacing a tuple key by the slice with the same start and stop gives the same `select_mask` result |
| DaskSelection.StartMask | holoviews/core/data/dask.py:76-77 | the start mask admits a row iff `start <= cell` |
| DaskSelection.StopMask | holoviews/core/data/dask.py:78-79 | the stop mask admits a row iff `cell < stop` |
| DaskSelection.EqMask | holoviews/core/data/dask.py:91-92 | the literal mask admits a row iff its cell equals the literal element-wise |
| DaskSelection.ChoiceMask | holoviews/core/data/dask.py:80-88 | the or-fold over a set or list admits a row iff some item equals its cell; an empty set or list gives `None` |
| DaskSelection.ChoiceMaskIsDisjunction | holoviews/core/data/dask.py:80-88 | a set or list key passes a row iff the row matches at least one item, and an empty one passes every row |
| DaskSelection.DimMasksMeaning | holoviews/core/data/dask.py:73-92 | a row passes all masks built for one dimension iff it lies in the half-open slice (an omitted bound is unbounded), matches one of the set items, or equals the literal |
| DaskSelection.ConjoinAllMeaning | holoviews/core/data/dask.py:93-97 | accumulating masks with `&`, where the first mask initialises, admits a row iff every mask admits it |
| DaskSelection.SelectMask | holoviews/core/data/dask.py:61-98 | succeeds iff every dimension names a column and every tuple has 1 to 3 items; an empty selection yields no mask |
| DaskSelection.SelectMaskFromMeaning | holoviews/core/data/dask.py:69-98 | the loop over selection items admits a row iff the starting mask admits it and the row satisfies every item |
| DaskSelection.SelectMaskMeaning | holoviews/core/data/dask.py:69-98 | the combined mask admits exactly the rows that satisfy every key of the selection |
| DaskSelection.SelectMaskAsWrittenAgrees | holoviews/core/data/dask.py:93-97 | wherever the code as written does not raise, it yields the intended mask |
| DaskSelection.ConjoinAllAsWrittenRaises | holoviews/core/data/dask.py:93-97 | the inner loop as written raises ValueError exactly when some mask follows a built (non-`None`) one, and otherwise leaves the last mask it met |
| DaskSelection.SelectMaskAsWrittenRaises | holoviews/core/data/dask.py:69-98 | `select_mask` as written succeeds exactly when the selection is well formed and, of all the masks it builds in loop order, every one but the last is `None` |
| DaskSelection.AsWrittenRejectsBoundedRange | holoviews/core/data/dask.py:93-97 | for `select(x=(0, 10))` on a one-row frame, the code as written raises ValueError while the intended mask is `[true]` |
| DaskSelection.Select | holoviews/core/data/dask.py:100-111 | built on the corrected `select_mask`: a given `selection_mask` returns `df[selection_mask]`. A malformed selection raises. A scalar comes back only from an indexed selection with a value dimension, and any frame has the original columns and at most its rows. An error needs a malformed selection or an indexed one |
| DaskSelection.SelectedFrame | holoviews/core/data/dask.py:106-108 | with or without a mask, the frame `select` keeps is the original filtered by the row-level meaning of the selection |
| DaskSelection.SelectKeepsPassingRows | holoviews/core/data/dask.py:100-111 | unless a scalar is unwrapped, `select` returns exactly the rows satisfying every key, in order |
| DaskSelection.SelectEmptySelection | holoviews/core/data/dask.py:106-111 | an empty selection returns the frame unchanged |
| DaskSelection.SelectUnwrapsScalar | holoviews/core/data/dask.py:109-110 | a fully indexed selection leaving one row returns that row's cell of the first value dimension, or IndexError when there is no value dimension |
| DaskSelection.Zip | holoviews/core/data/dask.py:187 | `zip(dims, sample)` pairs position by position and stops at the shorter list |
| DaskSelection.OrPairs | holoviews/core/data/dask.py:184-192 | the or-accumulation succeeds iff every visited dimension is a column, and it produces a mask once any pair is visited |
| DaskSelection.OrPairsMeaning | holoviews/core/data/dask.py:184-192 | the accumulated mask admits a row iff the starting mask does or some visited pair matches the row |
| DaskSelection.SampleRows | holoviews/core/data/dask.py:180-193 | a bare `None` sample raises TypeError; a successful `sample` keeps every column and at most the original rows |
| DaskSelection.SampleMeaning | holoviews/core/data/dask.py:180-193 | `sample` keeps a row iff some sample has, at a position covered by both the key dimensions and the sample, a value equal to the row's cell. A bare `None` sample raises TypeError, and nothing to compare fails on `df[None]` |
| DaskSelection.SamplePairsInDims | holoviews/core/data/dask.py:183-187 | every compared dimension is a key dimension |
| DaskSelection.ScalarSampleIsList | holoviews/core/data/dask.py:186 | a scalar sample behaves as the one-element list holding it |
| DaskGrouping.TupleEqReflexive | holoviews/core/data/dask.py:127-130 | a key tuple equals itself under Python `==` iff it holds no NaN |
| DaskGrouping.UniqueKeys | holoviews/core/data/dask.py:127 | the `seen` loop yields exactly the reference list of keys at their first occurrence |
| DaskGrouping.FirstsSpec | holoviews/core/data/dask.py:127 | the enumerated keys are keys at their first occurrence, in occurrence order, pairwise unequal |
| DaskGrouping.FirstsCover | holoviews/core/data/dask.py:127 | every row key without NaN equals some enumerated key |
| DaskGrouping.MakeGroups | holoviews/core/data/dask.py:129-135 | one group per coordinate, holding the unwrapped key and the rows whose key equals it |
| DaskGrouping.CoordsWidth | holoviews/core/data/dask.py:126-127 | every coordinate has one component per grouping dimension |
| DaskGrouping.CoordsSpec | holoviews/core/data/dask.py:127-131 | coordinates hold no NaN, are pairwise unequal, and cover every row key without NaN |
| DaskGrouping.CoordsFirstSeenOrder | holoviews/core/data/dask.py:127-131 | earlier coordinates first occur earlier in the rows |
| DaskGrouping.KeyColumns | holoviews/core/data/dask.py:126 | `df[dimensions]` yields the named columns in order when every name is a column, and otherwise KeyError naming a missing one |
| DaskGrouping.GroupBy | holoviews/core/data/dask.py:113-135 | an empty dimension list raises ValueError, as the frame's `groupby([])` does. Otherwise it succeeds iff every grouping dimension is a column, with KeyError naming a missing one. Element dims are the kdims not grouped on, in kdim order, and a 1-tuple key is unwrapped |
| DaskGrouping.GroupByGroups | holoviews/core/data/dask.py:125-135 | groups correspond one to one with the distinct NaN-free keys, in first-seen order, and each holds exactly the rows with its key |
| DaskInterface.MinMax | holoviews/core/data/dask.py:43-47 | the result is a smallest and a largest non-missing cell, and there is none only when every cell is missing |
| DaskInterface.Range | holoviews/core/data/dask.py:40-47 | a non-dimension gives AttributeError and a missing column gives KeyError. Otherwise the result is the extreme non-null cells. Only an all-null object column gives IndexError, and any other all-missing column gives (NaN, NaN) |
| DaskInterface.MinMaxIgnoresMissing | holoviews/core/data/dask.py:43-44 | inserting a null anywhere never changes the range |
| DaskInterface.Sort | holoviews/core/data/dask.py:49-52 | sorting returns the data unchanged |
| DaskInterface.Inbuilt | holoviews/core/data/dask.py:152-153 | `amin` maps to `min` and `amax` to `max`; mean, std, sum and var map to themselves; nothing else is built in |
| DaskInterface.NumericValueColumns | holoviews/core/data/dask.py:146-149 | a column is kept iff it is a value dimension of kind i, u, f or c, and the kept names keep frame column order |
| DaskInterface.FirstMissing | holoviews/core/data/dask.py:150 | reindexing fails on a name that is not a column, and only then |
| DaskInterface.Aggregate | holoviews/core/data/dask.py:142-166 | grouping columns are the kdims among `dimensions` in kdim order, and value columns are the numeric vdims. A built-in name is dispatched to its frame method. With no dimensions and no built-in it raises NotImplementedError, dimensions naming no kdim raise ValueError from `groupby`, and a missing kdim column gives KeyError. The value columns keep frame column order |
| DaskInterface.UnpackScalar | holoviews/core/data/dask.py:168-178 | the cell is returned iff there is one column and one row, and the data is returned unchanged otherwise. One row with no column raises IndexError |
| DaskInterface.AddDimension | holoviews/core/data/dask.py:195-203 | an existing name leaves the frame unchanged, and a non-scalar (including `None`) raises NotImplementedError. Otherwise one constant column is appended, and the rows and the other columns are unchanged |
| DaskInterface.Shape | holoviews/core/data/dask.py:36-38 | `shape` is (the row count, which is the length of every column, the number of columns) |
| DaskInterface.ShapeAfterAddDimension | holoviews/core/data/dask.py:36-38 | `shape` after `add_dimension` has one more column (or is unchanged for an existing name) and the same row count |
| DaskInterface.ShapeAfterSelect | holoviews/core/data/dask.py:36-38 | `shape` after a selection is (number of passing rows, number of columns) |
| Grids.Transpose | holoviews/plotting/bokeh/raster.py:41 | `img.T` turns an N×M image into M×N, with cell (j, i) equal to cell (i, j) |
| Grids.FlipCols | holoviews/plotting/bokeh/raster.py:51 | `img[:, ::-1]` reverses every row and keeps the shape |
| Grids.FlipRows | holoviews/plotting/bokeh/raster.py:53 | `img[::-1]` reverses the row order and keeps the shape |
| Grids.TransposeInvolution | holoviews/plotting/bokeh/raster.py:41 | transposing twice gives the image back |
| Grids.FlipColsInvolution | holoviews/plotting/bokeh/raster.py:51 | reversing the columns twice gives the image back |
| Grids.FlipRowsInvolution | holoviews/plotting/bokeh/raster.py:53 | reversing the rows twice gives the image back |
| Grids.FlattenAt | holoviews/plotting/bokeh/raster.py:197 | `flatten()` lists the cells row by row: entry k is row k / M, column k % M |
| Grids.FlattenTransposeAt | holoviews/plotting/bokeh/raster.py:147-149 | `.T.flatten()` lists the cells column by column: entry k is row k % N, column k / N |
| RasterPlots.InitAxes | holoviews/plotting/bokeh/raster.py:18-21 | a plot of exactly-`Raster` elements toggles `invert_yaxis`, and every other option is kept |
| RasterPlots.Orient | holoviews/plotting/bokeh/raster.py:40-54 | after the inversions every output cell is the source cell found by undoing the flips, then the transpose. The shape is transposed only by `invert_axes`, and the box is the original one, with x and y exchanged under `invert_axes`, then left and right exchanged exactly when `invert_xaxis` is set and bottom and top exactly when `invert_yaxis` is set |
| RasterPlots.Emit | holoviews/plotting/bokeh/raster.py:55-57 | the glyph sits at `x = l`, `y = b`, and reaches `r` and `t` by `dw` and `dh` |
| RasterPlots.CastImage | holoviews/plotting/bokeh/raster.py:32-33 | a boolean image becomes 1 where true and 0 where false, with its shape kept |
| RasterPlots.BaseBounds | holoviews/plotting/bokeh/raster.py:35-44 | a `Raster` spans `(0, 0, len(xvals), len(yvals))`; any other element uses its own bounds |
| RasterPlots.RasterGetData | holoviews/plotting/bokeh/raster.py:23-58 | a static source sends no data. Otherwise the width is the x extent after the transpose swap, negated by an x flip, and the height likewise |
| RasterPlots.RasterUnitBounds | holoviews/plotting/bokeh/raster.py:35-39 | without inversions a `Raster` is placed at the origin with one unit per sample |
| RasterPlots.RasterDefaultIsTopDown | holoviews/plotting/bokeh/raster.py:20-21 | with default options a `Raster` has its rows reversed and runs down from `ycount`, so row 0 is drawn at the top |
| RasterPlots.InvertAxesTransposes | holoviews/plotting/bokeh/raster.py:40-47 | `invert_axes` alone transposes the image and maps `(l, b, r, t)` to `(b, l, t, r)` |
| RasterPlots.InvertXNegatesWidth | holoviews/plotting/bokeh/raster.py:49-51 | `invert_xaxis` reverses the rows, moves `x` to the old right edge and negates `dw`, and leaves the vertical placement alone |
| RasterPlots.InvertYNegatesHeight | holoviews/plotting/bokeh/raster.py:52-55 | `invert_yaxis` reverses the row order, moves `y` to the old top edge and negates `dh`, and leaves the horizontal placement alone |
| RasterPlots.DStack | holoviews/plotting/bokeh/raster.py:72-73 | stacking fails with ValueError iff there are no channels or two channels differ in shape. Otherwise pixel (i, j) lists every channel's value at (i, j) |
| RasterPlots.PadAlpha | holoviews/plotting/bokeh/raster.py:74-79 | a three-channel image gets a fourth channel (255 for uint8 data, 1 otherwise) with the other channels unchanged; any other depth is left alone |
| RasterPlots.RGBGetData | holoviews/plotting/bokeh/raster.py:67-100 | a static source sends no data. Otherwise, for the 3 or 4 channels an RGB element carries, the call fails iff stacking fails, and the placement follows the same swap-and-negate rules as `RasterPlot` |
| RasterPlots.RGBAddsOpaqueAlpha | holoviews/plotting/bokeh/raster.py:74-96 | every pixel of a three-channel uint8 image is sent with four channels, the last being 255, whatever the inversions |
| MeshPlots.FiniteMask | holoviews/plotting/bokeh/raster.py:200 | the mask is true exactly at the finite z values |
| MeshPlots.Labels | holoviews/plotting/bokeh/raster.py:150-153 | string coordinates are sent as they are, and others go through the dimension's formatter |
| MeshPlots.Hover | holoviews/plotting/bokeh/raster.py:157-160 | one hover column per value dimension, named after it |
| MeshPlots.HeatMapGetData | holoviews/plotting/bokeh/raster.py:133-162 | a static source sends no data; otherwise there is one z value per cell, and hover columns only with a hover tool |
| MeshPlots.HeatMapAxisSwap | holoviews/plotting/bokeh/raster.py:134-146 | `invert_axes` swaps the x and y field names, and each field carries its own dimension's labels |
| MeshPlots.HeatMapZOrderIgnoresInvert | holoviews/plotting/bokeh/raster.py:145-149 | the z values are the same whether or not `invert_axes` is set |
| MeshPlots.HeatMapZColumnMajor | holoviews/plotting/bokeh/raster.py:144-149 | z value k is row k % rows, column k / rows of the value array |
| MeshPlots.HeatMapHoverText | holoviews/plotting/bokeh/raster.py:159-160 | a NaN value shows as '-' and any other value as its formatted text; if the formatter never prints '-', a cell reads '-' iff its value is NaN |
| MeshPlots.IrregularZ | holoviews/plotting/bokeh/raster.py:197 | one z value per cell |
| MeshPlots.IrregularZInverted | holoviews/plotting/bokeh/raster.py:197 | under `invert_axes` the irregular z values run column by column (`zdata.T.flatten()`) |
| MeshPlots.IrregularZPlain | holoviews/plotting/bokeh/raster.py:197 | without `invert_axes` they run row by row (`zdata.flatten()`) |
| MeshPlots.PatchesStep | holoviews/plotting/bokeh/raster.py:199-202 | one loop step appends the truncated polygon exactly when its z value is finite |
| MeshPlots.IrregularPatches | holoviews/plotting/bokeh/raster.py:198-202 | the patch loop walks the shortest of the three lists and keeps, without its last vertex, each polygon whose z value is finite |
| MeshPlots.IrregularQuadMesh | holoviews/plotting/bokeh/raster.py:190-203 | the irregular branch emits the kept polygons and the finite z values, filtered but not truncated |
| MeshPlots.IrregularAligned | holoviews/plotting/bokeh/raster.py:197-203 | with one polygon per z value, the `xs`, `ys` and z lists have equal length (the number of finite z values), and entry j is the j-th finite value and its polygon without the closing vertex |
| MeshPlots.CartesianProduct | holoviews/plotting/bokeh/raster.py:207-208 | the product of a and b has `\|a\| * \|b\|` entries |
| MeshPlots.CartesianProductAt | holoviews/plotting/bokeh/raster.py:207-208 | entry k pairs `a[k / \|b\|]` with `b[k % \|b\|]` |
| MeshPlots.RegularZ | holoviews/plotting/bokeh/raster.py:209 | one z value per cell |
| MeshPlots.RegularQuadMesh | holoviews/plotting/bokeh/raster.py:204-211 | the four edge lists have `(\|xc\|-1) * (\|yc\|-1)` entries, and the z list one per cell |
| MeshPlots.EdgeProductsAt | holoviews/plotting/bokeh/raster.py:205-208 | entry `x * ny + y` of the products of `xc[:-1]`, `yc[:-1]` and of `xc[1:]`, `yc[1:]` spans edges `x, x + 1` and `y, y + 1`, so the y interval varies fastest |
| MeshPlots.RegularZInverted | holoviews/plotting/bokeh/raster.py:209 | under `invert_axes` the z values run row by row |
| MeshPlots.RegularZPlain | holoviews/plotting/bokeh/raster.py:209 | without `invert_axes` the z values run column by column |
| MeshPlots.RegularQuadCellPlain | holoviews/plotting/bokeh/raster.py:205-211 | without `invert_axes`, the quad over interval `i0` of the first key dimension and `i1` of the second spans those edges and carries value-array cell `[i1][i0]` |
| MeshPlots.RegularQuadCellInverted | holoviews/plotting/bokeh/raster.py:205-211 | under `invert_axes` the x and y edges are exchanged, and the quad over the same two intervals still carries cell `[i1][i0]` |

## Left out

- Dask laziness, partitioning and `.compute()`, including `init` and `default_partitions`: a frame is modelled as the table it computes.
- `values`, `concat`, `cast` and `dframe`: thin calls into dask outside the modelled core.
- Callable selection keys (`dask.py:89-90`): their result is whatever the callable returns, so the model has no such key.
- The numeric results of mean, std, var and sum: floating point and library-defined. `DaskInterface.Aggregate` returns which columns are reindexed, whether they are grouped, and which reduction is dispatched.
- `Interface.indexed` and `util.unique_iterator` are not part of this model. `indexed` is a parameter of `DaskSelection.Select`. `unique_iterator` is modelled from its name: first occurrences under Python `==`.
- `groupby`: the container and group types, the parameters copied into each group, and `get_group` on a key containing None. Each group is modelled as the rows whose key equals it.
- `DaskSelection.SampleRows`: a bare `None` sample is reported as TypeError before any KeyError an earlier sample might raise. The two orders agree whenever the key dimensions are columns.
- Mixed-type comparisons follow the Python 2 rule that numbers sort before strings. Newer pandas releases raise TypeError instead.
- A `None` mask produced after another mask (from an empty set or list) is treated as no constraint. `mask & None` is library-defined.
- The Python 2 `print` statement at `dask.py:104`.
- The `columns.warning(...)` call in `sort` (`dask.py:51`): logging only. `DaskInterface.Sort` returns the data unchanged, as the code does after the warning.
- `DaskSelection.Select`: it is built on the corrected `select_mask` (`DaskSelection.SelectMask`). As written, `select` raises ValueError whenever a mask follows one already built, that is whenever `NoneBeforeLast(Masks(t, sel))` fails, as `DaskSelection.SelectMaskAsWrittenRaises` states; see Findings.
- The scaling of float RGB data to uint8 and the `view(np.uint32)` packing (`raster.py:80-84`): float arithmetic and a platform-endian memory view. `RasterPlots.RGBGetData` returns the channel vectors before packing, so it does not model the error `view(np.uint32)` raises for a depth other than 4.
- `HSVPlot`: its conversion to RGB (`element.rgb`) is not part of this model.
- Everything Bokeh-specific: colour mappers, `HoverTool` detection (a boolean parameter here), glyph mappings other than the x/y field names, `_init_glyph` and `_glyph_properties`. `val_dim = element.vdims[0]` is used only for the colour mapper.
- `colormesh`, `pprint_value`, `dimension_sanitizer` and `cartesian_product` are not part of this model. The polygons from `colormesh` and the formatters are parameters, and dimension names are taken as already sanitized. `cartesian_product` is defined row-major with the first array varying slowest, as `np.ix_` broadcasting gives.
- The regular-grid hover columns (`raster.py:212-214`): they copy `dimension_values` unchanged.
- `MeshPlots.HeatMapGetData`: the gridding (`element.gridded`) and `dimension_values` are taken as given. The element holds the gridded coordinates and values.

## Findings

| source | as written | input that shows it | evidently intended | confidence | as-written member | corrected member |
|---|---|---|---|---|---|---|
| holoviews/core/data/dask.py:94 | `if select_mask:` asks the accumulated mask series for its truth value, which pandas and dask refuse with ValueError, so a second mask always raises | `select(x=(0, 10))`: the start and stop masks are two masks for one dimension | `if select_mask is not None:`, so the first mask initialises and later masks are and-ed | medium, not executed | DaskSelection.AsWrittenRejectsBoundedRange | DaskSelection.SelectMaskMeaning |
