# Prompter layout engine in Dafny

A model of the layout engine in `prompter.py`. A `Layout` of fixed bounding size takes
elements, each with a size. It places them in three stages:

- **Loading** wraps the elements greedily into `Row`s no wider than the layout. An
  element wider than the layout stops loading with an error.
- **Stacking** gives row `i` the height `y = -i * H * spacing + H * start`, where `H` is
  the layout's height.
- **Alignment** lays each row's elements out left to right, centred on x = 0, and gives
  each element its row's y.

Modules:

- `Geometry`: the `Size` and `Position` values and half of a width.
- `Rows`: the `Element` and `Row` classes. A row keeps its width equal to the sum of its
  elements' widths.
- `Loading`: greedy wrapping as pure functions. `Place` puts one element and `Load` puts
  a whole list. Lemmas cover order, fit, forced breaks, stability of earlier rows and
  the error outcome.
- `Stacking`: the linear row height `RowY` and its monotonicity.
- `Alignment`: the centre-alignment loop (`AlignCenter`), proved against the closed
  form `CentreX`. Lemmas show the aligned elements are contiguous, centred and inside
  the row.
- `Prompter`: the `Layout` class. `LoadElements`, `StackRows` and `AlignRowsContent`
  change the rows and elements in place, and each is proved against the functions above.
- `Scenarios`: `SetUpLayout` is the test fixture's load, stack and align sequence for
  any size and elements; a too-wide element ends it after loading, as the raised error
  does. The concrete scenarios are the 100 x 20 layout with widths 5, 3 and 8 from
  `test.py`, a layout where a row overflows, and an element that is too wide.

The layout's float arithmetic is modelled on `real`. The loader's exception
`ElementLoadingError` becomes the outcome `TooWide(index, width, maxWidth)`. As in the
source, the elements placed before the failing one stay in their rows.

## Model

| member | source | states |
|---|---|---|
| Geometry.HalfWidth | prompter.py:27-29 | twice the half width is the width; for a non-negative width it lies between 0 and the width |
| Rows.Element.constructor | prompter.py:23-25 | a new element has the given size and sits at the origin (0, 0, 0) |
| Rows.Row.constructor | prompter.py:100-102 | a new row has size (0, 0), sits at the origin, holds no elements and satisfies its width invariant |
| Rows.Row.AddElement | prompter.py:104-107 | the element is appended at the end; the width becomes the sum of all element widths, i.e. grows by exactly the element's width; height and position are unchanged |
| Rows.Row.UpdateSize | prompter.py:109-111 | the width becomes the sum of the element widths; elements, height and position are unchanged |
| Rows.SumWidths | prompter.py:109-111 | the width a row recomputes: the elements' widths summed left to right from 0; never negative when no width is |
| Rows.SumWidthsAppend | prompter.py:111 | the summed width distributes over concatenation |
| Rows.SumWidthsPrefixBounds | prompter.py:111 | with no negative widths, the width of any prefix lies between 0 and the width of the whole row |
| Loading.Place | prompter.py:76-79 | placing one element adds at most one row |
| Loading.Load | prompter.py:72-79 | loading keeps at least one row and never drops a row; a too-wide outcome reports an index inside the input, at or after the starting index |
| Loading.PlaceOrder | prompter.py:76-79 | placing one element appends exactly that element to the rows read in order |
| Loading.PlaceFits | prompter.py:73-79 | placing an element no wider than the limit keeps every row within the limit |
| Loading.PlaceGreedy | prompter.py:76-77 | placing keeps every row break forced: a new row is opened only when the element would not fit after the last row's contents |
| Loading.PlaceExtends | prompter.py:76-79 | placing leaves earlier rows untouched and only grows the last row at its right end |
| Loading.PlaceAtLimit | prompter.py:76 | an element that brings the last row exactly to the limit stays in that row; only a strict overflow opens a new row |
| Loading.PlaceIntoOnlyRow | prompter.py:76-79 | an element that fits beside the contents of the only row is appended to that row |
| Loading.LoadOutcome | prompter.py:72-74 | loading completes if and only if every element fits the limit; otherwise it stops at the first element wider than the limit and reports its index, its width and the limit |
| Loading.LoadOrder | prompter.py:72-79 | the rows read in order are the earlier contents followed by the placed elements in input order; nothing is dropped, duplicated or reordered |
| Loading.LoadExtends | prompter.py:72-79 | loading never moves what is already placed: earlier rows stay as they were and the last row only grows at its end |
| Loading.LoadFits | prompter.py:73-79 | if every row fits before loading, every row fits after it |
| Loading.LoadGreedy | prompter.py:76-79 | every row break made while loading is forced and every row it opens is non-empty |
| Loading.FirstRowFromEmptyRow | prompter.py:130 | starting from the single empty row, that row stays empty exactly when nothing is placed |
| Loading.OrderFromEmptyRow | prompter.py:130 | starting from the single empty row, the rows read in order are exactly the placed prefix of the input |
| Loading.FitsFromEmptyRow | prompter.py:130 | starting from the single empty row, every row fits the limit, unless nothing was placed into a layout of negative width |
| Loading.BreaksFromEmptyRow | prompter.py:130 | starting from the single empty row, every break is forced and no row after the first is empty |
| Loading.LoadFromEmptyRow | prompter.py:70-79 | from a fresh layout: order preserved, rows fit, breaks forced, no empty row except the first when nothing was placed |
| Stacking.RowY | prompter.py:95 | row 0 sits at height * start; when height * spacing is not negative, no row sits above row 0 |
| Stacking.RowYLinear | prompter.py:95 | the first row is at height * start, and each next row is exactly height * spacing lower |
| Stacking.RowYDecreasing | prompter.py:93-95 | with a positive height and spacing, a row with a larger index is strictly lower |
| Alignment.PlaceAt | prompter.py:47-49 | one loop step: element i gets the i-th running x (the cursor plus half its width) and the row's y, earlier elements not written again keep theirs, the cursor moves right by the element's width so the remaining elements continue from it, and no z changes |
| Alignment.RunningXs | prompter.py:44-49 | the left-to-right pass yields exactly one x per element |
| Alignment.CentreX | prompter.py:44-49 | the closed-form centre of element k equals the x that the left-to-right pass computes when it starts at minus half the row's width |
| Alignment.AlignCenter | prompter.py:42-49 | each element's x is its centre when the row's elements are laid left to right from minus half the row's width; each y is the row's y; z is unchanged (an element listed twice keeps its last placement) |
| Alignment.PlaceLeftToRight | prompter.py:46-49 | the loop gives each element the running left edge plus half its width as x, and the row's y; z is unchanged |
| Alignment.RunningXsClosedForm | prompter.py:44-49 | the running left edge before element k is the start plus the widths of the elements before k |
| Alignment.AlignedContiguous | prompter.py:47-49 | after alignment each element's right edge is the next element's left edge |
| Alignment.AlignedCentred | prompter.py:44-49 | when the row's width is its elements' total width, the aligned contents span exactly from minus half to plus half of it |
| Alignment.AlignedWithinRow | prompter.py:44-49 | with no negative widths, every aligned element lies inside the row's span |
| Prompter.Layout.constructor | prompter.py:120-133 | a new layout has the given size and exactly one empty row at the origin |
| Prompter.Layout.LoadElements | prompter.py:70-79 | the new rows are what the greedy function `Load` gives and the outcome is its outcome; existing row objects are kept in place and new rows are fresh rows at the origin |
| Prompter.Layout.PlaceElement | prompter.py:76-79 | one loop step: the rows become `Place` of the old rows; new rows are fresh and at the origin |
| Prompter.Layout.OpenRow | prompter.py:76-77 | a fresh empty row at the origin is appended after the existing rows |
| Prompter.Layout.AppendToLastRow | prompter.py:79 | the element is appended to the last row only; no row object is replaced or moved |
| Prompter.Layout.StackRows | prompter.py:91-95 | row i's y becomes -i * H * spacing + H * start; its x, z, size and elements are unchanged |
| Prompter.Layout.SetRowY | prompter.py:95 | one stacking step: row i gets the new y; the layout's rows, contents and the row's size and x, z are unchanged |
| Prompter.Layout.AlignRowsContent | prompter.py:143-146 | every element, at its last placement, has its row's centred x and its row's y; z of every element is unchanged |
| Prompter.Layout.AlignRow | prompter.py:145-146 | aligning row i extends the aligned prefix of rows by one and changes no row |
| Scenarios.SetUpLayout | test.py:17-22 | for any size and elements, a fresh layout loads, then stacks at (0.25, 0.5) and aligns: its rows are the greedy `Load` from one empty row with its outcome; after a too-wide element (the raise at prompter.py:73-74 ends the set-up) every row stays at the origin and no element moves; otherwise row j sits at (0, RowY(j), 0) and, when no element is listed twice, every placed element sits at its row's centred x and at its row's y; no element's z changes |
| Scenarios.LoadAndStack | test.py:17-21 | a fresh layout holds the greedy `Load` from one empty row; its rows are stacked to (0, RowY(j), 0) only when loading completes and stay at the origin after a too-wide element; every element of its rows is one of the loaded elements |
| Scenarios.MembersPlaced | prompter.py:70-79 | after loading from the single empty row, every element of every row is one of the loaded elements |
| Scenarios.AlignedWhenDistinct | prompter.py:143-146 | when no element is listed twice, every element of an aligned layout is at its last placement, so it has its row's centred x and its row's y |
| Scenarios.ThreeElementsOneRow | test.py:12-47 | widths 5, 3 and 8 in a 100 x 20 layout fill one row at (0, 25, 0), and the elements end at (-5.5, 25, 0), (-1.5, 25, 0) and (4, 25, 0) |
| Scenarios.LoadWidths538 | test.py:12-25 | widths 5, 3 and 8 (16 in all) load into one row of a layout of width 20 and loading completes |
| Scenarios.CentresOf538 | test.py:37-47 | in a row of widths 5, 3 and 8 the centres are at -5.5, -1.5 and 4 |
| Scenarios.CentreOfOnly | prompter.py:44-49 | a row holding a single element is as wide as it and centres it at x = 0 |
| Scenarios.OverflowOpensRow | prompter.py:76-77 | two elements of width 15 in a layout of width 20 take two rows at y = 25 and y = -25, each centred at x = 0 |
| Scenarios.TooWideStopsLoading | prompter.py:73-74 | an element of width 25 in a layout of width 20 stops the set-up at its index; the element before it stays in the single row, and that row and that element stay at the origin |

## Left out

- The abstract strategy classes `RowAligner`, `ElementLoader` and `RowStacker` are not modelled, and neither is the delegation through them (`Row.align_elements`, the layout's stored strategies). Only the concrete strategies are modelled, bound directly into `Layout`, so the layout constructor takes only the size.
- The constructor's `content` argument is not modelled. It is stored in `_content` and never read.
- The text of the `ElementLoadingError` message is not modelled. The error is the outcome `TooWide` carrying the index, the element's width and the limit.
- IEEE float semantics (rounding, NaN, infinities) are not modelled: widths, heights and positions are `real`. The test's approximate comparisons become exact equalities. In the source a NaN width passes the too-wide test at prompter.py:73, makes the row's width NaN, and from then on the overflow test at prompter.py:76 is false for every element; the model has no such value.
- A `Row` placed as an element of another row is not modelled. In the source a row is itself a layout element. Here `Element` and `Row` are separate classes.
- `Position` is a value, not a shared mutable object. Two elements whose position is the same Python object would be aliased in the source, but not in the model. The constructor always gives each element its own position.
- The abstract `RowStacker.stack` declares its factors in the order (spacing, start). The concrete stacker and the layout use (start, spacing), and that is the order modelled.
- The unittest runner itself is not modelled. The `Scenarios` module restates its fixture and expected values.
