# HashtagView: tag ordering, measuring and row packing

HashtagView is an Android widget that shows a list of tags ("hashtags") as
rows of small views. It works in three steps before anything is drawn:

- `setData` builds one `ItemData` entry per input and sorts the entries by
  title with `String.compareTo`.
- `wrap` gives each entry a width. The width is the measured text width plus
  the item paddings and margins, and never less than the minimum item width.
  `wrap` also adds every width to the running field `totalItemsWidth`.
- `sort` estimates a row count, `ceil(totalItemsWidth / innerWidth)`. It then
  makes passes over the rows. On each row's turn in a pass, the row takes
  the first remaining entry that strictly fits under the full view width.
  The entry leaves the list `data` and is appended to that row in the
  multimap `viewMap`.

The model has four modules:

- `Items` (`items.dfy`) holds the `ItemData` record as the value `Item`, and
  the width arithmetic of `wrap`.
- `Titles` (`titles.dfy`) holds `String.compareTo` and the stable sort by
  title that `Collections.sort` performs.
- `Packing` (`packing.dfy`) states the row packing as functions on values:
  - `Step` is one row's turn;
  - `Pass` is one pass of the labelled `for` loop;
  - `Pack` is the outer `while` loop.
  It also proves what the packing guarantees.
- `View` (`view.dfy`) holds the widget as the class `HashtagView`, whose
  fields `data`, `viewMap` and `totalItemsWidth` its methods update in place.
  `SetData` and `SetDataTransformed` fill a list in a loop and sort it.
  `Wrap` gives every entry its width through `MeasureEach`, the loop of
  `wrap` on the list's value. `Sort` runs the three nested
  loops of the source over a `nat` array `rowsWidth`. Each inner loop is its
  own method: `PlacePass` is the labelled `for` loop, `TakeFirstFit` is the
  iterator scan of one row, whose `return` after a placement plays the part
  of `continue rowIteration`, and `PlaceAt` is the placement itself. Each
  method is proved equal to the specification functions above.

The packing can run forever. When a whole pass places nothing, the state is
left exactly as it was (`PassProgress`), so the source's `while` loop never
ends. Three cases lead there:
- an entry at least as wide as the view (`OversizedItemNeverPacked`);
- an estimate of 0 rows while entries remain;
- an estimate that is simply too small: three entries of width 60 in a view
  100 wide give 2 rows and stay stuck (`SortLoopsOnThreeTags`).

The model's `Sort` returns `Diverges` at that point instead of looping. So
the hazard is not limited to a tag wider than the view. The row count comes
from the padded inner width, but the fit test uses the full `getWidth()`,
and the model keeps the two apart as the code does.

A null or empty tag list is a no-op for `wrap` only. In `sort`, a list that
was never set is dereferenced: `data.size()` at line 178 throws. The model
follows the code and returns `NullData`.

## Model

| member | source | states |
|---|---|---|
| `Items.MaxWidth` | library/src/main/java/com/greenfrvr/hashtagview/HashtagView.java:164 | `Math.max`: the result is at least both widths and is one of them |
| `Items.TotalWidth` | library/src/main/java/com/greenfrvr/hashtagview/HashtagView.java:168 | the running sum `totalItemsWidth += width`, taken from the front |
| `Items.TotalWidthBounds` | library/src/main/java/com/greenfrvr/hashtagview/HashtagView.java:168 | no entry is wider than the sum of the widths |
| `Items.Remove` | library/src/main/java/com/greenfrvr/hashtagview/HashtagView.java:192 | `data.remove(item)`: the list loses exactly that one entry, and the entries before and after it keep their order |
| `Items.ItemWidth` | library/src/main/java/com/greenfrvr/hashtagview/HashtagView.java:163-164 | the width is at least the text width plus the offset and at least `minItemWidth`, and is one of the two |
| `Items.MeasuredItem` | library/src/main/java/com/greenfrvr/hashtagview/HashtagView.java:163-166 | a measured entry keeps its payload and title, and its width obeys `ItemWidth`'s bounds |
| `Items.Measured` | library/src/main/java/com/greenfrvr/hashtagview/HashtagView.java:151-166 | wrap keeps the number and order of entries, and measures each one |
| `Items.MeasuredTotalAtLeast` | library/src/main/java/com/greenfrvr/hashtagview/HashtagView.java:164-168 | the widths wrap adds up are at least the number of entries times `minItemWidth` |
| `Titles.CompareTo` | library/src/main/java/com/greenfrvr/hashtagview/HashtagView.java:124 | `String.compareTo`: the difference of the first differing characters, else of the lengths; equal titles compare as 0 |
| `Titles.CompareToPrefix` | library/src/main/java/com/greenfrvr/hashtagview/HashtagView.java:124 | a title that is a prefix of another compares below it by the difference of their lengths |
| `Titles.CompareToAntisymmetric` | library/src/main/java/com/greenfrvr/hashtagview/HashtagView.java:124 | `a.compareTo(b) == -b.compareTo(a)` |
| `Titles.CompareToZeroIffEqual` | library/src/main/java/com/greenfrvr/hashtagview/HashtagView.java:124 | `compareTo` returns 0 exactly for equal titles |
| `Titles.CompareToTransitive` | library/src/main/java/com/greenfrvr/hashtagview/HashtagView.java:124 | `compareTo <= 0` is transitive, so the comparator is the total preorder `Collections.sort` needs |
| `Titles.Insert` | library/src/main/java/com/greenfrvr/hashtagview/HashtagView.java:121-126 | inserting adds exactly the one entry |
| `Titles.InsertSorted` | library/src/main/java/com/greenfrvr/hashtagview/HashtagView.java:121-126 | inserting into a list sorted by title keeps it sorted |
| `Titles.SortByTitle` | library/src/main/java/com/greenfrvr/hashtagview/HashtagView.java:121-126 | the sorted list is ascending by `compareTo` and is a permutation of the input |
| `Titles.InsertKeepsTitles` | library/src/main/java/com/greenfrvr/hashtagview/HashtagView.java:121-126 | inserting adds exactly the entry's title to the multiset of titles |
| `Titles.SortKeepsTitles` | library/src/main/java/com/greenfrvr/hashtagview/HashtagView.java:121-126 | sorting neither adds nor drops a title |
| `Titles.InsertWithTitle` | library/src/main/java/com/greenfrvr/hashtagview/HashtagView.java:134-139 | an inserted entry lands ahead of every entry with the same title, and the others keep their order |
| `Titles.SortIsStable` | library/src/main/java/com/greenfrvr/hashtagview/HashtagView.java:134-139 | the sort is stable: entries with equal titles keep their input order |
| `Packing.RowsCountMonotone` | library/src/main/java/com/greenfrvr/hashtagview/HashtagView.java:173 | for a fixed positive inner width, a larger total never gives fewer rows |
| `Packing.RowsCount` | library/src/main/java/com/greenfrvr/hashtagview/HashtagView.java:173 | the count is the ceiling of the quotient: enough rows to hold the total, and one fewer would not |
| `Packing.RowsEstimate` | library/src/main/java/com/greenfrvr/hashtagview/HashtagView.java:173-174 | `(int) Math.ceil` of the floating-point quotient. It is the ceiling for a positive inner width, and 0 for a zero total or a quotient in (-1, 0]. It is absent (the array allocation throws) exactly when the total is positive and the inner width is 0, or negative and no wider than the total |
| `Packing.Initial` | library/src/main/java/com/greenfrvr/hashtagview/HashtagView.java:173-178 | sort's starting state: `rowsCount` rows of width 0 holding no entries, and all of `data` still to place |
| `Packing.InitialIsEmpty` | library/src/main/java/com/greenfrvr/hashtagview/HashtagView.java:173-178 | the starting state has `rowsCount` rows, each empty and of width 0, all of `data` still to place, and a viewMap with no key |
| `Packing.Multimap` | library/src/main/java/com/greenfrvr/hashtagview/HashtagView.java:178-191 | viewMap has a key for exactly the non-empty rows, each key below the row count, mapped to that row |
| `Packing.Put` | library/src/main/java/com/greenfrvr/hashtagview/HashtagView.java:191 | `viewMap.put(i, item)`: key i is added if absent, its list gains the item at its end and keeps what it held, and every other key is unchanged |
| `Packing.PutAppends` | library/src/main/java/com/greenfrvr/hashtagview/HashtagView.java:191 | `viewMap.put(i, item)` is appending the item to row i |
| `Packing.Fits` | library/src/main/java/com/greenfrvr/hashtagview/HashtagView.java:188 | the strict test `rowsWidth[i] + item.width < getWidth()` |
| `Packing.FitsBelowView` | library/src/main/java/com/greenfrvr/hashtagview/HashtagView.java:188 | a row that admits an entry is below the view width, and an entry at least as wide as the view fits no row of non-negative width |
| `Packing.FirstFitFrom` | library/src/main/java/com/greenfrvr/hashtagview/HashtagView.java:182-188 | the iterator scan from position j finds the first entry that strictly fits, or reports that none from j on fits |
| `Packing.Step` | library/src/main/java/com/greenfrvr/hashtagview/HashtagView.java:182-194 | one row's turn: the first remaining entry that fits leaves `data`, joins the row's end and adds its width; the row count is kept and `data` never grows |
| `Packing.StepTakesFirstFit` | library/src/main/java/com/greenfrvr/hashtagview/HashtagView.java:182-194 | on a row's turn, either nothing fits and nothing changes, or the first entry that fits leaves `data`, joins the end of that row and adds its width to the row, and nothing else changes |
| `Packing.StepTakesFirstFitAt` | library/src/main/java/com/greenfrvr/hashtagview/HashtagView.java:184-193 | when the scan stops at a fitting entry j, the row's turn takes entry j |
| `Packing.StepFindsNoFit` | library/src/main/java/com/greenfrvr/hashtagview/HashtagView.java:184-195 | when the scan runs off the end of `data`, the row's turn changes nothing |
| `Packing.Pass` | library/src/main/java/com/greenfrvr/hashtagview/HashtagView.java:181-196 | one pass of the labelled `for` loop: each row from i on takes its turn in order; the row count is kept and `data` never grows |
| `Packing.Pack` | library/src/main/java/com/greenfrvr/hashtagview/HashtagView.java:179-197 | the outer loop ends Packed exactly when `data` is empty, and keeps the row count |
| `Packing.PackAfterPass` | library/src/main/java/com/greenfrvr/hashtagview/HashtagView.java:179-197 | a pass that places something leaves the outcome of the outer loop unchanged |
| `Packing.PassProgress` | library/src/main/java/com/greenfrvr/hashtagview/HashtagView.java:181-196 | a pass places nothing exactly when no remaining entry fits any row, and then it changes nothing |
| `Packing.StepRowEffect` | library/src/main/java/com/greenfrvr/hashtagview/HashtagView.java:182-194 | a row's turn leaves every other row and its width alone; its own row keeps its entries, gains at most one at its end, and does not get narrower |
| `Packing.PassAddsAtMostOnePerRow` | library/src/main/java/com/greenfrvr/hashtagview/HashtagView.java:181-194 | in one pass each row keeps its entries and gains at most one, at its end. Rows before the pass's starting row are untouched |
| `Packing.PassNeverNarrowsRows` | library/src/main/java/com/greenfrvr/hashtagview/HashtagView.java:188-190 | a pass never makes a row narrower, and rows before its starting row keep their width |
| `Packing.FlattenAppend` | library/src/main/java/com/greenfrvr/hashtagview/HashtagView.java:191 | putting an entry into a row adds exactly that entry to the placed entries |
| `Packing.StepKeeps` | library/src/main/java/com/greenfrvr/hashtagview/HashtagView.java:188-192 | a row's turn keeps every row width equal to the sum of the row's entries and below the view width, and neither creates nor loses an entry |
| `Packing.PassKeeps` | library/src/main/java/com/greenfrvr/hashtagview/HashtagView.java:181-196 | the same for a whole pass |
| `Packing.PackKeeps` | library/src/main/java/com/greenfrvr/hashtagview/HashtagView.java:179-197 | the same for the whole outer loop |
| `Packing.PackPartitions` | library/src/main/java/com/greenfrvr/hashtagview/HashtagView.java:172-197 | from sort's initial state the entries are split between the rows and what remains. When the loop ends, every entry is in exactly one row. Each row's width is the sum of its entries, and a non-empty row is narrower than the view |
| `Packing.StuckIsForever` | library/src/main/java/com/greenfrvr/hashtagview/HashtagView.java:179-197 | when packing is stuck, entries remain and none fits any row. One more pass changes nothing, so the source's loop never exits |
| `Packing.OversizedStaysInStep` | library/src/main/java/com/greenfrvr/hashtagview/HashtagView.java:188 | an entry at least as wide as the view is never taken on a row's turn |
| `Packing.OversizedStaysInPass` | library/src/main/java/com/greenfrvr/hashtagview/HashtagView.java:181-196 | nor in a whole pass |
| `Packing.OversizedItemStays` | library/src/main/java/com/greenfrvr/hashtagview/HashtagView.java:179-197 | with such an entry the outer loop gets stuck, with the entry still in `data` |
| `Packing.OversizedItemNeverPacked` | library/src/main/java/com/greenfrvr/hashtagview/HashtagView.java:172-197 | from sort's initial state, such an entry makes sort never finish |
| `View.FromTitles` | library/src/main/java/com/greenfrvr/hashtagview/HashtagView.java:116-120 | one entry per input string, in order, with that title, no payload and no width |
| `View.FromData` | library/src/main/java/com/greenfrvr/hashtagview/HashtagView.java:129-133 | one entry per element, in order, carrying the element and titled by `transformer.prepare` |
| `View.TitlesOfFromTitles` | library/src/main/java/com/greenfrvr/hashtagview/HashtagView.java:116-120 | the titles of the entries built are exactly the input list |
| `View.SetDataEntries` | library/src/main/java/com/greenfrvr/hashtagview/HashtagView.java:116-127 | after `setData(List<String>)`: as many entries as inputs, ascending by title, with the same multiset of titles, and no payload or width |
| `View.SetDataTransformedEntries` | library/src/main/java/com/greenfrvr/hashtagview/HashtagView.java:129-140 | after `setData(List<T>, DataTransform<T>)`, the entries: <br>- are as many as the inputs, ascending by title, and a permutation of the built entries; <br>- each carry an input element titled by its transform; <br>- keep the input order among equal titles |
| `View.MeasuredKeepsOrder` | library/src/main/java/com/greenfrvr/hashtagview/HashtagView.java:151-166 | wrap keeps the titles, and so the sorted order |
| `View.ViewMapRows` | library/src/main/java/com/greenfrvr/hashtagview/HashtagView.java:178-197 | every key sort puts into viewMap lies in `[0, rowsCount)` and holds a non-empty row whose widths add up to less than the view width |
| `View.MeasureEach` | library/src/main/java/com/greenfrvr/hashtagview/HashtagView.java:151-169 | the loop gives each entry, in order, its measured width, keeping payload and title, and returns the sum of the new widths |
| `View.HashtagView.constructor` | library/src/main/java/com/greenfrvr/hashtagview/HashtagView.java:81-99 | a new widget has the given item margin, paddings and minimum width, no data, an empty viewMap and a zero total |
| `View.HashtagView.SetData` | library/src/main/java/com/greenfrvr/hashtagview/HashtagView.java:116-127 | `data` becomes the input titles as entries, sorted by title |
| `View.HashtagView.SetDataTransformed` | library/src/main/java/com/greenfrvr/hashtagview/HashtagView.java:129-140 | `data` becomes the input elements as entries titled by the transform, sorted by title |
| `View.HashtagView.Wrap` | library/src/main/java/com/greenfrvr/hashtagview/HashtagView.java:146-170 | with no data or an empty list nothing changes. Otherwise every entry gets its measured width in place, and `totalItemsWidth` grows by exactly their sum and is not reset |
| `View.HashtagView.Sort` | library/src/main/java/com/greenfrvr/hashtagview/HashtagView.java:172-198 | a bad row estimate or a null list ends with nothing changed. Otherwise `data` and `viewMap` end as `Pack` from the initial rows leaves them: Done when every entry is placed, Diverges where the source loops forever |
| `View.HashtagView.PlacePass` | library/src/main/java/com/greenfrvr/hashtagview/HashtagView.java:181-196 | one pass of the labelled `for` loop over the rows leaves `rowsWidth`, `data` and `viewMap` as `Pass` does from row 0 |
| `View.HashtagView.TakeFirstFit` | library/src/main/java/com/greenfrvr/hashtagview/HashtagView.java:182-194 | row i's iterator scan leaves `rowsWidth`, `data` and `viewMap` as `Step` does: the first entry that strictly fits under the view width is placed, or nothing changes |
| `View.HashtagView.PlaceAt` | library/src/main/java/com/greenfrvr/hashtagview/HashtagView.java:188-192 | placing entry j in row i adds its width to `rowsWidth[i]`, appends it to row i of `viewMap`, and removes exactly it from `data` |
| `View.SortOfNoTags` | library/src/main/java/com/greenfrvr/hashtagview/HashtagView.java:172-179 | with no tags the estimate is 0 rows for every inner width, and packing ends at once with nothing left to place and no key in viewMap |
| `View.SortPacksThreeTags` | library/src/main/java/com/greenfrvr/hashtagview/HashtagView.java:172-198 | three entries of width 50 in a view 120 wide: 2 rows, rows `[a, c]` and `[b]` of widths 100 and 50, every entry placed |
| `View.FirstPassFillsEachRow` | library/src/main/java/com/greenfrvr/hashtagview/HashtagView.java:181-194 | with two empty rows, the first pass puts the first entry in row 0 and the second in row 1 |
| `View.SortLoopsOnThreeTags` | library/src/main/java/com/greenfrvr/hashtagview/HashtagView.java:179-197 | three entries of width 60 in a view 100 wide: 2 rows of one entry each, and the third entry fits neither, so sort never ends |

## Left out

- `View.HashtagView.Sort`: where the source's `while` loop never ends, the model returns `Diverges`. It detects this with a count of the entries before each pass, which the source does not keep.
- `View.HashtagView.Sort`: a row estimate that is infinite or negative makes `new int[rowsCount]` throw (an out-of-memory error or a `NegativeArraySizeException`); the model returns `BadRowsCount` and changes nothing. `sort` on a list never set throws a `NullPointerException`; the model returns `NullData` and changes nothing.
- Widths and the float total: `measureText` returns a float, and `width` and `totalItemsWidth` are floats. The model takes text widths as whole pixels from the parameter `measure`, so sums and the ceiling in `RowsEstimate` are exact. `rowsWidth[i] += item.width` narrows to `int`, which whole-pixel widths make exact.
- `Packing.PackPartitions`, `Packing.StepKeeps`, `Packing.Consistent` and `View.ViewMapRows`: "each row's width is the sum of its entries" and "a non-empty row is narrower than the view" hold for whole-pixel widths only. In the source `measureText` (line 163) gives fractional widths, and `rowsWidth[i] += item.width` (line 190) truncates each partial sum to `int`. So `rowsWidth[i]` can undercount a row's real width by up to one pixel per entry, and the test at line 188 can admit an entry that takes the real row total to `getWidth()` or beyond. Example: widths 50.5 and then 49.9 in a view 100 wide. The first entry leaves the row at 50, `50 + 49.9 < 100` admits the second, and the real sum is 100.4.
- `View.HashtagView.Wrap`: the source writes each entry's width and adds it to `totalItemsWidth` inside the loop. The model measures the list in `MeasureEach` and then stores the new list and the new total once. The end state is the same, and nothing else reads the fields while the loop runs.
- Item paddings, margins and the minimum width are naturals in the model. Negative Java values are not modelled.
- The view's own width and paddings (`getWidth()`, `getPaddingLeft()`, `getPaddingRight()`) are parameters of `Sort`.
- Titles are `seq<char>`. Java's `compareTo` compares UTF-16 code units, so titles outside the Basic Multilingual Plane may order differently.
- `Collections.sort` (a merge sort) is modelled by a stable insertion sort. Both sort by the same total preorder and are stable, so they give the same list, but the model does not prove that a stable sorted permutation is unique.
- `ItemData` has reference identity, and `data.remove(item)` removes by identity. The model removes at the index where the scan stopped, which is the same entry.
- Null inputs to `setData` are not modelled; the model's lists, elements and titles cannot be null. In the source a null list throws at `list.size()` (lines 117 and 130). A null string in `setData(List<String>)` becomes an entry with a null title. That throws in `Collections.sort` only when the list has two or more entries, since a single entry is never compared; otherwise the throw comes later, in `measureText` in `wrap` (line 163). In `setData(List<T>, DataTransform<T>)` a null element goes to `transformer.prepare`, which may accept it. The entry then has a null payload, which the click handler (line 233) treats as a plain-title tag; the model's `FromData` always stores the element as the payload.
- `View.HashtagView.constructor`: the model starts `viewMap` as `map[]`, where the source's field (line 48) stays null until the first `sort` assigns it (line 178). No modelled operation can tell the two apart, because `sort` assigns `viewMap` before reading it, and `draw` (line 201) treats null and empty alike.
- `extractAttributes` and the attribute, setter and `*Res` setter plumbing are Android resource lookups and are not part of this model. The constructor takes the item margin, paddings and minimum width as parameters. Lines 95-98 read the `itemPaddingLeft` attribute for all four paddings, which is not modelled either.
- Item top and bottom padding, text colour, gravity and size, and row margin, gravity and mode only configure views. They are left out.
- `inflateTagView`, the `view` field of `ItemData`, `draw` (with its `Collections.shuffle` of each row), `getItemLayoutParams`, the click listener and the pre-draw listener that runs wrap, sort and draw in turn all build or wire Android views. They are left out.
- Timber logging is left out.
