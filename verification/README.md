# Seam carving, modelled in Dafny

This project models the seam-carving engine of `src/seamCarving.cpp`. Seam
carving narrows an image by deleting one connected top-to-bottom path of
pixels at a time. Each path (a *seam*) has one pixel per row, and the columns
of consecutive rows differ by at most one.

The carver works in four stages:

- It loads an RGBA image into one list of pixels per row.
- It computes a gradient *energy* for every pixel, once.
- It repeats two steps a requested number of times:
  - find a seam, by one of two dynamic programmes:
    - the *backward* search charges the energy of the pixels removed;
    - the *forward* search charges, for a straight step, the energy of the pixel stepped onto, and for a diagonal step, the colour difference between the pixel stepped onto and the pixel on the far side of the proposer in the row above;
  - erase the seam's pixel from every row of both the pixel grid and the energy grid.
- It writes the carved image back into a flat RGBA buffer.

The modules follow the source:

- `Pixels`: bytes, pixels and `pixel_diff_squared`.
- `Grids`: rows as sequences, and erasing one element of a row.
- `Energy`: `computeEnergy` as a function of the pixel grid.
- `Seams`: paths, seams and back-pointer tables. It also holds the two steps both searches share and the source writes twice:
  - choosing the leftmost cheapest end of the last row;
  - backtracking from it.
- `CostTables`: what both searches compute, stated once. From that statement it proves:
  - the backtracked path costs what the table says;
  - no allowed path costs less.
- `BackwardSearch` and `ForwardSearch`: each has three parts:
  - a specification of the cost and back-pointer tables;
  - the search as the source runs it, as a method with loops;
  - the proof that the seam found is optimal.
- `Layout`: the flat RGBA buffer and its conversion to and from rows.
- `Carving`: cutting seams, and the `SeamCarver` class. The class has:
  - the fields `data`, `energy`, `width` and `height`;
  - the constructor;
  - `ComputeEnergy`, `RemoveSeam` and `Carve`;
  - `SaveCarvedImage`.

The greedy carving is specified by `CarveSeams`, which takes a seam chooser as a parameter. `CarveSeamsAreChosen` states that seam i is the seam chosen in the image left after cutting the first i seams.

`Carve` states three things:

- its seams are exactly `CarveSeams` for the search selected;
- its pixel grid is the original grid with those seams cut;
- its energy grid is the energy computed at the start, cut along the same seams.

`ZipCutSeams` then shows that every remaining pixel still sits next to the energy computed for it at the start. The energy is never recomputed.

`src/seamCarving.h` declares a different class from the one `src/seamCarving.cpp` defines. For example, the header has `scpixel` and iterator-based seams, and its constructor takes no `Settings`. The model follows the `.cpp` file.

## Model

| member | source | states |
|---|---|---|
| Pixels.DiffSquared | src/seamCarving.cpp:89-95 | the squared RGB difference is at most 3·255², so the doubles of the original hold it exactly; it is zero exactly when red, green and blue agree |
| Pixels.DiffSymmetric | src/seamCarving.cpp:89-95 | the difference does not depend on argument order |
| Pixels.DiffIgnoresAlpha | src/seamCarving.cpp:89-95 | alpha takes no part in the difference |
| Grids.RemoveAt | src/seamCarving.cpp:256-262 | erasing one entry of a row shortens it by one |
| Grids.RemoveAtShifts | src/seamCarving.cpp:256-262 | erasing at index i keeps the entries before i in place and moves the later ones one place left |
| Grids.RemoveAtMultiset | src/seamCarving.cpp:256-262 | erasing removes exactly the one entry at the index, counted with multiplicity |
| Energy.HorizontalTerm | src/seamCarving.cpp:114-117 | the horizontal term is present only for interior columns; it is zero exactly at a border column or when the left and right neighbours agree in colour |
| Energy.VerticalTerm | src/seamCarving.cpp:119-122 | the vertical term is present only for interior rows; it is zero exactly at a border row or when the pixels above and below agree in colour |
| Energy.Radicand | src/seamCarving.cpp:114-123 | the radicand is bounded by 2·3·255², and it is zero exactly when both terms are zero |
| Energy.EnergyGrid | src/seamCarving.cpp:104-126 | the energy grid has one row per pixel row, each of the image width |
| Energy.BorderTermsVanish | src/seamCarving.cpp:114-122 | border columns have no horizontal term; border rows have no vertical term |
| Energy.FlatNeighbourhoodHasZeroEnergy | src/seamCarving.cpp:114-123 | at an interior pixel the radicand is zero if and only if both neighbour pairs agree in colour, and then the energy is the root of zero |
| Energy.EnergyNonNegative | src/seamCarving.cpp:123 | with a non-negative square root, every energy is non-negative |
| Seams.Trace | src/seamCarving.cpp:173-180 | following back-pointers up from column x of row y gives a path of y + 1 in-range columns that ends at x |
| Seams.TraceFollowsLinks | src/seamCarving.cpp:176-180 | along a traced path, each row's column is the back-pointer stored for the column of the row below |
| Seams.SeamOfPath | src/seamCarving.cpp:173-180 | writing row y and column p[y] for each row of a path gives a seam whose columns are the path |
| Seams.ColumnsOfSeam | src/seamCarving.cpp:173-180 | the columns of a seam form a path |
| Seams.LeftmostMinOf | src/seamCarving.cpp:164-171 | the position chosen among the first n entries holds a minimum, and every entry left of it is strictly larger |
| Seams.LeftmostMin | src/seamCarving.cpp:164-171 | the end chosen in the last row is a minimum, and every entry left of it is strictly larger (the first minimum wins) |
| Seams.LeftmostMinimum | src/seamCarving.cpp:164-171 | the scan with strict `<` returns exactly the leftmost minimum |
| Seams.Backtrack | src/seamCarving.cpp:173-180 | the bottom-up fill returns the seam traced from the chosen end; it is a seam of the image ending at that column |
| CostTables.TraceAllowed | src/seamCarving.cpp:141-180 | in tables solving the recurrence, a traced path takes only allowed steps |
| CostTables.TraceCost | src/seamCarving.cpp:141-180 | a traced path costs exactly the table entry it starts from |
| CostTables.LowerBound | src/seamCarving.cpp:141-162 | no allowed path reaching a cell costs less than the cell's table entry |
| CostTables.ChosenPath | src/seamCarving.cpp:164-180 | the path traced from the leftmost cheapest end has one in-range column per row and is connected |
| CostTables.ChosenPathFromEnd | src/seamCarving.cpp:173-180 | tracing from the end the scan found is the chosen path |
| CostTables.ChosenPathAllowed | src/seamCarving.cpp:164-180 | the chosen path takes only allowed steps |
| CostTables.ChosenPathCost | src/seamCarving.cpp:164-180 | the chosen path costs the smallest entry of the last row |
| CostTables.ChosenPathIsCheapest | src/seamCarving.cpp:164-180 | no allowed path through every row costs less than the chosen path |
| BackwardSearch.BackPick | src/seamCarving.cpp:144-156 | the chosen predecessor is within one column and no dearer than any in-range candidate; straight up wins ties, and left wins a tie against right |
| BackwardSearch.BackDP | src/seamCarving.cpp:136-162 | every row of the cost table is as wide as the image |
| BackwardSearch.BackLink | src/seamCarving.cpp:133-159 | row 0 has back-pointer -1; below it every back-pointer is an in-range column within one of its own |
| BackwardSearch.BackLinks | src/seamCarving.cpp:133-159 | the back-pointer table is a valid table of the image's height and width |
| BackwardSearch.BackLinksAt | src/seamCarving.cpp:159 | entry (y, x) of the back-pointer table is the pointer chosen for that cell |
| BackwardSearch.BackTable | src/seamCarving.cpp:132-162 | the cost table has the image's height and width |
| BackwardSearch.BackRecurrence | src/seamCarving.cpp:143-159 | a cell below row 0 costs its own energy plus the cost of the cell its back-pointer names |
| BackwardSearch.BackIsMinimal | src/seamCarving.cpp:144-158 | a cell costs no more than its energy plus any of the up-to-three cells above it |
| BackwardSearch.BackCellLinked | src/seamCarving.cpp:143-159 | the recurrence read off the tables, for one cell |
| BackwardSearch.BackCellMinimal | src/seamCarving.cpp:144-158 | minimality read off the tables, for one cell |
| BackwardSearch.BackTableSolved | src/seamCarving.cpp:136-162 | the backward tables solve the seam recurrence, with each pixel's energy as the cost of stepping onto it |
| BackwardSearch.PathCostIsWalkCost | src/seamCarving.cpp:145-150 | the summed energy of a path is its cost under the backward recurrence |
| BackwardSearch.AnyPathAllowed | src/seamCarving.cpp:147-156 | the backward search allows every step within one column |
| BackwardSearch.BackwardSeam | src/seamCarving.cpp:128-183 | the seam `findBackwardSeam` returns: row y paired with column p[y] of the path traced from the leftmost cheapest end of the last cost row |
| BackwardSearch.BackwardSeamIsSeam | src/seamCarving.cpp:128-183 | the backward seam is a seam of the image |
| BackwardSearch.BackwardSeamIsOptimal | src/seamCarving.cpp:128-183 | the backward seam's total energy is the smallest entry of the last cost row, and no seam of the image has smaller total energy |
| BackwardSearch.BackRowIs | src/seamCarving.cpp:141-162 | a row computed by the recurrence from the previous cost row is the specified row of both tables |
| BackwardSearch.FillBackRow | src/seamCarving.cpp:142-161 | the row loop gives every column the predecessor BackPick chooses and the cost of that predecessor plus its own energy |
| BackwardSearch.BackFirstRows | src/seamCarving.cpp:132-139 | row 0 of the cost table is the energy of row 0, and row 0 of the back-pointers is all -1 |
| BackwardSearch.NextBackRow | src/seamCarving.cpp:141-162 | one pass of the row loop produces row y of both specified tables |
| BackwardSearch.FindBackwardSeam | src/seamCarving.cpp:128-183 | the method returns exactly the specified backward seam, and it is a seam of the image |
| ForwardSearch.Available | src/seamCarving.cpp:203-221 | the corrected proposal rule: column j proposes straight down always, and diagonally to t = j ± 1 only when j is an interior column |
| ForwardSearch.WrittenTableReads | src/seamCarving.cpp:209-221 | as written, iteration x compares against columns x - 1, x and x + 1 of the cost row below, whatever the diagonal cost |
| ForwardSearch.WrittenPixelReads | src/seamCarving.cpp:203-204 | as written, the left cost reads pixel column x + 1 of the row above when 0 < x, and the right cost reads column x - 1 when x < w - 1 |
| ForwardSearch.StepCost | src/seamCarving.cpp:203-214 | a straight step costs the energy stepped onto; a diagonal step from column j to column t costs the colour difference between pixel t of the lower row and pixel 2j - t of the upper row (the one beyond the proposer), which lies between 0 and 3·255² and is zero exactly when they agree in colour |
| ForwardSearch.WrittenReadsOutside | src/seamCarving.cpp:203-221 | as written, in any image at least one column wide the border iterations read cost columns -1 and w; once it is two columns wide they also read pixel columns -1 and w |
| ForwardSearch.AvailableKeepsInRangeReads | src/seamCarving.cpp:203-221 | a proposal is available if and only if the original makes it (the target is one of the three columns it compares) and every table and pixel column the original reads for it lies inside the image |
| ForwardSearch.AvailableInBounds | src/seamCarving.cpp:203-221 | with diagonal proposals only from interior columns, every column read lies in the image |
| ForwardSearch.Relax | src/seamCarving.cpp:209-222 | a proposal is taken when the slot is unset or the proposal is strictly cheaper; a set slot never gets dearer, and a tie keeps the earlier proposal |
| ForwardSearch.Proposals | src/seamCarving.cpp:201-224 | once the columns before n have proposed, a slot is set once the column straight above it has proposed, and a set slot comes from an available column among them |
| ForwardSearch.ProposalsSettle | src/seamCarving.cpp:201-224 | a slot stays unset exactly while no column could propose to it; once set, it holds its proposal's cost, which is no more than any proposal so far and strictly less than every proposal from further left |
| ForwardSearch.FwdDP | src/seamCarving.cpp:194-224 | every row of the forward cost table is as wide as the image |
| ForwardSearch.FwdLink | src/seamCarving.cpp:195-221 | row 0 has back-pointer -1; below it every back-pointer is an in-range column within one of its own |
| ForwardSearch.FwdLinks | src/seamCarving.cpp:195-221 | the forward back-pointer table is a valid table of the image's height and width |
| ForwardSearch.FwdLinksAt | src/seamCarving.cpp:195-221 | entry (y, t) of the back-pointer table is the winning proposer for that cell |
| ForwardSearch.FwdTable | src/seamCarving.cpp:194-224 | the forward cost table has the image's height and width |
| ForwardSearch.FwdCellLinked | src/seamCarving.cpp:209-221 | every cell below row 0 is reached by an available step, at its proposer's cost plus the step's cost |
| ForwardSearch.FwdCellMinimal | src/seamCarving.cpp:209-221 | a cell costs no more than any proposal it receives |
| ForwardSearch.FwdFirstRowZero | src/seamCarving.cpp:197-199 | row 0 of the forward cost table is zero |
| ForwardSearch.FwdTableSolved | src/seamCarving.cpp:194-224 | the forward tables solve the seam recurrence, with a zero base and the step cost of each available step |
| ForwardSearch.ForwardSeam | src/seamCarving.cpp:185-245 | the seam `findForwardSeam` returns: row y paired with column p[y] of the path traced from the leftmost cheapest end of the last forward cost row |
| ForwardSearch.ForwardSeamIsSeam | src/seamCarving.cpp:185-245 | the forward seam is a seam of the image |
| ForwardSearch.ForwardSeamIsOptimal | src/seamCarving.cpp:185-245 | the forward seam's cost is the smallest entry of the last cost row, and no seam taking only available steps costs less |
| ForwardSearch.FwdRowIs | src/seamCarving.cpp:201-224 | a row whose slots are the settled proposals is the specified row of both tables |
| ForwardSearch.Propose | src/seamCarving.cpp:209-222 | a compare-and-update leaves other columns alone and relaxes the target slot |
| ForwardSearch.RelaxRow | src/seamCarving.cpp:202-223 | the left-to-right proposals of one row leave every slot in its settled state |
| ForwardSearch.FindForwardSeam | src/seamCarving.cpp:185-245 | the method returns exactly the specified forward seam, and it is a seam of the image |
| Layout.PixelAt | src/seamCarving.cpp:26-30 | the pixel read at pixel index k is made of bytes 4k to 4k + 3 |
| Layout.RowBytes | src/seamCarving.cpp:278-285 | a row of n pixels takes 4n bytes |
| Layout.Flatten | src/seamCarving.cpp:276-286 | the bytes `saveCarvedImageToFile` writes: the rows top to bottom, each pixel as red, green, blue, alpha |
| Layout.CellIndex | src/seamCarving.cpp:26 | the index w·x + y of a pixel in row x < h and column y < w is inside the buffer |
| Layout.RowEnd | src/seamCarving.cpp:276-279 | row x ends at pixel index w·x + w, within the image |
| Layout.IndexCell | src/seamCarving.cpp:26 | every pixel index k below w·h is w·x + y for the row x = k / w < h and the column y = k % w < w |
| Layout.IndexCellUnique | src/seamCarving.cpp:26 | an index w·x + y with 0 ≤ y < w determines its cell: x = k / w and y = k % w, so no two cells share an index |
| Layout.RowsApart | src/seamCarving.cpp:26 | row b > a starts at or after the end of row a: w·a + w ≤ w·b |
| Layout.Unflatten | src/seamCarving.cpp:22-33 | reading a w-by-h buffer gives h rows of w pixels |
| Layout.RowBytesAt | src/seamCarving.cpp:278-285 | byte c of pixel y of a row is at 4y + c of the row's bytes |
| Layout.FlattenLength | src/seamCarving.cpp:273 | a w-wide image of h rows flattens to 4·w·h bytes |
| Layout.FlattenAt | src/seamCarving.cpp:279-283 | byte c of pixel y of row x lands at index 4·(w·x + y) + c |
| Layout.PixelAtFlatten | src/seamCarving.cpp:279-283 | reading pixel w·x + y back from the flattened image gives pixel y of row x |
| Layout.UnflattenFlatten | src/seamCarving.cpp:22-33 | loading the bytes an image saves to gives the image back |
| Layout.FlattenUnflatten | src/seamCarving.cpp:276-286 | saving the rows loaded from a buffer gives the buffer back |
| Carving.CutSeam | src/seamCarving.cpp:253-263 | cutting a seam keeps the number of rows |
| Carving.CutSeamNarrows | src/seamCarving.cpp:248-266 | cutting a seam of a w-wide image leaves every row w - 1 wide |
| Carving.CutSeams | src/seamCarving.cpp:52-61 | cutting seams one after the other keeps the number of rows |
| Carving.CutSeamsCons | src/seamCarving.cpp:52-61 | cutting a first seam and then a list is cutting the whole list |
| Carving.CutSeamsSnoc | src/seamCarving.cpp:52-61 | cutting a list and then one more seam is cutting the longer list |
| Carving.CutSeamsNarrow | src/seamCarving.cpp:50-62 | cutting k seams that fit leaves every row k columns narrower |
| Carving.CutSeamsRemovesOnly | src/seamCarving.cpp:253-263 | cutting never adds anything: each row keeps a sub-multiset of its original entries |
| Carving.ZipRow | src/seamCarving.cpp:256-262 | pairing a pixel row with its energy row gives as many pairs as the shorter row |
| Carving.ZipRowRemoveAt | src/seamCarving.cpp:256-262 | erasing the same column from a pixel row and its energy row keeps every remaining pixel paired with its own energy |
| Carving.Zip | src/seamCarving.cpp:253-263 | pairing pixels with energies gives as many rows as the shorter grid |
| Carving.ZipCutSeam | src/seamCarving.cpp:253-263 | cutting the same seam from pixels and energy keeps the grids the same shape and every pixel paired with its own energy |
| Carving.ZipCutSeams | src/seamCarving.cpp:50-62 | after any number of cuts, every remaining pixel is still paired with the energy computed for it at the start |
| Carving.SearchChooserPicksSeams | src/seamCarving.cpp:53-60 | both searches pick a seam of every image with at least one row and one column |
| Carving.SearchPick | src/seamCarving.cpp:53-60 | the carver's chooser is the backward or the forward search, as the setting says |
| Carving.NextSeam | src/seamCarving.cpp:52-61 | after the first i seams are cut, the chooser's next seam extends the plan by one |
| Carving.CarveSeams | src/seamCarving.cpp:50-62 | a carving cuts exactly the requested number of seams, and none for a negative count |
| Carving.CarveSeamsFit | src/seamCarving.cpp:50-62 | seam i of a carving is a seam of the image i columns narrower |
| Carving.CarveSeamsAreChosen | src/seamCarving.cpp:50-62 | seam i is the seam chosen in the pixels and energy left after cutting seams 0 to i - 1 (greedy carving) |
| Carving.PutPixel | src/seamCarving.cpp:279-283 | writing one pixel appends its four bytes after the bytes before it and leaves the bytes after them unchanged |
| Carving.WriteRow | src/seamCarving.cpp:277-285 | writing row x appends the row's bytes after the first x rows and leaves the bytes after the row unchanged |
| Carving.SeamCarver.constructor | src/seamCarving.cpp:22-33 | the carver holds the h rows of w pixels the buffer encodes, with pixel (x, y) taken from index (w·x + y)·4 |
| Carving.SeamCarver.ComputeEnergy | src/seamCarving.cpp:104-126 | the energy field becomes the energy grid of the pixels; pixels and size are unchanged |
| Carving.SeamCarver.RemoveSeam | src/seamCarving.cpp:248-267 | the seam's column is erased from every row of the pixels and the energy, and the width drops by one |
| Carving.SeamCarver.CutNextSeam | src/seamCarving.cpp:53-60 | one round finds the seam of the selected search and cuts it from both grids |
| Carving.SeamCarver.Carve | src/seamCarving.cpp:50-62 | the seams cut are the greedy carving of the original image with the energy computed once; pixels and energy are the originals with those seams cut, and the width drops by the number of seams |
| Carving.SeamCarver.SaveCarvedImage | src/seamCarving.cpp:269-286 | the buffer holds the carved rows in order, pixel (x, y) at (x·width + y)·4 |

## Left out

- Loading and decoding the image file and writing the PNG file (`stbi_load`, `stbi_write_png`) are left out. The constructor takes the decoded buffer and its size, and `SaveCarvedImage` returns the buffer that would be written.
- The load-failure path of the constructor is left out: the original prints a message and goes on with a null buffer. `Carving.SeamCarver.constructor` requires a buffer of exactly 4·w·h bytes.
- `saveEnergyToFile` (lines 65-87) is left out. It narrows doubles to bytes, which depends on floating-point conversion.
- `sqrt` and double arithmetic are not modelled. The square root is the parameter `root`. Radicands and colour differences are exact integers, which doubles hold exactly. Costs are `real`, so their sums do not round.
- The forward search's initial "largest double" cost is modelled as an unset slot, with back-pointer -1.
- `ForwardSearch.Available`: diagonal proposals are made only from interior columns. At the borders the original reads outside the rows (see Findings).
- The source's `int` index arithmetic (`(m_width * x + y) * 4` at lines 26, 74 and 279, `m_width * m_height * 4` at line 273) is modelled with unbounded integers. Every such value is at most the size of the decoded buffer, 4·w·h bytes. For images of fewer than 2³¹/4 pixels it fits in an `int`. For larger images the original would overflow, which the model does not capture.
- `ForwardSearch.StepCost` charges a diagonal step with the pixel pairs the original compares at lines 203-204: the pixel stepped onto against the pixel beyond the proposer in the row above. This is not the pair of pixels that become neighbours once the seam is removed, which the comment at lines 187-189 describes; the model follows the code.
- The getters (lines 36-47) are left out. `getPixel` (lines 97-101) is plain sequence indexing here.
- `main.cpp`, `settings.h` and `seamCarving.h` are not part of this model. The `doBackwardSearch` setting is the `backward` parameter of `Carve`.
- The dynamic-programming tables are built row by row, by appending to sequences. The original preallocates them and assigns into them. `list::erase` is modelled as removal from a sequence, so iterator invalidation is not captured.
- `Carving.SeamCarver.RemoveSeam` requires a width of at least one. It also requires that the seam has one in-range column per row. The original would read outside a row otherwise.
- `Carving.SeamCarver.Carve` requires at least one row and no more seams than columns when any seam is cut. Without that, the original's searches read outside the tables.
- `Carving.SeamCarver.RemoveSeam` reads only the column of each seam entry, as the original does. It does not check the row entry.
- `Carving.CutSeam` is total: a row the seam does not name a column of is left as it is. Only seams that fit the image are ever cut.
- `Carving.SeamCarver.CutNextSeam`, `Carving.PutPixel`, `Carving.WriteRow` and `BackwardSearch.FillBackRow` are parts of the original's loops, split out as their own methods.
- The seams `Carve` returns are ghost: the original does not return them.

## Findings

| source | as written | input that shows it | evidently intended | confidence | as-written member | corrected member |
|---|---|---|---|---|---|---|
| src/seamCarving.cpp:203-221 | the forward search compares against `dp[y + 1][x - 1]` and `dp[y + 1][x + 1]` in every column. It reads pixel `x + 1` of row y whenever `x > 0`, and pixel `x - 1` whenever `x < w - 1`. | any image of at least two rows: x = 0 reads cost column -1 (and, once w ≥ 2, pixel column -1); x = w - 1 reads cost column w (and, once w ≥ 2, pixel column w) | diagonal proposals only where both the target column and the neighbour pixel exist, i.e. from interior columns | not executed | ForwardSearch.WrittenReadsOutside | ForwardSearch.AvailableKeepsInRangeReads |
