# Sweeper grid logic in Dafny

A model of the game logic of `Sweeper`, a browser Minesweeper (one
JavaScript file, `build/minesweeper.js`). Everything to do with the DOM is
left out. A cell is a record `Cell(isMine, touchingMines, checked)`. A
`Field` holds `rowCount`, `columnCount` and the rows of cells. A checked
checkbox means the cell is revealed.

The model covers:

- **Neighbourhood.** The 3x3 block the game lists around a position,
  centre included and not bounds-filtered, and the bounds filter its callers
  apply (`Neighbourhood`).
- **Index filter.** `_validateIndexs` (`Indexes`).
- **Counting pass.** The pass that adds, for every non-mine cell, the mines
  of its in-bounds block onto the cell's current count (`Counting`). Counts
  are compared with the set of mine cells among the cell's Moore neighbours.
- **Placement.** Mine placement, building the field and resetting it
  (`Placement`). The random draw `Math.random() > 0.85` is an input grid of
  booleans.
- **Reveal ("bleed").** Modelled as two mutually recursive functions
  (`Reveal`). `Bleed` starts a reveal at a position. `BleedFrom` walks the
  block from entry `i` on, like the source's `for` loop. Termination is
  proved on the set of unchecked cells, which shrinks strictly before every
  recursive reveal.
- **Cell ids.** The `"row-col"` id of a checkbox and how the click handler
  reads it back, via `split('-')` and `~~` (`CellId`).
- **Click handler.** The net effect of a loss, and the click handler itself
  (`Dispatch`).

Modules follow the source's parts: `Grid`, `Neighbourhood`, `Indexes`,
`Counting`, `Placement`, `Reveal`, `CellId`, `Dispatch`.

Facts about the code that shape the model:

- The block around a cell includes the cell itself. So a corner, border or
  interior cell keeps 4, 6 or 9 positions after the bounds filter.
- Each revealed cell is compared with its immediate predecessor in the
  recursion. Equality chains, so every revealed cell has the clicked cell's
  count (`Reveal.BleedSameCount`).
- In recursive mode the reveal checks exactly the cells connected to the
  clicked cell by block steps through unchecked cells of its count
  (`Reveal.RecursiveReveal`).
- The code has no error kinds. Out-of-range positions are skipped by bounds
  tests, and out-of-range indexes are dropped.
- There is no win detection.
- A cell becomes a mine when its draw exceeds the fixed threshold 0.85
  (`Math.random() > 0.85`), so each cell is a mine with probability 0.15.
- A reveal changes the field in place and returns nothing. The model
  returns the whole new field.

## Model

| member | source | states |
|---|---|---|
| Neighbourhood.CellsAround | build/minesweeper.js:80-87 | the list has 9 entries, all distinct; a position is in it exactly when it lies in the 3x3 block around `loc`; the centre itself is the fifth entry |
| Neighbourhood.InBoundsBlock | build/minesweeper.js:101-105 | after the bounds test, every kept position is inside the field, and a position is kept exactly when it is in the block and inside the field |
| Neighbourhood.BlockSize | build/minesweeper.js:80-87 | the filtered block has Span(row) x Span(col) positions, where Span counts how many of the lines x-1, x, x+1 fall inside the field |
| Neighbourhood.BlockSizeByPosition | build/minesweeper.js:80-87 | on a field at least 2x2, the filtered block keeps 4 positions at a corner, 6 on a border and 9 inside, the cell itself included |
| Indexes.ValidateIndexes | build/minesweeper.js:70-78 | the one-pass loop returns exactly the in-range entries in order; every kept index addresses a cell; each in-range value is kept as often as it occurs and no other value is kept |
| Indexes.KeepInRangeAppend | build/minesweeper.js:70-78 | filtering a concatenation is the concatenation of the filtered parts, so the original order is preserved |
| Indexes.KeepInRangeContents | build/minesweeper.js:70-78 | the multiset of kept values is the multiset of input values restricted to [0, n) |
| Counting.TouchCountIsAdjacent | build/minesweeper.js:98-108 | the count over the 3x3 block equals the number of mines among the in-bounds Moore neighbours, plus one when the centre itself is a mine |
| Counting.AdjacentAtMostEight | build/minesweeper.js:98-108 | no position has more than eight adjacent mines |
| Counting.CountsAtMostEight | build/minesweeper.js:89-108 | on a consistent field every count lies in [0, 8] |
| Counting.SetCellMineTouchCount | build/minesweeper.js:98-108 | counting one cell adds its adjacent mines, plus itself when it is a mine, onto its current count; mines and all other cells stay as they were |
| Counting.SetCellsIfTouchingMines | build/minesweeper.js:89-96 | the row-by-row pass adds the adjacent-mine count to every non-mine cell and leaves mine cells, mines and checkboxes alone; from all-zero counts the result is consistent (non-mine cell = adjacent mines, mine cell = 0) |
| Counting.ConsistentUnderReveal | build/minesweeper.js:158-173 | count consistency survives any change that only checks boxes, so it holds throughout a reveal |
| Placement.InitCellState | build/minesweeper.js:121-128 | a draw turns the cell into a mine; without a draw it keeps its flag; the count and checkbox are untouched |
| Placement.ResetCell | build/minesweeper.js:132-137 | after the per-cell reset work the cell is unchecked, counts 0 and is a mine exactly when its draw says so, whatever it was before |
| Placement.NewField | build/minesweeper.js:22-58 | the field as first built has nothing checked, its mines are exactly the positive draws, and its counts are consistent with them |
| Placement.ResetAll | build/minesweeper.js:130-141 | after a reset nothing is checked, the mines are exactly the new draws, and the counts are consistent again |
| Reveal.Bleed | build/minesweeper.js:158-173 | the reveal terminates (the set of unchecked cells shrinks strictly before each recursive call) and is reveal-only: shape, mines and counts unchanged, checked boxes stay checked |
| Reveal.BleedFrom | build/minesweeper.js:161-172 | the walk over the rest of the block is reveal-only as well |
| Reveal.BleedCoversBlock | build/minesweeper.js:161-171 | in either mode, every in-bounds cell of the block with the start's count is checked afterwards; the start itself is always checked |
| Reveal.NonRecursiveReveal | build/minesweeper.js:161-171 | without recursion, a cell ends checked exactly when it was checked already or it is an in-bounds cell of the block around the start (start included) with the start's count |
| Reveal.BleedSameCount | build/minesweeper.js:165-169 | every cell checked by one reveal, recursive or not, has the count of the cell where the reveal started |
| Reveal.RecursiveRevealClosed | build/minesweeper.js:165-169 | after a recursive reveal, around the start and around every cell it checked, every equal-count in-bounds neighbour is checked |
| Reveal.RecursiveReveal | build/minesweeper.js:158-173 | with recursion, a cell ends checked exactly when it was checked already or a chain of block steps leads to it from the start through in-bounds cells that were unchecked and carry the start's count |
| Reveal.BleedWithinRegion | build/minesweeper.js:165-169 | a recursive reveal nested in a larger one never leaves a region that holds its start and is closed under such block steps, because every recursive call starts at a cell of the current block |
| Reveal.MineInRowExample | build/minesweeper.js:158-173 | on a 1x3 row with a mine in the middle, a recursive click on the left end checks only the left end; the right end has the same count but is not connected |
| Reveal.BleedRevealsNoMine | build/minesweeper.js:158-173 | on a consistent field, a reveal started at a cell without a mine never checks a mine |
| Reveal.UniformFieldFloods | build/minesweeper.js:165-169 | on a field with nothing checked where all cells share one count, one recursive reveal checks every cell |
| Reveal.CentreMineExample | build/minesweeper.js:161-171 | on a 3x3 field with a mine in the middle, a non-recursive click on the top-left corner checks exactly the corner and its two count-1 neighbours |
| CellId.ToInt32 | build/minesweeper.js:151-152 | `~~` yields a signed 32-bit value congruent to its input modulo 2^32, and small values pass through unchanged |
| CellId.SplitJoin | build/minesweeper.js:149 | joining the pieces of a split with the separator gives back the original id; with `Split`'s guarantee that no piece holds the separator, this pins the split down |
| CellId.IdRoundTrip | build/minesweeper.js:149-153 | reading back the id `"row-col"` of a cell gives the cell's position, for coordinates below 2^31 |
| Dispatch.Lost | build/minesweeper.js:175-183 | losing checks every cell and changes nothing else |
| Dispatch.OnChange | build/minesweeper.js:143-156 | a click is reveal-only and always leaves the clicked cell checked; a click on a mine checks every cell; any other click is the reveal started at the clicked cell itself |
| Dispatch.SafeClickRevealsNoMine | build/minesweeper.js:143-156 | on a consistent field, a click on a cell without a mine checks no mine |
| Dispatch.MineFreeFieldFloods | build/minesweeper.js:143-156 | on a fresh consistent field without mines, one recursive click checks every cell |

## Left out

- DOM work: element creation, sizes and styles, labels and their text, heat-map classes, listeners and the reset button (build/minesweeper.js:10-68, 110-118). None of it decides game state.
- Per-cell bookkeeping: `mappedCells`, `index` and the flat `cells` list. `Indexes.CellCount` stands for the length of that list.
- `Math.random`: mine placement takes the outcome of each draw as an input grid, so probabilities are not modelled.
- Constructor defaults (`options.x || default`): a field is taken as given by its row and column counts.
- Browser event handling: the checkbox's own toggle before the change event fires, and `preventDefault`. A click starts from the field as it is.
- The 'mine' class on a checkbox: it is added and removed together with the cell's mine flag, so `Dispatch.OnChange` tests the flag.
- CellId.TruncToInt: only ids made of decimal digits are parsed numerically. JavaScript's other number syntaxes (surrounding white space, hexadecimal, exponents) and its floating-point rounding above 2^53 are not modelled, because cell ids never contain them.
- Reveal.Bleed: the source's `_checkBleed` recurses natively, once per revealed cell, so on a large field in recursive mode the JavaScript engine can run out of stack. It then throws part-way through the reveal and leaves the field half revealed. The model's reveal always completes.
- Indexes.ValidateIndexes: the source compares JavaScript numbers, so a fractional index such as 2.5 passes the range test and is kept. The model takes integer indexes only.
- Dispatch.Lost: the loss is modelled as one atomic step. In the source each cell is checked by its own timer, up to a second later. Those timers hold the same cell objects that `resetAll` clears in place, so after a quick reset they can still check cells of the new field. `Placement.ResetAll` states the field as the reset leaves it, before any such timer fires.
- Dispatch.OnChange: requires both sides of the field to be at most 2^31, because beyond that the source's `~~` reads ids back wrongly.
