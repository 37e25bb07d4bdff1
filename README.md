# Skyscraper propagation engine in Dafny

A model of the candidate-propagation engine of a Skyscraper puzzle solver (src/cell.rs and
src/board.rs). The board is an n-by-n grid whose cells hold the heights 1..n still possible
there. Each side of the board carries a row of clues. A clue says how many buildings can be
seen from that side along its line.

The model follows the code:

- **Cell** (`Cells`, cell.dfy)
  - `Cell(n, numbers)` is a value. The Rust type is `Clone + PartialEq` and owned by the grid.
  - `numbers` is a `seq<nat>` in order: the fixtures compare vectors with order-sensitive
    equality, and `retain` keeps the order of what remains.
  - The `&mut self` operations are functions returning the updated cell. The caller stores the
    result, as the Rust caller's cell is updated in place.
  - `contains_numbers`, a loop with an early return, is a method.
- **Line rules** (`LineRules`, line_rules.dfy)
  - `check_cell_line_by_rule` and `check_unique_number_left` are methods on an `array<Cell>`,
    the cloned `Vec<Cell>` they mutate.
  - They keep the source's loops: the shrinking `numbers_to_erase` vector, the `number_count`
    vector and the forcing loop.
  - Each is proved equal to a specification function (`ApplyRule`, `UniqueLine`). The lemmas
    say what these functions do to every cell, and reproduce the fixtures of the source's
    test module.
- **Grid** (`Grids`, grid.dfy)
  - The grid is `seq<seq<Cell>>`, indexed `cells[row][col]`.
  - A line is read from one side. `SideLine` clones it; for Down and Right it is reversed.
    `PutLine` writes it back.
  - `Sweep` is the result of processing the lines of one side.
  - `CrossUpTo` / `CrossElim` are the stages of the row/column elimination over a snapshot.
  - `Propagate` is `check_all`.
  - The lemmas state the meaning: which cells change and how, that every cell stays a valid
    cell of the board, and that a solved value leaves its row and column.
- **Commands** (`Commands`, commands.dfy)
  - How `update_rule_x` reads a clue string (`ReadClues`, proved equal to `Overlay` of the
    `Slots` of the string).
  - How the cell commands read their digits (`ParseCellCommand` and its inverse
    `FormatCellCommand`).
  - The `restore_cell` guard as written and corrected.
- **Board** (`Boards`, board.dfy)
  - `class Board` has the fields of the Rust struct:
    - `number`;
    - four clue rows, each a `seq<nat>` field;
    - the grid, a `seq<seq<Cell>>` field.
  - Each method keeps `Valid()`:
    - the grid is n-by-n;
    - every cell has candidates, none twice, all in 1..n;
    - no clue is above n.
  - Each method is proved to leave the grid equal to the matching function on the old state.
  - The four copied arms of `check_line`, and the two loops of
    `check_unique_number_left_all_cells`, are one `ProcessLine(side, idx, pass)`. Its helpers
    are `ReadLine` (the cloning loop) and `WriteLine` (the copy-back loop that stores only
    changed cells).

Some checks a Skyscraper solver might be expected to make are absent from the engine, and
the model adds none of them:

- There is no clue-2 reachability rule.
- There is no elimination by simulating the visibility of a line for clues 2 < k < n. Such a
  clue only triggers the removal loop of src/board.rs:337-347.
- There is no exclusive-subset (naked subset) pass. `check_all` runs exactly the passes of
  src/board.rs:173-181.

The clue index of `update_rule_x` does not advance on a digit larger than n: that digit is
skipped with `continue` at src/board.rs:96, before `index += 1`. `Commands.UpdateRuleFixture`
shows the effect.

## Model

| member | source | states |
|---|---|---|
| Cells.NewCell | src/cell.rs:8-13 | keeps n and holds exactly the heights 1..n, in ascending order, n of them; a cell of the board when n >= 1 |
| Cells.ReplaceWithNumber | src/cell.rs:45-49 | a value in 1..n makes the candidates exactly [v]; any other value leaves the cell unchanged; n is kept and the cell invariant preserved |
| Cells.ReplaceWithVec | src/cell.rs:51-55 | a vector of length 1..n becomes the candidates; an empty or longer one leaves the cell unchanged |
| Cells.ReplaceWithVecUnchecked | src/cell.rs:51-55 | the heights stored are not range-checked: a valid cell of side 3 given [7] is no longer a valid cell |
| Cells.ContainsNumbers | src/cell.rs:57-64 | true exactly when every element of the argument is a candidate (so true for an empty argument) |
| Cells.Restore | src/cell.rs:66-68 | the candidates become 1..n in ascending order, whatever they were |
| Cells.RestoreForgets | src/cell.rs:66-68 | the result does not depend on the previous candidates, and restoring twice is restoring once |
| Cells.WithoutSpec | src/cell.rs:73 | `retain(x != v)` drops every copy of v and nothing else, keeps the order of the rest, and keeps them distinct |
| Cells.RemoveNumber | src/cell.rs:70-75 | the result keeps order and only drops candidates; x survives exactly when it was a candidate and is not v, or the cell had one candidate; cells with at most one candidate never change; a valid cell stays valid and never empties |
| Cells.RemoveNumberIdempotent | src/cell.rs:70-75 | removing the same height twice is removing it once |
| Cells.SolvedStaysSolved | src/cell.rs:70-75 | a solved cell is left as it is by every removal |
| Cells.RemoveEachEffect | src/board.rs:342-344 | a run of removals keeps n, only drops candidates in order, keeps every candidate outside the run, keeps a valid cell valid, and removes all of the run when some candidate lies outside it |
| LineRules.DescendingMembers | src/board.rs:338-339 | the erase vector of `(lo..hi + 1).rev()` holds exactly the heights lo..hi |
| LineRules.CheckCellLineByRule | src/board.rs:326-353 | the line afterwards is `ApplyRule(rule, line)`, by the four branches and their loops (the pop loop over `numbers_to_erase` included) |
| LineRules.SmallBoardUnchanged | src/board.rs:327-330 | on a board of side 1 or 2 no clue changes the line |
| LineRules.OutOfRangeClueUnchanged | src/board.rs:332-352 | a clue of 0 or above n matches no branch and changes nothing |
| LineRules.ClueOne | src/board.rs:332-333 | clue 1 on n >= 3: cell 0 becomes [n]; every other cell is unchanged |
| LineRules.ClueTwo | src/board.rs:334-336 | clue 2: n leaves cell 0 and n - 1 leaves cell 1, each unless it is the last candidate; both stay valid; the rest is unchanged |
| LineRules.RemoveDescendingLeast | src/board.rs:341-346 | removing a strictly descending run of heights that covers every candidate of a valid cell leaves exactly its smallest candidate |
| LineRules.MidClue | src/board.rs:337-347 | clue 2 < k < n: cell i <= k - 2 keeps every candidate below lo = n - k + 2 + i and stays valid. When it has such a candidate it loses exactly the heights from lo up; when it has none, it ends as its smallest candidate alone. Cells from k - 1 on are unchanged |
| LineRules.ClueMax | src/board.rs:348-352 | clue n: cell i becomes [i + 1] for every i |
| LineRules.ApplyRuleKeepsOk | src/board.rs:326-353 | on a line of valid cells of side n every clue keeps every cell valid, and the indexing stays inside the line |
| LineRules.ClueOneFixture | src/board.rs:386-399 | clue 1 on an open line of side 5 gives [5] and four open cells |
| LineRules.ClueTwoFixture | src/board.rs:401-413 | clue 2 on an open line of side 5 gives [1,2,3,4], [1,2,3,5] and three open cells |
| LineRules.MidClueFixture | src/board.rs:415-427 | clue 4 on an open line of side 5 gives [1,2], [1,2,3], [1,2,3,4] and two open cells |
| LineRules.MidClueGuardFixture | src/board.rs:341-346 | under clue 3 on side 5, a first cell [4, 5] loses 5 and keeps 4 as its last candidate |
| LineRules.ClueMaxFixture | src/board.rs:429-441 | clue 5 on an open line of side 5 gives [1] .. [5] |
| LineRules.CountCell | src/board.rs:360-362 | adding one cell's candidates raises entry v - 1 by the number of times v occurs in it |
| LineRules.CountNumbers | src/board.rs:357-363 | the fresh counting vector holds, at v - 1, how often v occurs among the candidates of the whole line |
| LineRules.CheckUniqueNumberLeft | src/board.rs:356-377 | the line afterwards is `UniqueLine(line)`, with counts taken once before any cell changes |
| LineRules.ForceUpToLeast | src/board.rs:364-376 | after the forcing loop has passed heights 1..t, a cell with several candidates, one of them counted once and at most t, is solved to the smallest such height; any other cell is unchanged |
| LineRules.UniqueLineEffect | src/board.rs:364-376 | a cell with several candidates, one occurring nowhere else in the line, is solved to the smallest such candidate; every other cell (singletons included) is unchanged |
| LineRules.UniqueLineKeepsOk | src/board.rs:356-377 | on valid cells the counting stays in bounds and every cell stays valid |
| LineRules.CountedOnceMeansOneCell | src/board.rs:359-363 | a height counted once is a candidate of exactly one cell of the line |
| LineRules.UniqueFixtureFour | src/board.rs:446-463 | [123, 12, 23, 1234] becomes [123, 12, 23, 4] |
| LineRules.UniqueFixtureThree | src/board.rs:465-480 | [23, 1, 23] is left unchanged |
| Grids.OnLineAt | src/board.rs:250-323 | the p-th cell of line idx seen from a side is exactly the cell on that line at that position (rows for Left/Right, columns for Up/Down, reversed for Down/Right) |
| Grids.CellOnLine | src/board.rs:250-323 | every grid cell is the cell at its own position on the line of a side through it |
| Grids.SideLineOfPut | src/board.rs:261-265 | writing a line back and reading it again gives the written line; other lines of the same side are untouched |
| Grids.PutSideLine | src/board.rs:261-265 | reading a line and writing it back unchanged leaves the grid as it was |
| Grids.PassKeepsOk | src/board.rs:260 | a clue rule or the unique rule on a line of valid cells meets the line methods' preconditions and keeps every cell valid |
| Grids.SweepStep | src/board.rs:253-267 | processing the next line of the partly swept grid, read from that grid, is the next sweep stage; that line still holds its original cells |
| Grids.SweepKeepsOk | src/board.rs:250-323 | a sweep over the lines of a side keeps every cell of a valid grid valid |
| Grids.CheckLineCell | src/board.rs:250-323 | after `check_line(side)`, cell (r, c) is unchanged when its line's clue is 0, and otherwise is the clue rule applied to its line read from that side, taken at its position (row n - 1 - r for Down, column n - 1 - c for Right) |
| Grids.HitShrinks | src/board.rs:207-213 | one solved snapshot cell's removals only drop candidates and keep every cell valid |
| Grids.CrossShrinks | src/board.rs:202-218 | the elimination only drops candidates from each cell, in order, and keeps every cell valid, so none empties |
| Grids.CrossClears | src/board.rs:202-218 | a cell solved to v in the snapshot leaves, in every cell of its row and its column, either no v or exactly [v] |
| Grids.CrossKeeps | src/board.rs:202-218 | cells solved in the snapshot, and cells with no solved snapshot cell in their row or column, come out unchanged |
| Grids.PropagateKeepsOk | src/board.rs:173-181 | the passes of `check_all`, in their order, keep every cell a valid cell of the board |
| Commands.DigitChar | src/board.rs:94 | a digit value written as a character is a digit that `to_digit(10)` reads back as the value |
| Commands.ReadClues | src/board.rs:88-107 | the loop over the characters gives `Overlay(rules, Slots(args, n))`: it stops after n positions, skips a digit above n without moving on, stores other digits, and moves on past non-digits |
| Commands.SlotsPrefix | src/board.rs:90-93 | the positions taken by a prefix of the string are a prefix of those of the whole string, so stopping early loses nothing already read |
| Commands.OverlayBounded | src/board.rs:95-97 | no clue stored is above n, so a row of clues within 0..n stays so |
| Commands.OverlayAllDigits | src/board.rs:88-107 | a string of n digits, each at most n, sets the n clues in order |
| Commands.UpdateRuleFixture | src/board.rs:94-105 | on side 4, "1x9 2" sets clues [1, 0, 0, 2]: the 9 takes no position |
| Commands.ParseCellCommand | src/board.rs:127-137 | an accepted command names a row and a column of the board, zero-based, and a single-digit value |
| Commands.ParseFormat | src/board.rs:125-140 | a command for a cell on the board, written as three digits, is read back as that command whatever follows |
| Commands.FormatParse | src/board.rs:125-140 | an accepted command is determined by its first three characters, which are the command written out |
| Commands.ParseRejectsOutside | src/board.rs:133-137 | a row or column digit of 0 or above n is rejected |
| Commands.RestoreTargetAsWritten | src/board.rs:110-116 | an accepted target is below n in both coordinates; the guard as written gives no lower bound |
| Commands.ParseRestore | src/board.rs:110-116 | with the corrected guard every accepted target lies on the board |
| Commands.RestoreAsWrittenUnderflows | src/board.rs:110-116 | as written, "01" on side 3 passes the guard and asks for row index -1 |
| Commands.RestoreCorrected | src/board.rs:110-116 | the corrected guard accepts exactly the commands the original accepts whose target lies on the board, with the same target |
| Boards.Board.constructor | src/board.rs:21-30 | every cell holds all heights 1..n, every clue is 0, and the board is valid |
| Boards.Board.UpdateRuleX | src/board.rs:88-107 | the chosen side's clues become `Overlay(old, Slots(args, n))`; the other sides and the grid are unchanged; the board stays valid |
| Boards.Board.SetRules | src/board.rs:98-103 | only the chosen side's clue row changes |
| Boards.Board.RestoreCell | src/board.rs:109-123 | a command whose row and column lie in 1..n restores that one cell; every other command changes nothing |
| Boards.Board.CheckOkCell | src/board.rs:125-147 | an accepted command applies `replace_cell_with_number` to that one cell; any other leaves the grid unchanged; clues unchanged, board valid |
| Boards.Board.RemoveNumberFromCell | src/board.rs:149-171 | an accepted command applies `remove_number` to that one cell; any other leaves the grid unchanged; clues unchanged, board valid |
| Boards.Board.ReadLine | src/board.rs:256-259 | the fresh vector holds the cells of the line in the order seen from the side |
| Boards.Board.WriteLine | src/board.rs:261-265 | storing only the cells that differ leaves the same grid as writing the whole line back |
| Boards.Board.ProcessLine | src/board.rs:252-266 | one line is read, processed by the pass and written back; the board stays valid |
| Boards.Board.CheckLine | src/board.rs:250-323 | the grid becomes `CheckLineSpec(old grid, side, clues)`; lines with clue 0 are skipped; clues unchanged |
| Boards.Board.CheckUniqueNumberLeftAllCells | src/board.rs:220-248 | the unique rule on every column top to bottom, then on every row left to right |
| Boards.Board.UniqueSweep | src/board.rs:222-233 | one of the two loops: the grid becomes the sweep of the unique rule over one side |
| Boards.Board.ClearLines | src/board.rs:209-212 | the value of a solved snapshot cell is removed from every cell of its column and its row, the crossing cell included |
| Boards.Board.CheckComplCellExclHorAndVer | src/board.rs:202-218 | the grid becomes `CrossElim(old grid)`, with solved cells read from the snapshot; the board stays valid |
| Boards.Board.CheckAll | src/board.rs:173-181 | the grid becomes `Propagate(old grid, clues)`: Up, Down, Left, Right, unique, elimination; clues unchanged, board valid |

## Left out

- `print_board` (src/board.rs:32-86) and `print_cell` (src/cell.rs:23-43): console output only.
- src/lib.rs (the stdin loops and the command dispatcher) and src/main.rs (an older copy of the
  engine with its own stdin loop) are not part of this model. The commands enter the model as
  the string argument of the `Board` methods.
- `check_integrity` (src/board.rs:183-200): its body is commented out, so `CheckAll` calls nothing
  in its place.
- `new_cell_fixed` (src/cell.rs:15-21), which is test-only, appears only as the `Cell(n, [...])`
  literals of the fixture lemmas.
- Integers are unbounded. No arithmetic of the core can overflow for a board that fits in memory:
  - a height count is at most the number of cells in a line, n;
  - `max_number - rule + 2` is taken only when rule < max_number;
  - `max_number + 1` and `1 + self.number as u32` exceed n by one.

  The `as u32` casts in the cell commands would truncate a side of 2^32 or more, but such a
  board has 2^64 cells. The subtraction `row_n as usize - 1` is the one exception (below).
- `restore_cell` as written panics on a row or column digit 0: `row_n as usize - 1` underflows.
  `Boards.Board.RestoreCell` models the corrected guard instead (see Findings). The panic itself
  is not modelled.
- The other panics of the source are excluded by `Valid()` rather than modelled as errors:
  - indexing past the line in `check_cell_line_by_rule`;
  - `number_count[num - 1]` for a candidate 0 or above the side in `check_unique_number_left`.

  `Valid()` keeps every cell's candidates in 1..n, so neither happens on a board built by
  `new_board`.
- `args.len() >= 2` in `restore_cell` counts bytes, and the model counts characters. The two
  differ only for non-ASCII input, where the source then finds no second character and does
  nothing.
- Clue 1 and clue n use `replace_cell_with_number`, which ignores the current candidates. The
  model keeps this: `ClueOne` and `ClueMax` do not claim the result is a subset of the old
  candidates. A contradiction between a clue and earlier eliminations is not detected, in the
  source or here.

## Findings

| source | as written | input that shows it | evidently intended | confidence | as-written member | corrected member |
|---|---|---|---|---|---|---|
| src/board.rs:115-116 | `row_n <= number && col_n <= number` admits digit 0, and `row_n as usize - 1` then underflows | `restore_cell("01")` on a board of side 3 asks for row index -1 (a panic in Rust) | reject a row or column outside 1..n, as `check_ok_cell` does at src/board.rs:133-137 | high; not executed | Commands.RestoreAsWrittenUnderflows | Commands.RestoreCorrected |
