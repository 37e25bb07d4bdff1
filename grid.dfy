/** The whole-board deductions of src/board.rs stated on the value of the grid
    `cells[row][col]`: reading one row or column as a line seen from one side,
    writing a line back, one pass over all lines of a side (`check_line`,
    `check_unique_number_left_all_cells`), and the row/column elimination of
    `check_compl_cell_excl_hor_and_ver`. The methods of `Boards.Board` are proved
    equal to these functions; the lemmas here say what the functions mean. */
module Grids {
  import opened Cells
  import opened LineRules

  /** The side of the board a clue stands on. */
  datatype WhichRule = Up | Down | Left | Right

  /** `cells[row][col]`: the first index is the row, the second the column. */
  type Grid = seq<seq<Cell>>

  predicate Square(g: Grid, n: nat) {
    |g| == n && forall r :: 0 <= r < n ==> |g[r]| == n
  }

  /** Every cell of the n-by-n grid satisfies the cell invariant. */
  predicate AllOk(g: Grid, n: nat) {
    Square(g, n) && forall r, c :: 0 <= r < n && 0 <= c < n ==> CellOk(g[r][c], n)
  }

  // ---------------------------------------------------------------------------
  // Lines seen from a side
  // ---------------------------------------------------------------------------

  /** Row of the `p`-th cell of line `idx` counted from `side`: top to bottom for Up,
      bottom to top for Down (the `.rev()` of the Down arm), the row itself otherwise. */
  function RowOf(side: WhichRule, n: nat, idx: nat, p: nat): nat
    requires idx < n && p < n
  {
    match side
    case Up => p
    case Down => n - 1 - p
    case Left => idx
    case Right => idx
  }

  /** Column of the `p`-th cell of line `idx` counted from `side`. */
  function ColOf(side: WhichRule, n: nat, idx: nat, p: nat): nat
    requires idx < n && p < n
  {
    match side
    case Up => idx
    case Down => idx
    case Left => p
    case Right => n - 1 - p
  }

  /** The line of `side` through (r, c): its column for Up and Down, its row otherwise. */
  function LineThrough(side: WhichRule, r: nat, c: nat): nat {
    match side
    case Up => c
    case Down => c
    case Left => r
    case Right => r
  }

  /** Position of (r, c) on that line counted from `side`. */
  function PosOn(side: WhichRule, n: nat, r: nat, c: nat): nat
    requires r < n && c < n
  {
    match side
    case Up => r
    case Down => n - 1 - r
    case Left => c
    case Right => n - 1 - c
  }

  /** The vector of cloned cells the source builds before calling a line rule. */
  function SideLine(g: Grid, n: nat, side: WhichRule, idx: nat): seq<Cell>
    requires Square(g, n) && idx < n
  {
    seq(n, p requires 0 <= p < n => g[RowOf(side, n, idx, p)][ColOf(side, n, idx, p)])
  }

  /** The grid after the processed line has been copied back into line `idx`. */
  function PutLine(g: Grid, n: nat, side: WhichRule, idx: nat, line: seq<Cell>): Grid
    requires Square(g, n) && idx < n && |line| == n
  {
    seq(n, r requires 0 <= r < n =>
      seq(n, c requires 0 <= c < n =>
        if LineThrough(side, r, c) == idx then line[PosOn(side, n, r, c)] else g[r][c]))
  }

  /** (r, c) is the `p`-th cell of line `idx` exactly when it lies on that line at
      position `p`. */
  lemma OnLineAt(side: WhichRule, n: nat, idx: nat, p: nat)
    requires idx < n && p < n
    ensures RowOf(side, n, idx, p) < n && ColOf(side, n, idx, p) < n
    ensures forall r, c :: 0 <= r < n && 0 <= c < n ==>
      ((LineThrough(side, r, c) == idx && PosOn(side, n, r, c) == p) <==>
       (r == RowOf(side, n, idx, p) && c == ColOf(side, n, idx, p)))
  {
  }

  /** Every cell is the cell at its own position on the line of `side` through it. */
  lemma CellOnLine(g: Grid, n: nat, side: WhichRule, r: nat, c: nat)
    requires Square(g, n) && r < n && c < n
    ensures LineThrough(side, r, c) < n
    ensures g[r][c] == SideLine(g, n, side, LineThrough(side, r, c))[PosOn(side, n, r, c)]
  {
  }

  /** Writing a line back and reading it again gives the written line; the other lines
      of the same side are untouched. */
  lemma SideLineOfPut(g: Grid, n: nat, side: WhichRule, idx: nat, line: seq<Cell>, j: nat)
    requires Square(g, n) && idx < n && j < n && |line| == n
    ensures Square(PutLine(g, n, side, idx, line), n)
    ensures SideLine(PutLine(g, n, side, idx, line), n, side, j) ==
      if j == idx then line else SideLine(g, n, side, j)
  {
    var h := PutLine(g, n, side, idx, line);
    var s := SideLine(h, n, side, j);
    if j == idx {
      forall p | 0 <= p < n
        ensures s[p] == line[p]
      {
        assert h[RowOf(side, n, idx, p)][ColOf(side, n, idx, p)] == line[p];
      }
    } else {
      assert s == SideLine(g, n, side, j);
    }
  }

  /** Reading a line and writing it back unchanged leaves the grid as it was. */
  lemma PutSideLine(g: Grid, n: nat, side: WhichRule, idx: nat)
    requires Square(g, n) && idx < n
    ensures PutLine(g, n, side, idx, SideLine(g, n, side, idx)) == g
  {
    var h := PutLine(g, n, side, idx, SideLine(g, n, side, idx));
    forall r | 0 <= r < n
      ensures h[r] == g[r]
    {
      forall c | 0 <= c < n
        ensures h[r][c] == g[r][c]
      {
        CellOnLine(g, n, side, r, c);
      }
    }
  }

  lemma SideLineOk(g: Grid, n: nat, side: WhichRule, idx: nat)
    requires AllOk(g, n) && idx < n
    ensures forall p :: 0 <= p < n ==> CellOk(SideLine(g, n, side, idx)[p], n)
  {
  }

  lemma PutLineKeepsOk(g: Grid, n: nat, side: WhichRule, idx: nat, line: seq<Cell>)
    requires AllOk(g, n) && idx < n && |line| == n
    requires forall p :: 0 <= p < n ==> CellOk(line[p], n)
    ensures AllOk(PutLine(g, n, side, idx, line), n)
  {
  }

  // ---------------------------------------------------------------------------
  // One pass over all lines of a side
  // ---------------------------------------------------------------------------

  /** What is done to one line: nothing (a clue of 0), a clue rule, or the
      unique-candidate rule. */
  datatype Pass = Skip | Rule(clue: nat) | Unique

  function ApplyPass(pass: Pass, line: seq<Cell>): (r: seq<Cell>)
    requires |line| > 0
    ensures |r| == |line|
  {
    match pass
    case Skip => line
    case Rule(k) => ApplyRule(k, line)
    case Unique => UniqueLine(line)
  }

  /** A pass keeps the cell invariant on every cell of a line of a board of side n, and
      the line meets the preconditions of the line methods. */
  lemma PassKeepsOk(pass: Pass, line: seq<Cell>, n: nat)
    requires |line| == n > 0
    requires forall p :: 0 <= p < n ==> CellOk(line[p], n)
    ensures pass.Rule? ==> RuleInBounds(pass.clue, line)
    ensures CountsInBounds(line)
    ensures forall p :: 0 <= p < n ==> CellOk(ApplyPass(pass, line)[p], n)
  {
    UniqueLineKeepsOk(line, n);
    match pass
    case Skip =>
    case Rule(k) => ApplyRuleKeepsOk(k, line, n);
    case Unique =>
  }

  /** The grid once lines 0..k-1 of `side` have been processed, line `i` with
      `passes[i]`: the lines of one side share no cell, so each processed line is the
      pass applied to that line as it was in `g`. */
  function Sweep(g: Grid, n: nat, side: WhichRule, passes: seq<Pass>, k: nat): Grid
    requires Square(g, n) && |passes| == n && k <= n
  {
    seq(n, r requires 0 <= r < n =>
      seq(n, c requires 0 <= c < n =>
        var idx := LineThrough(side, r, c);
        if idx < k then ApplyPass(passes[idx], SideLine(g, n, side, idx))[PosOn(side, n, r, c)]
        else g[r][c]))
  }

  lemma SweepStart(g: Grid, n: nat, side: WhichRule, passes: seq<Pass>)
    requires Square(g, n) && |passes| == n
    ensures Sweep(g, n, side, passes, 0) == g
  {
    var h := Sweep(g, n, side, passes, 0);
    forall r | 0 <= r < n
      ensures h[r] == g[r]
    {
    }
  }

  /** Processing line k of the partly swept grid, reading it from that grid and
      writing it back, is the next stage of the sweep. */
  lemma SweepStep(g: Grid, n: nat, side: WhichRule, passes: seq<Pass>, k: nat)
    requires Square(g, n) && |passes| == n && k < n
    ensures var h := Sweep(g, n, side, passes, k);
      Square(h, n) &&
      SideLine(h, n, side, k) == SideLine(g, n, side, k) &&
      PutLine(h, n, side, k, ApplyPass(passes[k], SideLine(h, n, side, k))) ==
        Sweep(g, n, side, passes, k + 1)
  {
    var h := Sweep(g, n, side, passes, k);
    var line := ApplyPass(passes[k], SideLine(g, n, side, k));
    assert SideLine(h, n, side, k) == SideLine(g, n, side, k);
    var next := PutLine(h, n, side, k, line);
    var want := Sweep(g, n, side, passes, k + 1);
    forall r | 0 <= r < n
      ensures next[r] == want[r]
    {
      forall c | 0 <= c < n
        ensures next[r][c] == want[r][c]
      {
      }
    }
  }

  lemma SweepKeepsOk(g: Grid, n: nat, side: WhichRule, passes: seq<Pass>, k: nat)
    requires AllOk(g, n) && |passes| == n && k <= n
    ensures AllOk(Sweep(g, n, side, passes, k), n)
  {
    var h := Sweep(g, n, side, passes, k);
    forall r, c | 0 <= r < n && 0 <= c < n
      ensures CellOk(h[r][c], n)
    {
      var idx := LineThrough(side, r, c);
      if idx < k {
        SideLineOk(g, n, side, idx);
        PassKeepsOk(passes[idx], SideLine(g, n, side, idx), n);
      }
    }
  }

  /** `check_line` runs the clue rule on the lines whose clue is positive. */
  function Clues(rules: seq<nat>): seq<Pass> {
    seq(|rules|, i requires 0 <= i < |rules| => if rules[i] > 0 then Rule(rules[i]) else Skip)
  }

  function Uniques(n: nat): seq<Pass> {
    seq(n, i => Unique)
  }

  /** `check_line(side)` with the clues `rules` of that side. */
  function CheckLineSpec(g: Grid, n: nat, side: WhichRule, rules: seq<nat>): Grid
    requires Square(g, n) && |rules| == n
  {
    Sweep(g, n, side, Clues(rules), n)
  }

  /** `check_unique_number_left_all_cells`: every column (read top to bottom), then
      every row (read left to right). */
  function UniqueAll(g: Grid, n: nat): Grid
    requires Square(g, n)
  {
    Sweep(Sweep(g, n, Up, Uniques(n), n), n, Left, Uniques(n), n)
  }

  /** A clue of 0 leaves its line as it was; a positive clue applies its rule to the
      line as read from the clue's side. */
  lemma CheckLineCell(g: Grid, n: nat, side: WhichRule, rules: seq<nat>, r: nat, c: nat)
    requires Square(g, n) && |rules| == n && r < n && c < n
    ensures LineThrough(side, r, c) < n
    ensures var idx := LineThrough(side, r, c);
      CheckLineSpec(g, n, side, rules)[r][c] ==
        if rules[idx] == 0 then g[r][c]
        else ApplyRule(rules[idx], SideLine(g, n, side, idx))[PosOn(side, n, r, c)]
  {
    var idx := LineThrough(side, r, c);
    if rules[idx] == 0 {
      CellOnLine(g, n, side, r, c);
    }
  }

  // ---------------------------------------------------------------------------
  // check_compl_cell_excl_hor_and_ver
  // ---------------------------------------------------------------------------

  /** Cell (i, j) of the snapshot, if solved to v, removes v from the cells of row i and
      of column j of `g`. */
  function Hit(g: Grid, snap: Grid, n: nat, i: nat, j: nat): (h: Grid)
    requires Square(g, n) && Square(snap, n) && i < n && j < n
  {
    if Solved(snap[i][j]) then
      seq(n, r requires 0 <= r < n =>
        seq(n, c requires 0 <= c < n =>
          if r == i || c == j then RemoveNumber(g[r][c], snap[i][j].numbers[0]) else g[r][c]))
    else g
  }

  /** The grid once the cells of the snapshot before (i, j) in row-major order have
      been visited; (i, n) and (i + 1, 0) are the same point. */
  function CrossUpTo(snap: Grid, n: nat, i: nat, j: nat): (h: Grid)
    requires Square(snap, n)
    requires (i < n && j <= n) || (i == n && j == 0)
    ensures Square(h, n)
    decreases i, j
  {
    if j == 0 then (if i == 0 then snap else CrossUpTo(snap, n, i - 1, n))
    else Hit(CrossUpTo(snap, n, i, j - 1), snap, n, i, j - 1)
  }

  function CrossElim(snap: Grid, n: nat): Grid
    requires Square(snap, n)
  {
    CrossUpTo(snap, n, n, 0)
  }

  /** Stage (i2, j2) comes after the visit of (i, j). */
  predicate After(i2: nat, j2: nat, i: nat, j: nat) {
    i2 > i || (i2 == i && j2 > j)
  }

  /** Candidate v is gone from x, or x is solved to v. */
  predicate Cleared(x: Cell, v: nat) {
    v !in x.numbers || x.numbers == [v]
  }

  lemma RemoveKeepsCleared(x: Cell, v: nat, w: nat)
    requires Cleared(x, v)
    ensures Cleared(RemoveNumber(x, w), v)
  {
  }

  /** Every cell of `g` shrinks under a Hit and keeps the cell invariant. */
  lemma HitShrinks(g: Grid, snap: Grid, n: nat, i: nat, j: nat)
    requires AllOk(g, n) && Square(snap, n) && i < n && j < n
    ensures AllOk(Hit(g, snap, n, i, j), n)
    ensures forall r, c :: 0 <= r < n && 0 <= c < n ==>
      SubSeq(Hit(g, snap, n, i, j)[r][c].numbers, g[r][c].numbers)
  {
    forall r, c | 0 <= r < n && 0 <= c < n
      ensures SubSeq(Hit(g, snap, n, i, j)[r][c].numbers, g[r][c].numbers)
    {
      SubSeqRefl(g[r][c].numbers);
    }
  }

  /** The elimination only removes candidates and keeps the cell invariant. */
  lemma {:induction false} CrossShrinks(snap: Grid, n: nat, i: nat, j: nat)
    requires AllOk(snap, n)
    requires (i < n && j <= n) || (i == n && j == 0)
    ensures AllOk(CrossUpTo(snap, n, i, j), n)
    ensures forall r, c :: 0 <= r < n && 0 <= c < n ==>
      SubSeq(CrossUpTo(snap, n, i, j)[r][c].numbers, snap[r][c].numbers)
    decreases i, j
  {
    if j == 0 {
      if i == 0 {
        forall r, c | 0 <= r < n && 0 <= c < n
          ensures SubSeq(snap[r][c].numbers, snap[r][c].numbers)
        {
          SubSeqRefl(snap[r][c].numbers);
        }
      } else {
        CrossShrinks(snap, n, i - 1, n);
      }
    } else {
      var g := CrossUpTo(snap, n, i, j - 1);
      CrossShrinks(snap, n, i, j - 1);
      HitShrinks(g, snap, n, i, j - 1);
      forall r, c | 0 <= r < n && 0 <= c < n
        ensures SubSeq(CrossUpTo(snap, n, i, j)[r][c].numbers, snap[r][c].numbers)
      {
        SubSeqTrans(CrossUpTo(snap, n, i, j)[r][c].numbers, g[r][c].numbers, snap[r][c].numbers);
      }
    }
  }

  /** Once cell (i, j), solved to v in the snapshot, has been visited, every cell of its
      row and column has lost v or is solved to v, and stays so. */
  lemma {:induction false} CrossClearsFrom(snap: Grid, n: nat, i: nat, j: nat, r: nat, c: nat, i2: nat, j2: nat)
    requires Square(snap, n) && i < n && j < n && r < n && c < n
    requires Solved(snap[i][j]) && (r == i || c == j)
    requires (i2 < n && j2 <= n) || (i2 == n && j2 == 0)
    requires After(i2, j2, i, j)
    ensures Cleared(CrossUpTo(snap, n, i2, j2)[r][c], snap[i][j].numbers[0])
    decreases i2, j2
  {
    var v := snap[i][j].numbers[0];
    if j2 == 0 {
      CrossClearsFrom(snap, n, i, j, r, c, i2 - 1, n);
    } else {
      var g := CrossUpTo(snap, n, i2, j2 - 1);
      if i2 == i && j2 - 1 == j {
        assert CrossUpTo(snap, n, i2, j2)[r][c] == RemoveNumber(g[r][c], v);
      } else {
        CrossClearsFrom(snap, n, i, j, r, c, i2, j2 - 1);
        if Solved(snap[i2][j2 - 1]) {
          RemoveKeepsCleared(g[r][c], v, snap[i2][j2 - 1].numbers[0]);
        }
      }
    }
  }

  /** A solved cell's value is eliminated from every other cell of its row and of its
      column, unless that cell is itself solved to the same value. */
  lemma CrossClears(snap: Grid, n: nat, i: nat, j: nat, r: nat, c: nat)
    requires Square(snap, n) && i < n && j < n && r < n && c < n
    requires Solved(snap[i][j]) && (r == i || c == j)
    ensures Cleared(CrossElim(snap, n)[r][c], snap[i][j].numbers[0])
  {
    CrossClearsFrom(snap, n, i, j, r, c, n, 0);
  }

  /** A cell shares a row or a column with a solved cell of the snapshot. */
  predicate Exposed(snap: Grid, n: nat, r: nat, c: nat)
    requires Square(snap, n) && r < n && c < n
  {
    (exists k :: 0 <= k < n && Solved(snap[r][k])) || (exists k :: 0 <= k < n && Solved(snap[k][c]))
  }

  /** Cells solved in the snapshot and cells with no solved cell in their row or column
      come out unchanged. */
  lemma {:induction false} CrossKeepsFrom(snap: Grid, n: nat, r: nat, c: nat, i: nat, j: nat)
    requires Square(snap, n) && r < n && c < n
    requires (i < n && j <= n) || (i == n && j == 0)
    requires Solved(snap[r][c]) || !Exposed(snap, n, r, c)
    ensures CrossUpTo(snap, n, i, j)[r][c] == snap[r][c]
    decreases i, j
  {
    if j == 0 {
      if i > 0 {
        CrossKeepsFrom(snap, n, r, c, i - 1, n);
      }
    } else {
      CrossKeepsFrom(snap, n, r, c, i, j - 1);
      if Solved(snap[i][j - 1]) && (r == i || c == j - 1) {
        assert Solved(snap[r][c]);
        SolvedStaysSolved(snap[r][c], snap[i][j - 1].numbers[0]);
      }
    }
  }

  lemma CrossKeeps(snap: Grid, n: nat, r: nat, c: nat)
    requires Square(snap, n) && r < n && c < n
    requires Solved(snap[r][c]) || !Exposed(snap, n, r, c)
    ensures CrossElim(snap, n)[r][c] == snap[r][c]
  {
    CrossKeepsFrom(snap, n, r, c, n, 0);
  }

  // ---------------------------------------------------------------------------
  // check_all
  // ---------------------------------------------------------------------------

  /** The grid after `check_all`: the four clue passes, the unique-candidate pass and
      the row/column elimination, in that order. */
  function Propagate(g: Grid, n: nat, up: seq<nat>, down: seq<nat>, left: seq<nat>, right: seq<nat>): Grid
    requires Square(g, n) && |up| == n && |down| == n && |left| == n && |right| == n
  {
    var afterUp := CheckLineSpec(g, n, Up, up);
    var afterDown := CheckLineSpec(afterUp, n, Down, down);
    var afterLeft := CheckLineSpec(afterDown, n, Left, left);
    var afterRight := CheckLineSpec(afterLeft, n, Right, right);
    CrossElim(UniqueAll(afterRight, n), n)
  }

  /** `check_all` keeps every cell a valid cell of the board: at least one candidate,
      none twice, all in 1..n. */
  lemma PropagateKeepsOk(g: Grid, n: nat, up: seq<nat>, down: seq<nat>, left: seq<nat>, right: seq<nat>)
    requires AllOk(g, n) && |up| == n && |down| == n && |left| == n && |right| == n
    ensures AllOk(Propagate(g, n, up, down, left, right), n)
  {
    var afterUp := CheckLineSpec(g, n, Up, up);
    SweepKeepsOk(g, n, Up, Clues(up), n);
    var afterDown := CheckLineSpec(afterUp, n, Down, down);
    SweepKeepsOk(afterUp, n, Down, Clues(down), n);
    var afterLeft := CheckLineSpec(afterDown, n, Left, left);
    SweepKeepsOk(afterDown, n, Left, Clues(left), n);
    var afterRight := CheckLineSpec(afterLeft, n, Right, right);
    SweepKeepsOk(afterLeft, n, Right, Clues(right), n);
    var cols := Sweep(afterRight, n, Up, Uniques(n), n);
    SweepKeepsOk(afterRight, n, Up, Uniques(n), n);
    SweepKeepsOk(cols, n, Left, Uniques(n), n);
    CrossShrinks(UniqueAll(afterRight, n), n, n, 0);
  }
}
