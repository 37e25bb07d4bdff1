/** `Board` of src/board.rs: the side length, the four clue rows and the grid of
    cells, with the commands that edit it and the propagation step `check_all`.

    The grid `Vec<Vec<Cell>>` and the clue vectors are fields holding sequences that
    the methods reassign. Every method keeps `Valid()`, and each is proved equal to a
    function of module `Grids` or `Commands` on the old state. */
module Boards {
  import opened Cells
  import opened LineRules
  import opened Grids
  import opened Commands

  /** A clue row of a board of side n: one clue per line, none above n (0: no clue). */
  predicate CluesOk(rules: seq<nat>, n: nat) {
    |rules| == n && forall i :: 0 <= i < n ==> rules[i] <= n
  }

  class Board {
    const number: nat
    var rulesUp: seq<nat>
    var rulesDown: seq<nat>
    var rulesLeft: seq<nat>
    var rulesRight: seq<nat>
    /** `cells[row][col]` */
    var cells: Grid

    ghost predicate Valid()
      reads this
    {
      AllOk(cells, number) &&
      CluesOk(rulesUp, number) && CluesOk(rulesDown, number) &&
      CluesOk(rulesLeft, number) && CluesOk(rulesRight, number)
    }

    /** The clue row of one side. */
    function Rules(which: WhichRule): seq<nat>
      reads this
    {
      match which
      case Up => rulesUp
      case Down => rulesDown
      case Left => rulesLeft
      case Right => rulesRight
    }

    ghost function AllRules(): seq<seq<nat>>
      reads this
    {
      [rulesUp, rulesDown, rulesLeft, rulesRight]
    }

    /** `new_board`: every cell holds all heights 1..number, no side has a clue. */
    constructor (number: nat)
      ensures this.number == number
      ensures cells == seq(number, r => seq(number, c => NewCell(number)))
      ensures rulesUp == seq(number, i => 0) && rulesDown == seq(number, i => 0)
      ensures rulesLeft == seq(number, i => 0) && rulesRight == seq(number, i => 0)
      ensures Valid()
    {
      this.number := number;
      cells := seq(number, r => seq(number, c => NewCell(number)));
      rulesUp := seq(number, i => 0);
      rulesDown := seq(number, i => 0);
      rulesLeft := seq(number, i => 0);
      rulesRight := seq(number, i => 0);
    }

    /** `update_rule_x`: read the clues of one side from a string. The row is read
        into a copy by `Commands.ReadClues` and stored back; nothing else can see the
        row in between. */
    method UpdateRuleX(args: string, which: WhichRule)
      requires Valid()
      modifies this
      ensures Valid() && cells == old(cells)
      ensures Rules(which) == Overlay(old(Rules(which)), Slots(args, number))
      ensures forall w :: w != which ==> Rules(w) == old(Rules(w))
    {
      var rules := ReadClues(args, Rules(which), number);
      OverlayBounded(Rules(which), args, number);
      SetRules(which, rules);
    }

    /** The clue row of one side replaced by `rules`. */
    method SetRules(which: WhichRule, rules: seq<nat>)
      requires Valid() && CluesOk(rules, number)
      modifies this
      ensures Valid() && cells == old(cells)
      ensures Rules(which) == rules
      ensures forall w :: w != which ==> Rules(w) == old(Rules(w))
    {
      match which {
        case Up => rulesUp := rules;
        case Down => rulesDown := rules;
        case Left => rulesLeft := rules;
        case Right => rulesRight := rules;
      }
    }

    /** Cell (r, c) replaced by `x`; the rest of the grid unchanged. */
    static function Put(g: Grid, r: nat, c: nat, x: Cell): Grid
      requires r < |g| && c < |g[r]|
    {
      g[r := g[r][c := x]]
    }

    /** `restore_cell`, with the row and column checked to lie in 1..number (the source
        only checks that they are at most number). */
    method RestoreCell(args: string)
      requires Valid()
      modifies this
      ensures Valid() && AllRules() == old(AllRules())
      ensures match ParseRestore(args, number)
        case None => cells == old(cells)
        case Some(rc) => cells == Put(old(cells), rc.0, rc.1, Restore(old(cells)[rc.0][rc.1]))
    {
      if |args| >= 2 && IsDigit(args[0]) && IsDigit(args[1]) {
        var rowN := DigitOf(args[0]);
        var colN := DigitOf(args[1]);
        if 0 < rowN <= number && 0 < colN <= number {
          cells := Put(cells, rowN - 1, colN - 1, Restore(cells[rowN - 1][colN - 1]));
        }
      }
    }

    /** `check_ok_cell`: solve a cell to a value. */
    method CheckOkCell(args: string)
      requires Valid()
      modifies this
      ensures Valid() && AllRules() == old(AllRules())
      ensures match ParseCellCommand(args, number)
        case None => cells == old(cells)
        case Some(cmd) =>
          cells == Put(old(cells), cmd.row, cmd.col, ReplaceWithNumber(old(cells)[cmd.row][cmd.col], cmd.value))
    {
      if |args| >= 3 && IsDigit(args[0]) && IsDigit(args[1]) && IsDigit(args[2]) {
        var horLine := DigitOf(args[0]);
        var verLine := DigitOf(args[1]);
        var value := DigitOf(args[2]);
        if horLine > 0 && horLine < 1 + number && verLine > 0 && verLine < 1 + number {
          cells := Put(cells, horLine - 1, verLine - 1,
                       ReplaceWithNumber(cells[horLine - 1][verLine - 1], value));
        }
      }
    }

    /** `remove_number_from_cell`: drop one candidate of a cell. */
    method RemoveNumberFromCell(args: string)
      requires Valid()
      modifies this
      ensures Valid() && AllRules() == old(AllRules())
      ensures match ParseCellCommand(args, number)
        case None => cells == old(cells)
        case Some(cmd) =>
          cells == Put(old(cells), cmd.row, cmd.col, RemoveNumber(old(cells)[cmd.row][cmd.col], cmd.value))
    {
      if |args| >= 3 && IsDigit(args[0]) && IsDigit(args[1]) && IsDigit(args[2]) {
        var horLine := DigitOf(args[0]);
        var verLine := DigitOf(args[1]);
        var value := DigitOf(args[2]);
        if horLine > 0 && horLine < 1 + number && verLine > 0 && verLine < 1 + number {
          cells := Put(cells, horLine - 1, verLine - 1,
                       RemoveNumber(cells[horLine - 1][verLine - 1], value));
        }
      }
    }

    /** One arm of `check_line` or of `check_unique_number_left_all_cells` for one
        line: clone the line into a vector in the order seen from `side`, run the line
        rule on it, and copy back the cells that changed. */
    method ProcessLine(side: WhichRule, idx: nat, pass: Pass)
      requires Valid() && idx < number
      modifies this
      ensures Valid() && AllRules() == old(AllRules())
      ensures cells ==
        PutLine(old(cells), number, side, idx, ApplyPass(pass, SideLine(old(cells), number, side, idx)))
    {
      ghost var before := SideLine(cells, number, side, idx);
      var line := ReadLine(side, idx);
      SideLineOk(cells, number, side, idx);
      PassKeepsOk(pass, before, number);
      match pass {
        case Skip =>
        case Rule(k) => CheckCellLineByRule(k, line);
        case Unique => CheckUniqueNumberLeft(line);
      }
      assert line[..] == ApplyPass(pass, before);
      PutLineKeepsOk(cells, number, side, idx, line[..]);
      WriteLine(side, idx, line[..]);
    }

    /** The cloning loop: the cells of line `idx` in the order seen from `side`. */
    method ReadLine(side: WhichRule, idx: nat) returns (line: array<Cell>)
      requires Square(cells, number) && idx < number
      ensures fresh(line)
      ensures line[..] == SideLine(cells, number, side, idx)
    {
      line := new Cell[number];
      for p := 0 to number
        invariant forall q :: 0 <= q < p ==> line[q] == SideLine(cells, number, side, idx)[q]
      {
        line[p] := cells[RowOf(side, number, idx, p)][ColOf(side, number, idx, p)];
      }
    }

    /** The copy-back loop: a cell of the line is stored when it differs from the
        board's. */
    method WriteLine(side: WhichRule, idx: nat, res: seq<Cell>)
      requires Square(cells, number) && idx < number && |res| == number
      modifies this
      ensures AllRules() == old(AllRules())
      ensures cells == PutLine(old(cells), number, side, idx, res)
    {
      for p := 0 to number
        invariant Square(cells, number) && AllRules() == old(AllRules())
        invariant forall r, c :: 0 <= r < number && 0 <= c < number ==>
          cells[r][c] ==
            if LineThrough(side, r, c) == idx && PosOn(side, number, r, c) < p
            then res[PosOn(side, number, r, c)] else old(cells)[r][c]
      {
        var r := RowOf(side, number, idx, p);
        var c := ColOf(side, number, idx, p);
        OnLineAt(side, number, idx, p);
        if cells[r][c] != res[p] {
          cells := Put(cells, r, c, res[p]);
        }
      }
      ghost var want := PutLine(old(cells), number, side, idx, res);
      forall r | 0 <= r < number
        ensures cells[r] == want[r]
      {
      }
    }

    /** `check_line`: the clue rule on every line of one side whose clue is positive. */
    method CheckLine(which: WhichRule)
      requires Valid()
      modifies this
      ensures Valid() && AllRules() == old(AllRules())
      ensures cells == CheckLineSpec(old(cells), number, which, Rules(which))
    {
      ghost var g := cells;
      var rules := Rules(which);
      ghost var passes := Clues(rules);
      SweepStart(g, number, which, passes);
      var idx := 0;
      while idx < number
        invariant idx <= number
        invariant Valid() && AllRules() == old(AllRules())
        invariant cells == Sweep(g, number, which, passes, idx)
      {
        var rule := rules[idx];
        SweepStep(g, number, which, passes, idx);
        if rule > 0 {
          ProcessLine(which, idx, Rule(rule));
        } else {
          PutSideLine(cells, number, which, idx);
        }
        idx := idx + 1;
      }
    }

    /** `check_unique_number_left_all_cells`: the unique-candidate rule on every
        column, then on every row. */
    method CheckUniqueNumberLeftAllCells()
      requires Valid()
      modifies this
      ensures Valid() && AllRules() == old(AllRules())
      ensures cells == UniqueAll(old(cells), number)
    {
      UniqueSweep(Up);
      UniqueSweep(Left);
    }

    /** One of the two loops of `check_unique_number_left_all_cells`: every column
        read from the top (Up) or every row read from the left (Left). */
    method UniqueSweep(side: WhichRule)
      requires Valid()
      modifies this
      ensures Valid() && AllRules() == old(AllRules())
      ensures cells == Sweep(old(cells), number, side, Uniques(number), number)
    {
      ghost var g := cells;
      ghost var passes := Uniques(number);
      SweepStart(g, number, side, passes);
      var idx := 0;
      while idx < number
        invariant idx <= number
        invariant Valid() && AllRules() == old(AllRules())
        invariant cells == Sweep(g, number, side, passes, idx)
      {
        SweepStep(g, number, side, passes, idx);
        ProcessLine(side, idx, Unique);
        idx := idx + 1;
      }
    }

    /** `check_compl_cell_excl_hor_and_ver`: for every cell solved in a snapshot of
        the grid, remove its value from its column and its row. */
    method CheckComplCellExclHorAndVer()
      requires Valid()
      modifies this
      ensures Valid() && AllRules() == old(AllRules())
      ensures cells == CrossElim(old(cells), number)
    {
      var snapshot := cells;
      var i := 0;
      while i < number
        invariant i <= number
        invariant AllRules() == old(AllRules())
        invariant cells == CrossUpTo(snapshot, number, i, 0)
      {
        var j := 0;
        while j < number
          invariant j <= number
          invariant AllRules() == old(AllRules())
          invariant cells == CrossUpTo(snapshot, number, i, j)
        {
          var cell := snapshot[i][j];
          if |cell.numbers| == 1 {
            ClearLines(snapshot, i, j, cell.numbers[0]);
          }
          j := j + 1;
        }
        i := i + 1;
      }
      CrossShrinks(snapshot, number, number, 0);
    }

    /** The `inner_range_num` loop: v leaves column j and row i. */
    method ClearLines(ghost snapshot: Grid, i: nat, j: nat, v: nat)
      requires Square(cells, number) && Square(snapshot, number) && i < number && j < number
      requires Solved(snapshot[i][j]) && v == snapshot[i][j].numbers[0]
      modifies this
      ensures AllRules() == old(AllRules())
      ensures cells == Hit(old(cells), snapshot, number, i, j)
    {
      ghost var before := cells;
      var k := 0;
      while k < number
        invariant k <= number
        invariant Square(cells, number) && AllRules() == old(AllRules())
        invariant forall r, c :: 0 <= r < number && 0 <= c < number ==>
          cells[r][c] ==
            if (c == j && r < k) || (r == i && c < k) then RemoveNumber(before[r][c], v) else before[r][c]
      {
        RemoveNumberIdempotent(before[k][j], v);
        RemoveNumberIdempotent(before[i][k], v);
        cells := Put(cells, k, j, RemoveNumber(cells[k][j], v));
        cells := Put(cells, i, k, RemoveNumber(cells[i][k], v));
        k := k + 1;
      }
      ghost var want := Hit(before, snapshot, number, i, j);
      forall r | 0 <= r < number
        ensures cells[r] == want[r]
      {
      }
    }

    /** `check_all`: `check_integrity` (which does nothing), the clue rules of the four
        sides, the unique-candidate rule and the row/column elimination. */
    method CheckAll()
      requires Valid()
      modifies this
      ensures Valid() && AllRules() == old(AllRules())
      ensures cells == Propagate(old(cells), number, rulesUp, rulesDown, rulesLeft, rulesRight)
    {
      CheckLine(Up);
      CheckLine(Down);
      CheckLine(Left);
      CheckLine(Right);
      CheckUniqueNumberLeftAllCells();
      CheckComplCellExclHorAndVer();
    }
  }
}
