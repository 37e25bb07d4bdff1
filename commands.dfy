/** How the `Board` methods of src/board.rs read their string argument: a clue string
    for `update_rule_x`, and the two- or three-digit cell commands of `restore_cell`,
    `check_ok_cell` and `remove_number_from_cell`. Characters are Unicode scalar
    values; only '0'..'9' are digits (`char::to_digit(10)`). */
module Commands {

  datatype Option<T> = None | Some(value: T)

  predicate IsDigit(ch: char) {
    '0' <= ch <= '9'
  }

  function DigitOf(ch: char): (d: nat)
    requires IsDigit(ch)
    ensures d <= 9
  {
    ch as int - '0' as int
  }

  function DigitChar(d: nat): (ch: char)
    requires d <= 9
    ensures IsDigit(ch) && DigitOf(ch) == d
  {
    ('0' as int + d) as char
  }

  lemma DigitCharOf(ch: char)
    requires IsDigit(ch)
    ensures DigitChar(DigitOf(ch)) == ch
  {
  }

  // ---------------------------------------------------------------------------
  // update_rule_x
  // ---------------------------------------------------------------------------

  /** A digit larger than the side: `update_rule_x` skips it without moving on to the
      next clue position. */
  predicate OverRange(ch: char, n: nat) {
    IsDigit(ch) && DigitOf(ch) > n
  }

  /** The characters of `args` that take up a clue position, in order: everything but
      the over-range digits. */
  function Slots(args: string, n: nat): seq<char>
    decreases |args|
  {
    if args == [] then []
    else
      var last := args[|args| - 1];
      Slots(args[..|args| - 1], n) + (if OverRange(last, n) then [] else [last])
  }

  /** The clue row after the positions taken by `slots` have been read: a digit sets its
      position, any other character leaves it, and positions past the slots keep their
      old clue. */
  function Overlay(rules: seq<nat>, slots: seq<char>): seq<nat> {
    seq(|rules|, i requires 0 <= i < |rules| =>
      if i < |slots| && IsDigit(slots[i]) then DigitOf(slots[i]) else rules[i])
  }

  lemma SlotsSnoc(args: string, n: nat, p: nat)
    requires p < |args|
    ensures Slots(args[..p + 1], n) ==
      Slots(args[..p], n) + (if OverRange(args[p], n) then [] else [args[p]])
  {
    assert args[..p + 1][..p] == args[..p];
  }

  /** The slots of a prefix of `args` are a prefix of the slots of `args`. */
  lemma {:induction false} SlotsPrefix(args: string, n: nat, p: nat)
    requires p <= |args|
    ensures |Slots(args[..p], n)| <= |Slots(args, n)|
    ensures Slots(args[..p], n) == Slots(args, n)[..|Slots(args[..p], n)|]
    decreases |args| - p
  {
    if p < |args| {
      SlotsPrefix(args, n, p + 1);
      SlotsSnoc(args, n, p);
    } else {
      assert args[..p] == args;
    }
  }

  /** No slot is an over-range digit. */
  lemma {:induction false} SlotsInRange(args: string, n: nat)
    ensures forall i :: 0 <= i < |Slots(args, n)| ==> !OverRange(Slots(args, n)[i], n)
    decreases |args|
  {
    if args != [] {
      SlotsInRange(args[..|args| - 1], n);
    }
  }

  /** Only the first |rules| slots matter. */
  lemma OverlayPrefix(rules: seq<nat>, a: seq<char>, b: seq<char>)
    requires |rules| <= |a| <= |b| && a == b[..|a|]
    ensures Overlay(rules, a) == Overlay(rules, b)
  {
    forall i | 0 <= i < |rules|
      ensures Overlay(rules, a)[i] == Overlay(rules, b)[i]
    {
      assert a[i] == b[i];
    }
  }

  /** Reading one more slot sets its clue position if it is a digit. */
  lemma OverlaySnoc(rules: seq<nat>, slots: seq<char>, ch: char)
    requires |slots| < |rules|
    ensures Overlay(rules, slots + [ch]) ==
      if IsDigit(ch) then Overlay(rules, slots)[|slots| := DigitOf(ch)] else Overlay(rules, slots)
  {
    var s := slots + [ch];
    forall i | 0 <= i < |rules|
      ensures Overlay(rules, s)[i] ==
        (if IsDigit(ch) then Overlay(rules, slots)[|slots| := DigitOf(ch)] else Overlay(rules, slots))[i]
    {
      if i < |slots| {
        assert s[i] == slots[i];
      }
    }
  }

  /** Reading stops at the end of the string or once every position has been
      filled; either way the clue row is the one the whole string gives. */
  lemma OverlayStop(rules: seq<nat>, args: string, n: nat, pos: nat)
    requires pos <= |args|
    requires pos == |args| || |Slots(args[..pos], n)| >= |rules|
    ensures Overlay(rules, Slots(args[..pos], n)) == Overlay(rules, Slots(args, n))
  {
    SlotsPrefix(args, n, pos);
    if pos == |args| {
      assert args[..pos] == args;
    } else {
      OverlayPrefix(rules, Slots(args[..pos], n), Slots(args, n));
    }
  }

  /** The loop of `update_rule_x` over the characters of `args`, on the clue row
      `rules` of the chosen side: `index` is the next clue position; it stops once
      every position is filled, skips a digit above n without moving on, stores any
      other digit, and moves on past every other character. */
  method ReadClues(args: string, rules: seq<nat>, n: nat) returns (r: seq<nat>)
    requires |rules| == n
    ensures r == Overlay(rules, Slots(args, n))
  {
    r := rules;
    var index := 0;
    var pos := 0;
    while pos < |args|
      invariant pos <= |args|
      invariant index == |Slots(args[..pos], n)| <= n
      invariant r == Overlay(rules, Slots(args[..pos], n))
    {
      if index >= n {
        break;
      }
      var ch := args[pos];
      SlotsSnoc(args, n, pos);
      if IsDigit(ch) {
        var rule := DigitOf(ch);
        if rule > n {
          pos := pos + 1;
          continue;
        }
        OverlaySnoc(rules, Slots(args[..pos], n), ch);
        r := r[index := rule];
      } else {
        OverlaySnoc(rules, Slots(args[..pos], n), ch);
      }
      index := index + 1;
      pos := pos + 1;
    }
    OverlayStop(rules, args, n, pos);
  }

  /** Clues never exceed the side: a row whose clues are at most n keeps that after
      `update_rule_x`. */
  lemma OverlayBounded(rules: seq<nat>, args: string, n: nat)
    requires forall i :: 0 <= i < |rules| ==> rules[i] <= n
    ensures |Overlay(rules, Slots(args, n))| == |rules|
    ensures forall i :: 0 <= i < |rules| ==> Overlay(rules, Slots(args, n))[i] <= n
  {
    SlotsInRange(args, n);
  }

  lemma {:induction false} SlotsAllDigits(args: string, n: nat)
    requires forall i :: 0 <= i < |args| ==> IsDigit(args[i]) && DigitOf(args[i]) <= n
    ensures Slots(args, n) == args
    decreases |args|
  {
    if args != [] {
      var init := args[..|args| - 1];
      var last := args[|args| - 1];
      assert forall i :: 0 <= i < |init| ==> init[i] == args[i];
      SlotsAllDigits(init, n);
      assert !OverRange(last, n);
      assert Slots(args, n) == init + [last];
      assert init + [last] == args;
    }
  }

  /** A clue string of n digits, each at most n, sets the n clues of the side in
      order. */
  lemma OverlayAllDigits(rules: seq<nat>, args: string, n: nat)
    requires |rules| == |args| == n
    requires forall i :: 0 <= i < n ==> IsDigit(args[i]) && DigitOf(args[i]) <= n
    ensures forall i :: 0 <= i < n ==> Overlay(rules, Slots(args, n))[i] == DigitOf(args[i])
  {
    SlotsAllDigits(args, n);
  }

  /** Side 4, clue string "1x9 2": '1' sets position 0, 'x' and ' ' leave positions 1
      and 2, '9' is skipped without taking a position, and '2' sets position 3. */
  lemma UpdateRuleFixture()
    ensures Overlay([0, 0, 0, 0], Slots("1x9 2", 4)) == [1, 0, 0, 2]
  {
    assert "1x9 2"[..4] == "1x9 ";
    assert "1x9 "[..3] == "1x9";
    assert "1x9"[..2] == "1x";
    assert "1x"[..1] == "1";
    assert Slots("1x9 2", 4) == "1x 2";
  }

  // ---------------------------------------------------------------------------
  // check_ok_cell and remove_number_from_cell
  // ---------------------------------------------------------------------------

  /** A cell command: zero-based row and column, and the digit that follows them. */
  datatype CellCommand = CellCommand(row: nat, col: nat, value: nat)

  /** The first three characters must be digits; row and column are 1-based and must
      lie in 1..n; anything after the third character is ignored. */
  function ParseCellCommand(args: string, n: nat): (r: Option<CellCommand>)
    ensures r.Some? ==> r.value.row < n && r.value.col < n && r.value.value <= 9
  {
    if |args| >= 3 && IsDigit(args[0]) && IsDigit(args[1]) && IsDigit(args[2]) &&
       0 < DigitOf(args[0]) < 1 + n && 0 < DigitOf(args[1]) < 1 + n
    then Some(CellCommand(DigitOf(args[0]) - 1, DigitOf(args[1]) - 1, DigitOf(args[2])))
    else None
  }

  /** How a user writes a command: row and column 1-based, then the value. */
  function FormatCellCommand(cmd: CellCommand): (s: string)
    requires cmd.row < 9 && cmd.col < 9 && cmd.value <= 9
  {
    [DigitChar(cmd.row + 1), DigitChar(cmd.col + 1), DigitChar(cmd.value)]
  }

  /** Every command on the board, written out, is read back as itself, whatever
      follows it. */
  lemma ParseFormat(cmd: CellCommand, n: nat, rest: string)
    requires cmd.row < n && cmd.col < n && cmd.row < 9 && cmd.col < 9 && cmd.value <= 9
    ensures ParseCellCommand(FormatCellCommand(cmd) + rest, n) == Some(cmd)
  {
  }

  /** A command that is accepted is exactly its first three characters written out. */
  lemma FormatParse(args: string, n: nat)
    requires ParseCellCommand(args, n).Some?
    ensures var cmd := ParseCellCommand(args, n).value;
      cmd.row < 9 && cmd.col < 9 && FormatCellCommand(cmd) == args[..3]
  {
    DigitCharOf(args[0]);
    DigitCharOf(args[1]);
    DigitCharOf(args[2]);
  }

  /** A row or column digit of 0 is rejected, as is one beyond the side. */
  lemma ParseRejectsOutside(args: string, n: nat)
    requires |args| >= 3 && IsDigit(args[0]) && IsDigit(args[1])
    requires DigitOf(args[0]) == 0 || DigitOf(args[0]) > n || DigitOf(args[1]) == 0 || DigitOf(args[1]) > n
    ensures ParseCellCommand(args, n) == None
  {
  }

  // ---------------------------------------------------------------------------
  // restore_cell
  // ---------------------------------------------------------------------------

  /** The guard of `restore_cell` as written: two digits, each at most n, then the
      cell at (digit - 1, digit - 1). The row and column are `int` here so that the
      index a digit 0 produces can be seen. */
  function RestoreTargetAsWritten(args: string, n: nat): (r: Option<(int, int)>)
    ensures r.Some? ==> r.value.0 < n && r.value.1 < n
  {
    if |args| >= 2 && IsDigit(args[0]) && IsDigit(args[1]) &&
       DigitOf(args[0]) <= n && DigitOf(args[1]) <= n
    then Some((DigitOf(args[0]) - 1, DigitOf(args[1]) - 1))
    else None
  }

  /** "01" on a board of side 3 passes the guard and asks for row -1: in the source
      `row_n as usize - 1` underflows and the program panics. */
  lemma RestoreAsWrittenUnderflows()
    ensures RestoreTargetAsWritten("01", 3) == Some((-1, 0))
  {
  }

  /** `restore_cell` with the guard the other cell commands use: row and column in 1..n. */
  function ParseRestore(args: string, n: nat): (r: Option<(nat, nat)>)
    ensures r.Some? ==> r.value.0 < n && r.value.1 < n
  {
    if |args| >= 2 && IsDigit(args[0]) && IsDigit(args[1]) &&
       0 < DigitOf(args[0]) <= n && 0 < DigitOf(args[1]) <= n
    then Some((DigitOf(args[0]) - 1, DigitOf(args[1]) - 1))
    else None
  }

  /** The corrected guard accepts exactly the commands the original accepts whose
      target lies on the board, and targets the same cell. */
  lemma RestoreCorrected(args: string, n: nat)
    ensures ParseRestore(args, n).Some? <==>
      (RestoreTargetAsWritten(args, n).Some? &&
       RestoreTargetAsWritten(args, n).value.0 >= 0 && RestoreTargetAsWritten(args, n).value.1 >= 0)
    ensures ParseRestore(args, n).Some? ==>
      ParseRestore(args, n).value.0 == RestoreTargetAsWritten(args, n).value.0 &&
      ParseRestore(args, n).value.1 == RestoreTargetAsWritten(args, n).value.1
  {
  }
}
