/** The per-line deductions that src/board.rs defines as free functions:
    `check_cell_line_by_rule` (the clue rules) and `check_unique_number_left`.

    A line is the list of cells of one row or column, ordered from the side the clue
    is read from. Both operations change the line in place, so they are methods on an
    array of cells, each proved equal to a specification function on the line's value;
    the lemmas below say what those functions mean. */
module LineRules {
  import opened Cells

  // ---------------------------------------------------------------------------
  // check_cell_line_by_rule
  // ---------------------------------------------------------------------------

  /** `(hi - count + 1..hi + 1).rev().collect()`: hi, hi - 1, ..., hi - count + 1. */
  function Descending(hi: nat, count: nat): seq<nat>
    requires count <= hi + 1
  {
    seq(count, i requires 0 <= i < count => hi - i)
  }

  lemma DescendingMembers(hi: nat, count: nat)
    requires count <= hi + 1
    ensures forall x :: x in Descending(hi, count) <==> hi - count < x <= hi
  {
    var s := Descending(hi, count);
    forall x | hi - count < x <= hi
      ensures x in s
    {
      assert s[hi - x] == x;
    }
  }

  /** The cell indexing `check_cell_line_by_rule` does never leaves the line. The side
      length is read from the first cell, so the line must have one. */
  predicate RuleInBounds(rule: nat, line: seq<Cell>) {
    |line| > 0 &&
    var m := line[0].n;
    (m > 2 && rule == 2 ==> |line| >= 2) &&
    (m > 2 && 2 < rule < m ==> |line| >= rule - 1) &&
    (m > 2 && rule == m ==> |line| >= m)
  }

  /** What the clue `rule` does to cell `i` of a line of a board of side `m`. */
  function RuleCell(rule: nat, m: nat, i: nat, c: Cell): Cell {
    if m <= 2 then c
    else if rule == 1 then (if i == 0 then ReplaceWithNumber(c, m) else c)
    else if rule == 2 then
      (if i == 0 then RemoveNumber(c, m) else if i == 1 then RemoveNumber(c, m - 1) else c)
    else if 2 < rule < m then
      (if i <= rule - 2 then RemoveEach(c, Descending(m, rule - 1 - i)) else c)
    else if rule == m then (if i < m then ReplaceWithNumber(c, i + 1) else c)
    else c
  }

  function ApplyRule(rule: nat, line: seq<Cell>): seq<Cell>
    requires |line| > 0
  {
    seq(|line|, i requires 0 <= i < |line| => RuleCell(rule, line[0].n, i, line[i]))
  }

  /** `check_cell_line_by_rule` */
  method CheckCellLineByRule(rule: nat, line: array<Cell>)
    requires RuleInBounds(rule, line[..])
    modifies line
    ensures line[..] == ApplyRule(rule, old(line[..]))
  {
    ghost var orig := line[..];
    var maxNumber := line[0].n;
    if maxNumber <= 2 {
      return;
    }
    if rule == 1 {
      line[0] := ReplaceWithNumber(line[0], maxNumber);
    } else if rule == 2 {
      line[0] := RemoveNumber(line[0], maxNumber);
      line[1] := RemoveNumber(line[1], maxNumber - 1);
    } else if 2 < rule < maxNumber {
      var numbersToErase := Descending(maxNumber, rule - 1);
      var index := 0;
      while numbersToErase != []
        invariant index <= rule - 1
        invariant numbersToErase == Descending(maxNumber, rule - 1 - index)
        invariant forall i :: 0 <= i < line.Length ==>
                    line[i] == if i < index then RuleCell(rule, maxNumber, i, orig[i]) else orig[i]
      {
        var j := 0;
        while j < |numbersToErase|
          invariant 0 <= j <= |numbersToErase|
          invariant line[index] == RemoveEach(orig[index], numbersToErase[..j])
          invariant forall i :: 0 <= i < line.Length && i != index ==>
                      line[i] == if i < index then RuleCell(rule, maxNumber, i, orig[i]) else orig[i]
        {
          assert numbersToErase[..j + 1][..j] == numbersToErase[..j];
          line[index] := RemoveNumber(line[index], numbersToErase[j]);
          j := j + 1;
        }
        assert numbersToErase[..j] == numbersToErase;
        numbersToErase := numbersToErase[..|numbersToErase| - 1];
        index := index + 1;
      }
    } else if rule == maxNumber {
      for i := 0 to maxNumber
        invariant forall k :: 0 <= k < line.Length ==>
                    line[k] == if k < i then RuleCell(rule, maxNumber, k, orig[k]) else orig[k]
      {
        line[i] := ReplaceWithNumber(line[i], i + 1);
      }
    }
  }

  /** On a board of side 1 or 2 no clue changes anything. */
  lemma SmallBoardUnchanged(rule: nat, line: seq<Cell>)
    requires |line| > 0 && line[0].n <= 2
    ensures ApplyRule(rule, line) == line
  {
  }

  /** A clue that is 0 or larger than the side changes nothing. */
  lemma OutOfRangeClueUnchanged(rule: nat, line: seq<Cell>)
    requires |line| > 0 && (rule == 0 || rule > line[0].n)
    ensures ApplyRule(rule, line) == line
  {
  }

  /** Clue 1: the nearest cell holds the tallest building; nothing else changes. */
  lemma ClueOne(line: seq<Cell>)
    requires |line| > 0 && line[0].n >= 3
    ensures ApplyRule(1, line)[0].numbers == [line[0].n]
    ensures forall i :: 1 <= i < |line| ==> ApplyRule(1, line)[i] == line[i]
  {
  }

  /** Clue 2: the tallest height leaves cell 0 and the second tallest leaves cell 1,
      each unless it is that cell's last candidate; nothing else changes. */
  lemma ClueTwo(line: seq<Cell>)
    requires |line| >= 2 && line[0].n >= 3
    requires CellOk(line[0], line[0].n) && CellOk(line[1], line[0].n)
    ensures var r := ApplyRule(2, line); var m := line[0].n;
      (forall x :: x in r[0].numbers <==> x in line[0].numbers && (x != m || Solved(line[0]))) &&
      (forall x :: x in r[1].numbers <==> x in line[1].numbers && (x != m - 1 || Solved(line[1]))) &&
      CellOk(r[0], m) && CellOk(r[1], m) &&
      forall i :: 2 <= i < |line| ==> r[i] == line[i]
  {
  }

  /** In a strictly descending run, the last height is below every earlier one. */
  lemma LastIsLeast(vs: seq<nat>, x: nat)
    requires |vs| > 0 && forall a, b :: 0 <= a < b < |vs| ==> vs[a] > vs[b]
    requires x in vs
    ensures vs[|vs| - 1] <= x
  {
    var a :| 0 <= a < |vs| && vs[a] == x;
  }

  /** Removing heights in strictly descending order from a valid cell whose candidates
      all lie in the run: each removal but the one that would empty the cell succeeds,
      so exactly the smallest candidate survives. */
  lemma {:induction false} RemoveDescendingLeast(c: Cell, vs: seq<nat>)
    requires CellOk(c, c.n)
    requires forall a, b :: 0 <= a < b < |vs| ==> vs[a] > vs[b]
    ensures var r := RemoveEach(c, vs);
      (forall x :: x in c.numbers ==> x in vs) ==>
        Solved(r) && r.numbers[0] in c.numbers && forall x :: x in c.numbers ==> r.numbers[0] <= x
    decreases |vs|
  {
    if vs == [] {
      assert c.numbers[0] !in vs;
    } else if forall x :: x in c.numbers ==> x in vs {
      var front := vs[..|vs| - 1];
      var v := vs[|vs| - 1];
      assert vs == front + [v];
      RemoveEachSnoc(c, front, v);
      var p := RemoveEach(c, front);
      if forall x :: x in c.numbers ==> x in front {
        RemoveDescendingLeast(c, front);
        SolvedStaysSolved(p, v);
      } else {
        RemoveEachEffect(c, front);
        // Every candidate of p is v and the removal never empties p, so v survives,
        // which the guard allows only when p already held v alone.
        var r := RemoveNumber(p, v);
        assert r.numbers[0] in r.numbers;
        forall x | x in c.numbers
          ensures v <= x
        {
          LastIsLeast(vs, x);
        }
      }
    }
  }

  /** Clue k with 2 < k < n: cell i (for i <= k - 2) loses every height from
      n - k + 2 + i up, as long as it has a smaller candidate to keep; otherwise the
      last-candidate guard leaves it its smallest candidate alone. Cells k - 1 onwards
      are unchanged. */
  lemma MidClue(rule: nat, line: seq<Cell>, i: nat)
    requires RuleInBounds(rule, line) && 2 < rule < line[0].n
    requires i < |line| && CellOk(line[i], line[0].n)
    ensures var r := ApplyRule(rule, line)[i]; var lo := line[0].n - rule + 2 + i;
      CellOk(r, line[0].n) && SubSeq(r.numbers, line[i].numbers) &&
      (i >= rule - 1 ==> r == line[i]) &&
      (i <= rule - 2 ==>
        (forall x :: x in line[i].numbers && x < lo ==> x in r.numbers) &&
        ((exists w :: w in line[i].numbers && w < lo) ==>
          forall x :: x in r.numbers <==> x in line[i].numbers && x < lo) &&
        (!(exists w :: w in line[i].numbers && w < lo) ==>
          Solved(r) && r.numbers[0] in line[i].numbers &&
          forall x :: x in line[i].numbers ==> r.numbers[0] <= x))
  {
    var m := line[0].n;
    if i <= rule - 2 {
      var vs := Descending(m, rule - 1 - i);
      DescendingMembers(m, rule - 1 - i);
      RemoveEachEffect(line[i], vs);
      RemoveDescendingLeast(line[i], vs);
      assert forall x :: x in line[i].numbers ==> (x in vs <==> x >= m - rule + 2 + i);
    } else {
      SubSeqRefl(line[i].numbers);
    }
  }

  /** Clue n: the line is forced to 1, 2, ..., n from the clue's side. */
  lemma ClueMax(line: seq<Cell>)
    requires |line| > 0 && line[0].n >= 3 && |line| == line[0].n
    requires forall i :: 0 <= i < |line| ==> line[i].n == line[0].n
    ensures forall i :: 0 <= i < |line| ==> ApplyRule(line[0].n, line)[i].numbers == [i + 1]
  {
  }

  /** Every cell a clue rule produces on a line of a board of side `size` still
      satisfies the cell invariant of that board. */
  lemma ApplyRuleKeepsOk(rule: nat, line: seq<Cell>, size: nat)
    requires |line| == size > 0
    requires forall i :: 0 <= i < |line| ==> CellOk(line[i], size)
    ensures RuleInBounds(rule, line)
    ensures |ApplyRule(rule, line)| == size
    ensures forall i :: 0 <= i < size ==> CellOk(ApplyRule(rule, line)[i], size)
  {
    forall i | 0 <= i < size
      ensures CellOk(ApplyRule(rule, line)[i], size)
    {
      if 2 < rule < size && i <= rule - 2 {
        RemoveEachEffect(line[i], Descending(size, rule - 1 - i));
      }
    }
  }

  /** A line of `n` untouched cells of a board of side `n`. */
  function FullLine(n: nat): seq<Cell> {
    seq(n, i => NewCell(n))
  }

  /** Dropping a height that occurs once, between `a` and `b`. */
  lemma DropOne(a: seq<nat>, v: nat, b: seq<nat>)
    requires v !in a && v !in b
    ensures Without(a + [v] + b, v) == a + b
  {
    WithoutConcat(a + [v], b, v);
    WithoutConcat(a, [v], v);
    WithoutAbsent(a, v);
    WithoutAbsent(b, v);
    assert Without([v], v) == [];
    assert Without(a + [v], v) == a;
    assert Without(a + [v] + b, v) == Without(a + [v], v) + Without(b, v);
  }

  /** The clue fixtures of the test module of src/board.rs, side 5: clue 1. */
  lemma ClueOneFixture()
    ensures ApplyRule(1, FullLine(5)) ==
      [Cell(5, [5]), NewCell(5), NewCell(5), NewCell(5), NewCell(5)]
  {
  }

  lemma DropFiveFromFull()
    ensures RemoveNumber(NewCell(5), 5) == Cell(5, [1, 2, 3, 4])
  {
    assert NewCell(5) == Cell(5, [1, 2, 3, 4] + [5] + []);
    DropStep([1, 2, 3, 4], 5, []);
  }

  lemma DropFourFromFull()
    ensures RemoveNumber(NewCell(5), 4) == Cell(5, [1, 2, 3, 5])
  {
    assert NewCell(5) == Cell(5, [1, 2, 3] + [4] + [5]);
    DropStep([1, 2, 3], 4, [5]);
  }

  lemma DropFourFromFour()
    ensures RemoveNumber(Cell(5, [1, 2, 3, 4]), 4) == Cell(5, [1, 2, 3])
  {
    assert [1, 2, 3] + [4] + [] == [1, 2, 3, 4];
    DropStep([1, 2, 3], 4, []);
  }

  lemma DropThreeFromThree()
    ensures RemoveNumber(Cell(5, [1, 2, 3]), 3) == Cell(5, [1, 2])
  {
    assert [1, 2] + [3] + [] == [1, 2, 3];
    DropStep([1, 2], 3, []);
  }

  /** Removing a height that a cell of side 5 holds once, between `a` and `b`. */
  lemma DropStep(a: seq<nat>, v: nat, b: seq<nat>)
    requires v !in a && v !in b && |a + b| >= 1
    ensures RemoveNumber(Cell(5, a + [v] + b), v) == Cell(5, a + b)
  {
    DropOne(a, v, b);
    assert v in a + [v] + b;
  }

  lemma ClueTwoFixture()
    ensures ApplyRule(2, FullLine(5)) ==
      [Cell(5, [1, 2, 3, 4]), Cell(5, [1, 2, 3, 5]), NewCell(5), NewCell(5), NewCell(5)]
  {
    DropFiveFromFull();
    DropFourFromFull();
  }

  lemma RemoveEachSnoc(c: Cell, vs: seq<nat>, v: nat)
    ensures RemoveEach(c, vs + [v]) == RemoveNumber(RemoveEach(c, vs), v)
  {
    assert (vs + [v])[..|vs|] == vs;
  }

  lemma EraseTopOne()
    ensures RemoveEach(NewCell(5), Descending(5, 1)) == Cell(5, [1, 2, 3, 4])
  {
    assert Descending(5, 1) == [] + [5];
    RemoveEachSnoc(NewCell(5), [], 5);
    DropFiveFromFull();
  }

  lemma EraseTopTwo()
    ensures RemoveEach(NewCell(5), Descending(5, 2)) == Cell(5, [1, 2, 3])
  {
    assert Descending(5, 2) == Descending(5, 1) + [4];
    RemoveEachSnoc(NewCell(5), Descending(5, 1), 4);
    EraseTopOne();
    DropFourFromFour();
  }

  lemma EraseTopThree()
    ensures RemoveEach(NewCell(5), Descending(5, 3)) == Cell(5, [1, 2])
  {
    assert Descending(5, 3) == Descending(5, 2) + [3];
    RemoveEachSnoc(NewCell(5), Descending(5, 2), 3);
    EraseTopTwo();
    DropThreeFromThree();
  }

  lemma MidClueFixture()
    ensures ApplyRule(4, FullLine(5)) ==
      [Cell(5, [1, 2]), Cell(5, [1, 2, 3]), Cell(5, [1, 2, 3, 4]), NewCell(5), NewCell(5)]
  {
    EraseTopOne();
    EraseTopTwo();
    EraseTopThree();
  }

  /** The last-candidate guard under clue 3 on a line of side 5: cell 0 with [4, 5]
      loses 5, then keeps 4 because it is the last candidate. */
  lemma MidClueGuardFixture()
    ensures ApplyRule(3, [Cell(5, [4, 5])] + FullLine(5)[1..])[0] == Cell(5, [4])
  {
    assert Descending(5, 2) == [5, 4];
    assert RemoveNumber(Cell(5, [4, 5]), 5) == Cell(5, [4]) by {
      DropOne([4], 5, []);
    }
    RemoveEachSnoc(Cell(5, [4, 5]), [5], 4);
    RemoveEachSnoc(Cell(5, [4, 5]), [], 5);
    assert [5] + [4] == [5, 4];
    assert [] + [5] == [5];
  }

  lemma ClueMaxFixture()
    ensures ApplyRule(5, FullLine(5)) ==
      [Cell(5, [1]), Cell(5, [2]), Cell(5, [3]), Cell(5, [4]), Cell(5, [5])]
  {
  }

  // ---------------------------------------------------------------------------
  // check_unique_number_left
  // ---------------------------------------------------------------------------

  /** How often `v` occurs among the candidates of `s`. */
  function Occ(s: seq<nat>, v: nat): nat {
    multiset(s)[v]
  }

  lemma OccSnoc(s: seq<nat>, x: nat)
    ensures forall v :: Occ(s + [x], v) == Occ(s, v) + (if v == x then 1 else 0)
  {
    assert multiset(s + [x]) == multiset(s) + multiset{x};
  }

  /** How often `v` occurs among the candidates of all cells of `line`: the entry
      `number_count[v - 1]` computes. */
  function LineCount(line: seq<Cell>, v: nat): nat
    decreases |line|
  {
    if line == [] then 0
    else LineCount(line[..|line| - 1], v) + Occ(line[|line| - 1].numbers, v)
  }

  /** `number_count` after the counting loop: entry `k` counts height `k + 1`. */
  function Counts(line: seq<Cell>, m: nat): seq<nat> {
    seq(m, k requires 0 <= k => LineCount(line, k + 1))
  }

  /** The counting loop indexes `number_count[num - 1]` with a vector as long as the
      side read from the first cell, so every candidate must be a height 1..that side. */
  predicate CountsInBounds(line: seq<Cell>) {
    |line| > 0 &&
    forall i, x :: 0 <= i < |line| && x in line[i].numbers ==> 1 <= x <= line[0].n
  }

  predicate IsUnique(counts: seq<nat>, v: nat) {
    1 <= v <= |counts| && counts[v - 1] == 1
  }

  /** One step of the second loop: height `v` is forced into cell `c`. */
  function ForceOne(c: Cell, counts: seq<nat>, v: nat): Cell
    requires 1 <= v <= |counts|
  {
    if counts[v - 1] == 1 && |c.numbers| > 1 && v in c.numbers then ReplaceWithNumber(c, v) else c
  }

  /** Cell `c` after the second loop has gone through heights 1..t. */
  function ForceUpTo(c: Cell, counts: seq<nat>, t: nat): Cell
    requires t <= |counts|
    decreases t
  {
    if t == 0 then c else ForceOne(ForceUpTo(c, counts, t - 1), counts, t)
  }

  function UniqueLine(line: seq<Cell>): seq<Cell>
    requires |line| > 0
  {
    var counts := Counts(line, line[0].n);
    seq(|line|, i requires 0 <= i < |line| => ForceUpTo(line[i], counts, line[0].n))
  }

  /** The inner counting loop: one cell's candidates are added to `numberCount`. */
  method CountCell(numberCount: array<nat>, nums: seq<nat>)
    requires forall x :: x in nums ==> 1 <= x <= numberCount.Length
    modifies numberCount
    ensures forall k :: 0 <= k < numberCount.Length ==>
              numberCount[k] == old(numberCount[k]) + Occ(nums, k + 1)
  {
    var j := 0;
    assert nums[..0] == [];
    assert forall v :: Occ([], v) == 0;
    while j < |nums|
      invariant 0 <= j <= |nums|
      invariant forall k :: 0 <= k < numberCount.Length ==>
                  numberCount[k] == old(numberCount[k]) + Occ(nums[..j], k + 1)
    {
      assert nums[j] in nums;
      assert nums[..j + 1] == nums[..j] + [nums[j]];
      OccSnoc(nums[..j], nums[j]);
      numberCount[nums[j] - 1] := numberCount[nums[j] - 1] + 1;
      j := j + 1;
    }
    assert nums[..j] == nums;
  }

  /** The counting loop of `check_unique_number_left`: `number_count[k]` is how often
      height k + 1 occurs among the candidates of the line. */
  method CountNumbers(line: array<Cell>, m: nat) returns (numberCount: array<nat>)
    requires forall i, x :: 0 <= i < line.Length && x in line[i].numbers ==> 1 <= x <= m
    ensures fresh(numberCount)
    ensures numberCount[..] == Counts(line[..], m)
  {
    numberCount := new nat[m](_ => 0);
    var i := 0;
    while i < line.Length
      invariant 0 <= i <= line.Length
      invariant numberCount.Length == m
      invariant forall k :: 0 <= k < m ==> numberCount[k] == LineCount(line[..i], k + 1)
    {
      CountCell(numberCount, line[i].numbers);
      assert line[..i + 1][..i] == line[..i];
      i := i + 1;
    }
    assert line[..i] == line[..];
  }

  /** `check_unique_number_left` */
  method CheckUniqueNumberLeft(line: array<Cell>)
    requires CountsInBounds(line[..])
    modifies line
    ensures line[..] == UniqueLine(old(line[..]))
  {
    ghost var orig := line[..];
    var m := line[0].n;
    var numberCount := CountNumbers(line, m);
    ghost var counts := numberCount[..];

    var index := 0;
    while index < m
      invariant 0 <= index <= m
      invariant numberCount[..] == counts
      invariant forall k :: 0 <= k < line.Length ==> line[k] == ForceUpTo(orig[k], counts, index)
    {
      var nCount := numberCount[index];
      var k := 0;
      while k < line.Length
        invariant 0 <= k <= line.Length
        invariant numberCount[..] == counts
        invariant forall t :: 0 <= t < k ==> line[t] == ForceUpTo(orig[t], counts, index + 1)
        invariant forall t :: k <= t < line.Length ==> line[t] == ForceUpTo(orig[t], counts, index)
      {
        if nCount == 1 {
          if |line[k].numbers| > 1 {
            if index + 1 in line[k].numbers {
              line[k] := ReplaceWithNumber(line[k], index + 1);
            }
          }
        }
        k := k + 1;
      }
      index := index + 1;
    }
  }

  /** After the second loop has gone through heights 1..t, a cell with more than one
      candidate that holds a height counted once is solved to the smallest such height;
      every other cell is as it was. */
  lemma {:induction false} ForceUpToLeast(c: Cell, counts: seq<nat>, t: nat)
    requires t <= |counts| <= c.n
    ensures var r := ForceUpTo(c, counts, t);
      if |c.numbers| > 1 && exists v :: v in c.numbers && v <= t && IsUnique(counts, v) then
        Solved(r) && r.n == c.n && r.numbers[0] in c.numbers && IsUnique(counts, r.numbers[0]) &&
        forall u :: u in c.numbers && u < r.numbers[0] ==> !IsUnique(counts, u)
      else r == c
    decreases t
  {
    if t > 0 {
      ForceUpToLeast(c, counts, t - 1);
      var p := ForceUpTo(c, counts, t - 1);
      if |c.numbers| > 1 && exists v :: v in c.numbers && v <= t - 1 && IsUnique(counts, v) {
        assert ForceUpTo(c, counts, t) == p;
      } else if |c.numbers| > 1 && t in c.numbers && IsUnique(counts, t) {
        assert ForceUpTo(c, counts, t).numbers == [t];
      } else if |c.numbers| > 1 {
        assert forall v :: v in c.numbers && v <= t && IsUnique(counts, v) ==> v <= t - 1;
      }
    }
  }

  /** `check_unique_number_left` on a line of a board of side n: a cell with more than
      one candidate, one of which occurs nowhere else in the line, is solved to the
      smallest such candidate; every other cell is unchanged. */
  lemma UniqueLineEffect(line: seq<Cell>, i: nat)
    requires |line| > 0 && i < |line|
    requires forall k :: 0 <= k < |line| ==> CellOk(line[k], line[0].n)
    ensures var r := UniqueLine(line)[i];
      if |line[i].numbers| > 1 && exists v :: v in line[i].numbers && LineCount(line, v) == 1 then
        Solved(r) && r.n == line[i].n && r.numbers[0] in line[i].numbers &&
        LineCount(line, r.numbers[0]) == 1 &&
        forall u :: u in line[i].numbers && u < r.numbers[0] ==> LineCount(line, u) != 1
      else r == line[i]
  {
    var m := line[0].n;
    var counts := Counts(line, m);
    ForceUpToLeast(line[i], counts, m);
    assert forall v :: v in line[i].numbers ==> (IsUnique(counts, v) <==> LineCount(line, v) == 1);
  }

  /** Every cell of a line of a board of side `size` still satisfies the cell invariant
      after `check_unique_number_left`. */
  lemma UniqueLineKeepsOk(line: seq<Cell>, size: nat)
    requires |line| == size > 0
    requires forall i :: 0 <= i < |line| ==> CellOk(line[i], size)
    ensures CountsInBounds(line)
    ensures |UniqueLine(line)| == size
    ensures forall i :: 0 <= i < size ==> CellOk(UniqueLine(line)[i], size)
  {
    forall i | 0 <= i < size
      ensures CellOk(UniqueLine(line)[i], size)
    {
      UniqueLineEffect(line, i);
    }
  }

  lemma {:induction false} LineCountCovers(line: seq<Cell>, i: nat, v: nat)
    requires i < |line|
    ensures LineCount(line, v) >= Occ(line[i].numbers, v)
    decreases |line|
  {
    if i < |line| - 1 {
      assert line[..|line| - 1][i] == line[i];
      LineCountCovers(line[..|line| - 1], i, v);
    }
  }

  lemma {:induction false} LineCountCoversTwo(line: seq<Cell>, i: nat, j: nat, v: nat)
    requires i < j < |line|
    ensures LineCount(line, v) >= Occ(line[i].numbers, v) + Occ(line[j].numbers, v)
    decreases |line|
  {
    var front := line[..|line| - 1];
    assert front[i] == line[i];
    if j == |line| - 1 {
      LineCountCovers(front, i, v);
    } else {
      assert front[j] == line[j];
      LineCountCoversTwo(front, i, j, v);
    }
  }

  /** A height counted once in a line is a candidate of exactly one of its cells. */
  lemma CountedOnceMeansOneCell(line: seq<Cell>, v: nat, i: nat, j: nat)
    requires i < |line| && j < |line| && i != j
    requires LineCount(line, v) == 1 && v in line[i].numbers
    ensures v !in line[j].numbers
  {
    if i < j {
      LineCountCoversTwo(line, i, j, v);
    } else {
      LineCountCoversTwo(line, j, i, v);
    }
  }

  lemma LineCountSnoc(line: seq<Cell>, c: Cell, v: nat)
    ensures LineCount(line + [c], v) == LineCount(line, v) + Occ(c.numbers, v)
  {
    assert (line + [c])[..|line|] == line;
  }

  lemma LineCountThree(a: Cell, b: Cell, c: Cell, v: nat)
    ensures LineCount([a, b, c], v) == Occ(a.numbers, v) + Occ(b.numbers, v) + Occ(c.numbers, v)
  {
    LineCountSnoc([], a, v);
    LineCountSnoc([a], b, v);
    LineCountSnoc([a, b], c, v);
    assert [] + [a] == [a] && [a] + [b] == [a, b] && [a, b] + [c] == [a, b, c];
  }

  lemma LineCountFour(a: Cell, b: Cell, c: Cell, d: Cell, v: nat)
    ensures LineCount([a, b, c, d], v) ==
      Occ(a.numbers, v) + Occ(b.numbers, v) + Occ(c.numbers, v) + Occ(d.numbers, v)
  {
    LineCountThree(a, b, c, v);
    LineCountSnoc([a, b, c], d, v);
    assert [a, b, c] + [d] == [a, b, c, d];
  }

  /** The fixtures of `test_check_unique_number_left` in src/board.rs. */
  lemma UniqueFixtureFourCount(v: nat)
    ensures LineCount([Cell(4, [1, 2, 3]), Cell(4, [1, 2]), Cell(4, [2, 3]), Cell(4, [1, 2, 3, 4])], v) ==
      Occ([1, 2, 3], v) + Occ([1, 2], v) + Occ([2, 3], v) + Occ([1, 2, 3, 4], v)
  {
    LineCountFour(Cell(4, [1, 2, 3]), Cell(4, [1, 2]), Cell(4, [2, 3]), Cell(4, [1, 2, 3, 4]), v);
  }

  lemma UniqueFixtureFourCounts()
    ensures Counts([Cell(4, [1, 2, 3]), Cell(4, [1, 2]), Cell(4, [2, 3]), Cell(4, [1, 2, 3, 4])], 4) ==
      [3, 4, 3, 1]
  {
    var line := [Cell(4, [1, 2, 3]), Cell(4, [1, 2]), Cell(4, [2, 3]), Cell(4, [1, 2, 3, 4])];
    UniqueFixtureFourCount(1);
    UniqueFixtureFourCount(2);
    UniqueFixtureFourCount(3);
    UniqueFixtureFourCount(4);
    assert Counts(line, 4)[0] == 3;
    assert Counts(line, 4)[1] == 4;
    assert Counts(line, 4)[2] == 3;
    assert Counts(line, 4)[3] == 1;
  }

  /** The four-cell fixture: only the last cell holds 4, so it is solved to 4. */
  lemma UniqueFixtureFour()
    ensures UniqueLine([Cell(4, [1, 2, 3]), Cell(4, [1, 2]), Cell(4, [2, 3]), Cell(4, [1, 2, 3, 4])]) ==
      [Cell(4, [1, 2, 3]), Cell(4, [1, 2]), Cell(4, [2, 3]), Cell(4, [4])]
  {
    UniqueFixtureFourCounts();
    var counts := [3, 4, 3, 1];
    assert ForceUpTo(Cell(4, [1, 2, 3]), counts, 4) == Cell(4, [1, 2, 3]);
    assert ForceUpTo(Cell(4, [1, 2]), counts, 4) == Cell(4, [1, 2]);
    assert ForceUpTo(Cell(4, [2, 3]), counts, 4) == Cell(4, [2, 3]);
    assert ForceUpTo(Cell(4, [1, 2, 3, 4]), counts, 3) == Cell(4, [1, 2, 3, 4]);
    assert ForceUpTo(Cell(4, [1, 2, 3, 4]), counts, 4) == Cell(4, [4]);
  }

  lemma UniqueFixtureThree()
    ensures UniqueLine([Cell(3, [2, 3]), Cell(3, [1]), Cell(3, [2, 3])]) ==
      [Cell(3, [2, 3]), Cell(3, [1]), Cell(3, [2, 3])]
  {
    var line := [Cell(3, [2, 3]), Cell(3, [1]), Cell(3, [2, 3])];
    forall v
      ensures LineCount(line, v) == Occ([2, 3], v) + Occ([1], v) + Occ([2, 3], v)
    {
      LineCountThree(line[0], line[1], line[2], v);
    }
    assert Counts(line, 3) == [1, 2, 2];
  }
}
