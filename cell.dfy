/** Candidate cells of a Skyscraper grid (src/cell.rs).

    A cell is a value: the side length `n` of its puzzle and the ordered list of
    heights still possible at its position. The Rust methods that take `&mut self`
    are functions here that return the updated cell; the caller stores the result
    back where the cell lives. */
module Cells {

  datatype Cell = Cell(n: nat, numbers: seq<nat>)

  predicate Ascending(s: seq<nat>) {
    forall i, j :: 0 <= i < j < |s| ==> s[i] < s[j]
  }

  predicate Distinct(s: seq<nat>) {
    forall i, j :: 0 <= i < j < |s| ==> s[i] != s[j]
  }

  /** `r` is `s` with some elements dropped and the others kept in their order. */
  predicate SubSeq(r: seq<nat>, s: seq<nat>)
    decreases |s|
  {
    r == [] || (s != [] && if r[0] == s[0] then SubSeq(r[1..], s[1..]) else SubSeq(r, s[1..]))
  }

  /** What every cell of a board of side `size` satisfies: it belongs to that board,
      keeps at least one candidate, no candidate twice, and only heights 1..size. */
  predicate CellOk(c: Cell, size: nat) {
    c.n == size && |c.numbers| >= 1 && Distinct(c.numbers) &&
    forall x :: x in c.numbers ==> 1 <= x <= size
  }

  predicate Solved(c: Cell) {
    |c.numbers| == 1
  }

  /** `new_cell`: every height 1..n, ascending. */
  function NewCell(n: nat): (c: Cell)
    ensures c.n == n && |c.numbers| == n
    ensures Ascending(c.numbers)
    ensures forall v :: v in c.numbers <==> 1 <= v <= n
    ensures n >= 1 ==> CellOk(c, n)
  {
    HeightsUpTo(n);
    Cell(n, Heights(n))
  }

  /** `(1..n + 1).collect()` */
  function Heights(n: nat): seq<nat> {
    seq(n, i => i + 1)
  }

  lemma HeightsUpTo(n: nat)
    ensures forall v :: v in Heights(n) <==> 1 <= v <= n
  {
    forall v | 1 <= v <= n
      ensures v in Heights(n)
    {
      assert Heights(n)[v - 1] == v;
    }
  }

  /** `replace_cell_with_number`: the cell becomes the single height `v` when `v` is
      a height of the board, and is left alone otherwise. */
  function ReplaceWithNumber(c: Cell, v: nat): (r: Cell)
    ensures r.n == c.n
    ensures 1 <= v <= c.n ==> r.numbers == [v]
    ensures !(1 <= v <= c.n) ==> r == c
    ensures CellOk(c, c.n) ==> CellOk(r, c.n)
  {
    if v > 0 && v <= c.n then Cell(c.n, [v]) else c
  }

  /** `replace_cell_with_vec`: only the length of `vs` is checked, not its values. */
  function ReplaceWithVec(c: Cell, vs: seq<nat>): (r: Cell)
    ensures r.n == c.n
    ensures 0 < |vs| <= c.n ==> r.numbers == vs
    ensures !(0 < |vs| <= c.n) ==> r == c
  {
    if |vs| > 0 && |vs| <= c.n then Cell(c.n, vs) else c
  }

  /** `contains_numbers`: every height of `vs` is a candidate (so true for an empty `vs`). */
  method ContainsNumbers(c: Cell, vs: seq<nat>) returns (b: bool)
    ensures b <==> forall v :: v in vs ==> v in c.numbers
  {
    var i := 0;
    while i < |vs|
      invariant 0 <= i <= |vs|
      invariant forall k :: 0 <= k < i ==> vs[k] in c.numbers
    {
      if vs[i] !in c.numbers {
        return false;
      }
      i := i + 1;
    }
    return true;
  }

  /** `restore`: back to every height of the board, whatever the cell held. */
  function Restore(c: Cell): (r: Cell)
    ensures r.n == c.n && |r.numbers| == c.n && Ascending(r.numbers)
    ensures forall v :: v in r.numbers <==> 1 <= v <= c.n
    ensures c.n >= 1 ==> CellOk(r, c.n)
  {
    NewCell(c.n)
  }

  /** `Vec::retain(|&x| x != v)`. */
  function Without(s: seq<nat>, v: nat): seq<nat> {
    if s == [] then []
    else if s[0] == v then Without(s[1..], v)
    else [s[0]] + Without(s[1..], v)
  }

  /** `retain` drops every occurrence of `v` and keeps every other element ... */
  lemma {:induction false} WithoutCounts(s: seq<nat>, v: nat)
    ensures multiset(Without(s, v)) == multiset(s)[v := 0]
    decreases |s|
  {
    if s != [] {
      WithoutCounts(s[1..], v);
      assert s == [s[0]] + s[1..];
    }
  }

  /** ... in their order. */
  lemma {:induction false} WithoutOrder(s: seq<nat>, v: nat)
    ensures SubSeq(Without(s, v), s)
    ensures v !in Without(s, v)
    decreases |s|
  {
    if s != [] {
      WithoutOrder(s[1..], v);
    }
  }

  lemma DistinctCons(x: nat, r: seq<nat>)
    requires x !in r && Distinct(r)
    ensures Distinct([x] + r)
  {
    var t := [x] + r;
    forall i, j | 0 <= i < j < |t|
      ensures t[i] != t[j]
    {
      assert t[j] == r[j - 1];
      if i > 0 {
        assert t[i] == r[i - 1];
      }
    }
  }

  lemma {:induction false} WithoutDistinct(s: seq<nat>, v: nat)
    requires Distinct(s)
    ensures Distinct(Without(s, v))
    decreases |s|
  {
    if s != [] {
      var rest := Without(s[1..], v);
      assert Distinct(s[1..]) by {
        forall i, j | 0 <= i < j < |s| - 1
          ensures s[1..][i] != s[1..][j]
        {
          assert s[1..][i] == s[i + 1] && s[1..][j] == s[j + 1];
        }
      }
      WithoutDistinct(s[1..], v);
      if s[0] != v {
        WithoutCounts(s[1..], v);
        assert s[0] !in s[1..] by {
          forall k | 0 <= k < |s| - 1
            ensures s[1..][k] != s[0]
          {
            assert s[1..][k] == s[k + 1];
          }
        }
        assert s[0] !in multiset(rest);
        DistinctCons(s[0], rest);
      }
    }
  }

  lemma WithoutSpec(s: seq<nat>, v: nat)
    ensures multiset(Without(s, v)) == multiset(s)[v := 0]
    ensures SubSeq(Without(s, v), s)
    ensures Distinct(s) ==> Distinct(Without(s, v))
  {
    WithoutCounts(s, v);
    WithoutOrder(s, v);
    if Distinct(s) {
      WithoutDistinct(s, v);
    }
  }

  /** `remove_number`: removes `v` only when it is a candidate and is not the last one. */
  function RemoveNumber(c: Cell, v: nat): (r: Cell)
    ensures r.n == c.n
    ensures SubSeq(r.numbers, c.numbers)
    ensures forall x :: x in r.numbers <==> x in c.numbers && (x != v || |c.numbers| == 1)
    ensures |c.numbers| <= 1 ==> r == c
    ensures Distinct(c.numbers) && |c.numbers| >= 1 ==> |r.numbers| >= 1
    ensures CellOk(c, c.n) ==> CellOk(r, c.n)
  {
    if v in c.numbers && |c.numbers| > 1 then
      var r := Cell(c.n, Without(c.numbers, v));
      WithoutSpec(c.numbers, v);
      assert forall x :: x in r.numbers <==> x in multiset(r.numbers);
      assert Distinct(c.numbers) ==> c.numbers[0] in r.numbers || c.numbers[1] in r.numbers;
      r
    else
      SubSeqRefl(c.numbers);
      c
  }

  /** Applies `RemoveNumber` for each height of `vs`, first to last. */
  function RemoveEach(c: Cell, vs: seq<nat>): Cell
    decreases |vs|
  {
    if vs == [] then c else RemoveNumber(RemoveEach(c, vs[..|vs| - 1]), vs[|vs| - 1])
  }

  lemma {:induction false} SubSeqRefl(s: seq<nat>)
    ensures SubSeq(s, s)
    decreases |s|
  {
    if s != [] {
      SubSeqRefl(s[1..]);
    }
  }

  lemma {:induction false} SubSeqDropHead(a: seq<nat>, s: seq<nat>)
    requires a != [] && SubSeq(a, s)
    ensures SubSeq(a[1..], s)
    decreases |s|
  {
    if a[0] == s[0] {
      if |a| > 1 && a[1] == s[0] {
        SubSeqDropHead(a[1..], s[1..]);
      }
    } else {
      SubSeqDropHead(a, s[1..]);
      if |a| > 1 && a[1] == s[0] {
        SubSeqDropHead(a[1..], s[1..]);
      }
    }
  }

  lemma {:induction false} SubSeqTrans(a: seq<nat>, b: seq<nat>, c: seq<nat>)
    requires SubSeq(a, b) && SubSeq(b, c)
    ensures SubSeq(a, c)
    decreases |c|
  {
    if a != [] {
      if b[0] == c[0] {
        if a[0] == b[0] {
          SubSeqTrans(a[1..], b[1..], c[1..]);
        } else {
          SubSeqTrans(a, b[1..], c[1..]);
        }
      } else {
        SubSeqTrans(a, b, c[1..]);
        if a[0] == c[0] {
          SubSeqDropHead(a, c[1..]);
        }
      }
    }
  }

  lemma {:induction false} WithoutAbsent(s: seq<nat>, v: nat)
    requires v !in s
    ensures Without(s, v) == s
    decreases |s|
  {
    if s != [] {
      WithoutAbsent(s[1..], v);
    }
  }

  lemma {:induction false} WithoutConcat(a: seq<nat>, b: seq<nat>, v: nat)
    ensures Without(a + b, v) == Without(a, v) + Without(b, v)
    decreases |a|
  {
    if a == [] {
      assert a + b == b;
    } else {
      assert (a + b)[0] == a[0];
      assert (a + b)[1..] == a[1..] + b;
      WithoutConcat(a[1..], b, v);
    }
  }

  /** Removing the same height twice is the same as removing it once. */
  lemma RemoveNumberIdempotent(c: Cell, v: nat)
    ensures RemoveNumber(RemoveNumber(c, v), v) == RemoveNumber(c, v)
  {
    var r := RemoveNumber(c, v);
    if v in c.numbers && |c.numbers| > 1 {
      assert v !in r.numbers;
    }
  }

  /** `restore` forgets the previous candidates entirely and is idempotent. */
  lemma RestoreForgets(c: Cell, d: Cell)
    requires c.n == d.n
    ensures Restore(c) == Restore(d)
    ensures Restore(Restore(c)) == Restore(c)
  {
  }

  /** A solved cell is never changed by `remove_number` (the last-candidate guard). */
  lemma SolvedStaysSolved(c: Cell, v: nat)
    requires Solved(c)
    ensures RemoveNumber(c, v) == c
  {
  }

  /** `replace_cell_with_vec` does not check the heights it stores, so it can put a
      cell out of range of its board. */
  lemma ReplaceWithVecUnchecked()
    ensures CellOk(NewCell(3), 3) && !CellOk(ReplaceWithVec(NewCell(3), [7]), 3)
  {
    assert 7 in ReplaceWithVec(NewCell(3), [7]).numbers;
  }

  /** What a run of removals does: the cell only loses candidates, in order, keeps
      every candidate not in `vs`, and never empties; if some candidate lies outside
      `vs`, every height of `vs` is gone. */
  lemma {:induction false} RemoveEachEffect(c: Cell, vs: seq<nat>)
    ensures RemoveEach(c, vs).n == c.n
    ensures SubSeq(RemoveEach(c, vs).numbers, c.numbers)
    ensures forall x :: x in c.numbers && x !in vs ==> x in RemoveEach(c, vs).numbers
    ensures CellOk(c, c.n) ==> CellOk(RemoveEach(c, vs), c.n)
    ensures (exists w :: w in c.numbers && w !in vs) ==>
              forall x :: x in RemoveEach(c, vs).numbers <==> x in c.numbers && x !in vs
    decreases |vs|
  {
    if vs == [] {
      SubSeqRefl(c.numbers);
    } else {
      var front := vs[..|vs| - 1];
      var last := vs[|vs| - 1];
      assert vs == front + [last];
      RemoveEachEffect(c, front);
      var p := RemoveEach(c, front);
      SubSeqTrans(RemoveNumber(p, last).numbers, p.numbers, c.numbers);
      if exists w :: w in c.numbers && w !in vs {
        var w :| w in c.numbers && w !in vs;
        assert w in p.numbers && w != last;
        assert |p.numbers| == 1 ==> p.numbers[0] == w;
      }
    }
  }
}
