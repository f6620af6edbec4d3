/** The cell value of the minefield and counting over a row-major sequence of cells. */
module Cells {

  /** The `count` value that marks a cell holding a mine (CELL_COUNT_MINE). */
  const MINE: int := -1

  /** One cell of the field: closed or opened, flagged or not, and its count,
      which is MINE or, once mines are placed, the number of adjacent mines. */
  datatype Cell = Cell(isOpen: bool, flagged: bool, count: int)

  /** A default-constructed cell: closed, unflagged, count 0. */
  const Fresh: Cell := Cell(false, false, 0)

  predicate IsMine(x: Cell) { x.count == MINE }

  predicate IsFlagged(x: Cell) { x.flagged }

  /** A closed cell that does not hold a mine: the cells the game still needs opened. */
  predicate IsClosedPlain(x: Cell) { !x.isOpen && x.count != MINE }

  /** The number of cells of `s` that satisfy `p`. */
  function Count(s: seq<Cell>, p: Cell -> bool): (n: nat)
    ensures n <= |s|
  {
    if s == [] then 0 else (if p(s[0]) then 1 else 0) + Count(s[1..], p)
  }

  /** The counts of all cells, in order. */
  function Counts(s: seq<Cell>): seq<int> {
    seq(|s|, j requires 0 <= j < |s| => s[j].count)
  }

  /** Replacing one cell changes the count by what the old cell and the new cell contribute. */
  lemma {:induction false} CountUpdate(s: seq<Cell>, i: int, x: Cell, p: Cell -> bool)
    requires 0 <= i < |s|
    ensures Count(s[i := x], p) == Count(s, p) - (if p(s[i]) then 1 else 0) + (if p(x) then 1 else 0)
  {
    if i > 0 {
      assert s[i := x][1..] == s[1..][i - 1 := x];
      CountUpdate(s[1..], i - 1, x, p);
    } else {
      assert s[i := x][1..] == s[1..];
    }
  }

  /** The count is zero exactly when no cell satisfies the predicate. */
  lemma {:induction false} CountZero(s: seq<Cell>, p: Cell -> bool)
    ensures Count(s, p) == 0 <==> forall j :: 0 <= j < |s| ==> !p(s[j])
  {
    if s != [] {
      CountZero(s[1..], p);
      assert forall j :: 1 <= j < |s| ==> s[j] == s[1..][j - 1];
    }
  }

  /** Two sequences whose cells agree on `p` position by position count the same. */
  lemma {:induction false} CountPointwise(s: seq<Cell>, t: seq<Cell>, p: Cell -> bool)
    requires |s| == |t| && forall j :: 0 <= j < |s| ==> p(s[j]) == p(t[j])
    ensures Count(s, p) == Count(t, p)
  {
    if s != [] {
      assert forall j :: 1 <= j < |s| ==> s[j] == s[1..][j - 1] && t[j] == t[1..][j - 1];
      CountPointwise(s[1..], t[1..], p);
    }
  }

  /** When `p` and `q` split the cells of `s`, their counts add up to the length. */
  lemma {:induction false} CountSplit(s: seq<Cell>, p: Cell -> bool, q: Cell -> bool)
    requires forall j :: 0 <= j < |s| ==> (p(s[j]) <==> !q(s[j]))
    ensures Count(s, p) + Count(s, q) == |s|
  {
    if s != [] {
      assert forall j :: 1 <= j < |s| ==> s[j] == s[1..][j - 1];
      CountSplit(s[1..], p, q);
    }
  }

  /** The number of mine cells is the multiplicity of MINE among the counts. */
  lemma {:induction false} MineCountIsMultiplicity(s: seq<Cell>)
    ensures Count(s, IsMine) == multiset(Counts(s))[MINE]
  {
    if s != [] {
      MineCountIsMultiplicity(s[1..]);
      assert Counts(s) == [s[0].count] + Counts(s[1..]);
    }
  }
}
