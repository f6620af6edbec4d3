/** What a field of cells means: mines and their neighbour counts, the pool that
    setupMines distributes, and the shape of an openCell cascade. Everything here
    is stated on the row-major sequence of cells of a `width` x `height` grid. */
module Field {
  import opened Cells
  import opened Geometry

  // ---------------------------------------------------------------------------
  // Cells at positions

  predicate MineAt(s: seq<Cell>, width: int, height: int, q: Pos) {
    InBounds(width, height, q) && |s| == width * height && s[Idx(width, height, q)].count == MINE
  }

  predicate OpenAt(s: seq<Cell>, width: int, height: int, q: Pos) {
    InBounds(width, height, q) && |s| == width * height && s[Idx(width, height, q)].isOpen
  }

  predicate ZeroAt(s: seq<Cell>, width: int, height: int, q: Pos) {
    InBounds(width, height, q) && |s| == width * height && s[Idx(width, height, q)].count == 0
  }

  /** `q` was closed in `s0` and is open in `s1`. */
  predicate NewlyOpenAt(s0: seq<Cell>, s1: seq<Cell>, width: int, height: int, q: Pos) {
    InBounds(width, height, q) && |s0| == width * height && |s1| == width * height &&
    !s0[Idx(width, height, q)].isOpen && s1[Idx(width, height, q)].isOpen
  }

  // ---------------------------------------------------------------------------
  // Neighbour counts

  /** How many of the first `k` neighbours of `p` (in adjVec order) lie on the grid and hold a mine. */
  function AdjMines(s: seq<Cell>, width: int, height: int, p: Pos, k: int): (n: nat)
    requires 0 <= k <= 8
    ensures n <= k
  {
    if k == 0 then 0
    else AdjMines(s, width, height, p, k - 1) + (if MineAt(s, width, height, Step(p, k - 1)) then 1 else 0)
  }

  /** The number of mines among the in-bounds 8-neighbours of `p`. */
  function NeighbourMines(s: seq<Cell>, width: int, height: int, p: Pos): nat {
    AdjMines(s, width, height, p, 8)
  }

  /** Every non-mine cell holds the number of mines among its neighbours. */
  ghost predicate CountsCorrect(s: seq<Cell>, width: int, height: int) {
    forall p :: InBounds(width, height, p) && |s| == width * height && !MineAt(s, width, height, p) ==>
      s[Idx(width, height, p)].count == NeighbourMines(s, width, height, p)
  }

  /** Two fields with mines in the same cells. */
  predicate SameMines(s: seq<Cell>, t: seq<Cell>) {
    |s| == |t| && forall j :: 0 <= j < |s| ==> (s[j].count == MINE <==> t[j].count == MINE)
  }

  /** Neighbour counts depend only on where the mines are. */
  lemma {:induction false} AdjMinesSameMines(s: seq<Cell>, t: seq<Cell>, width: int, height: int, p: Pos, k: int)
    requires 0 <= k <= 8 && SameMines(s, t)
    ensures AdjMines(s, width, height, p, k) == AdjMines(t, width, height, p, k)
  {
    if k > 0 {
      AdjMinesSameMines(s, t, width, height, p, k - 1);
      var q := Step(p, k - 1);
      if InBounds(width, height, q) && |s| == width * height {
        var i := Idx(width, height, q);
        assert s[i].count == MINE <==> t[i].count == MINE;
      }
    }
  }

  /** A count of zero over the first `k` neighbours means none of them is a mine. */
  lemma {:induction false} AdjMinesZero(s: seq<Cell>, width: int, height: int, p: Pos, k: int)
    requires 0 <= k <= 8 && AdjMines(s, width, height, p, k) == 0
    ensures forall k' :: 0 <= k' < k ==> !MineAt(s, width, height, Step(p, k'))
  {
    if k > 0 {
      AdjMinesZero(s, width, height, p, k - 1);
    }
  }

  /** With correct counts, a cell showing 0 has no mine around it, which is why the cascade is safe. */
  lemma ZeroHasNoMineNeighbour(s: seq<Cell>, width: int, height: int, p: Pos)
    requires CountsCorrect(s, width, height) && ZeroAt(s, width, height, p)
    ensures forall k :: 0 <= k < 8 ==> !MineAt(s, width, height, Step(p, k))
  {
    assert !MineAt(s, width, height, p);
    AdjMinesZero(s, width, height, p, 8);
  }

  /** With correct counts every non-mine cell shows a value in 0..8. */
  lemma CountInRange(s: seq<Cell>, width: int, height: int, p: Pos)
    requires CountsCorrect(s, width, height) && InBounds(width, height, p) && |s| == width * height
    ensures s[Idx(width, height, p)].count == MINE || 0 <= s[Idx(width, height, p)].count <= 8
  {
  }

  // ---------------------------------------------------------------------------
  // Mine placement

  /** The unshuffled pool of setupMines: `n` slots, the first `nmines` of them mines, the rest 0. */
  function MinePool(n: nat, nmines: int): seq<int> {
    seq(n, j => if j < nmines then MINE else 0)
  }

  /** The pool holds exactly `nmines` mines when it has room for them. */
  lemma {:induction false} MinePoolMines(n: nat, nmines: int)
    requires 0 <= nmines
    ensures multiset(MinePool(n, nmines))[MINE] == if nmines <= n then nmines else n
  {
    if n > 0 {
      MinePoolMines(n - 1, nmines);
      assert MinePool(n, nmines) == MinePool(n - 1, nmines) + [if n - 1 < nmines then MINE else 0];
    }
  }

  /** Cell `j` after the copy loop: the avoided cell `a` is skipped, the cells after it
      read the slot before their own index. */
  function PlacedAt(s: seq<Cell>, a: int, pool: seq<int>, j: int): Cell
    requires 0 <= a < |s| && |pool| == |s| - 1 && 0 <= j < |s|
  {
    if j == a then s[j] else s[j].(count := pool[if j > a then j - 1 else j])
  }

  /** The field after the copy loop: every cell but the avoided one takes its count
      from the pool in row-major order, the cells after `a` one slot further on. */
  function Placed(s: seq<Cell>, a: int, pool: seq<int>): (t: seq<Cell>)
    requires 0 <= a < |s| && |pool| == |s| - 1
    ensures |t| == |s|
    ensures Counts(t) == pool[..a] + [s[a].count] + pool[a..]
    ensures forall j :: 0 <= j < |s| ==> t[j].isOpen == s[j].isOpen && t[j].flagged == s[j].flagged
  {
    var t := seq(|s|, j requires 0 <= j < |s| => PlacedAt(s, a, pool, j));
    assert Counts(t) == pool[..a] + [s[a].count] + pool[a..] by {
      forall j | 0 <= j < |s|
        ensures Counts(t)[j] == (pool[..a] + [s[a].count] + pool[a..])[j]
      {
        if j > a { assert (pool[..a] + [s[a].count] + pool[a..])[j] == pool[a..][j - a - 1]; }
      }
    }
    t
  }

  /** A permutation of the pool, placed around `a`, puts exactly `nmines` mines on the
      field, and none on `a` when it held none. */
  lemma PlacedMines(s: seq<Cell>, a: int, pool: seq<int>, nmines: int)
    requires 0 <= a < |s| && 0 <= nmines <= |s| - 1 && |pool| == |s| - 1
    requires multiset(pool) == multiset(MinePool(|s| - 1, nmines))
    requires s[a].count != MINE
    ensures Count(Placed(s, a, pool), IsMine) == nmines
    ensures Placed(s, a, pool)[a].count != MINE
  {
    var t := Placed(s, a, pool);
    MineCountIsMultiplicity(t);
    assert pool == pool[..a] + pool[a..];
    assert multiset(Counts(t)) == multiset(pool[..a]) + multiset{s[a].count} + multiset(pool[a..]);
    MinePoolMines(|s| - 1, nmines);
    assert Counts(t)[a] == s[a].count;
  }

  /** Every slot of a permutation of the pool is a mine or 0. */
  lemma PoolValues(pool: seq<int>, n: nat, nmines: int)
    requires multiset(pool) == multiset(MinePool(n, nmines))
    ensures forall j :: 0 <= j < |pool| ==> pool[j] == MINE || pool[j] == 0
  {
    forall j | 0 <= j < |pool| ensures pool[j] == MINE || pool[j] == 0 {
      assert pool[j] in multiset(MinePool(n, nmines));
    }
  }

  /** The count cell `p` ends with after the counting loop of setupMines. */
  function Numbered(t: seq<Cell>, width: int, height: int, p: Pos): int
    requires InBounds(width, height, p) && |t| == width * height
  {
    if t[Idx(width, height, p)].count == MINE then MINE
    else t[Idx(width, height, p)].count + NeighbourMines(t, width, height, p)
  }

  /** `u` is `t` after the counting loop: the same mines, open and flag bits, and
      every cell holding its Numbered count. */
  ghost predicate NumberedFrom(t: seq<Cell>, u: seq<Cell>, width: int, height: int) {
    |t| == width * height && SameMines(u, t) &&
    (forall j :: 0 <= j < |t| ==> u[j].isOpen == t[j].isOpen && u[j].flagged == t[j].flagged) &&
    (forall p :: InBounds(width, height, p) ==> u[Idx(width, height, p)].count == Numbered(t, width, height, p))
  }

  /** Counting from a layout whose non-mine cells are all 0 gives correct counts. */
  lemma NumberedCorrect(t: seq<Cell>, u: seq<Cell>, width: int, height: int)
    requires |t| == width * height && SameMines(t, u)
    requires forall j :: 0 <= j < |t| ==> t[j].count == MINE || t[j].count == 0
    requires forall p :: InBounds(width, height, p) ==> u[Idx(width, height, p)].count == Numbered(t, width, height, p)
    ensures CountsCorrect(u, width, height)
  {
    forall p | InBounds(width, height, p) && !MineAt(u, width, height, p)
      ensures u[Idx(width, height, p)].count == NeighbourMines(u, width, height, p)
    {
      AdjMinesSameMines(t, u, width, height, p, 8);
    }
  }

  /** What setupMines establishes: a permutation of the pool placed around the avoided
      cell `a` and then numbered has `nmines` mines, none on `a`, and, when `a` held 0,
      correct counts everywhere. */
  lemma PlacedAndNumbered(s0: seq<Cell>, width: int, height: int, avoidPos: Pos, pool: seq<int>, nmines: int, s1: seq<Cell>)
    requires |s0| == width * height && InBounds(width, height, avoidPos)
    requires 0 <= nmines <= |s0| - 1 && |pool| == |s0| - 1
    requires multiset(pool) == multiset(MinePool(|s0| - 1, nmines))
    requires s0[Idx(width, height, avoidPos)].count >= 0
    requires NumberedFrom(Placed(s0, Idx(width, height, avoidPos), pool), s1, width, height)
    ensures Count(s1, IsMine) == nmines
    ensures !MineAt(s1, width, height, avoidPos)
    ensures s0[Idx(width, height, avoidPos)].count == 0 ==> CountsCorrect(s1, width, height)
  {
    var a := Idx(width, height, avoidPos);
    var placed := Placed(s0, a, pool);
    PlacedMines(s0, a, pool, nmines);
    CountPointwise(s1, placed, IsMine);
    if s0[a].count == 0 {
      PoolValues(pool, |s0| - 1, nmines);
      forall j | 0 <= j < |placed| ensures placed[j].count == MINE || placed[j].count == 0 {
        if j != a {
          assert placed[j].count == pool[if j > a then j - 1 else j];
        }
      }
      NumberedCorrect(placed, s1, width, height);
    }
  }

  // ---------------------------------------------------------------------------
  // Opening cells

  /** `s1` differs from `s0` only in cells that were closed and are now open and
      unflagged, with their counts kept. */
  predicate OnlyOpens(s0: seq<Cell>, s1: seq<Cell>) {
    |s1| == |s0| &&
    forall j :: 0 <= j < |s0| ==>
      s1[j] == s0[j] || (!s0[j].isOpen && s1[j] == Cell(true, false, s0[j].count))
  }

  /** The indices of the closed cells: the measure that shrinks through a cascade. */
  function ClosedCells(s: seq<Cell>): set<int> {
    set j | 0 <= j < |s| && !s[j].isOpen
  }

  /** Once a closed cell has been opened, fewer cells are closed. */
  lemma ClosedCellsShrink(s0: seq<Cell>, s1: seq<Cell>, i: int)
    requires OnlyOpens(s0, s1) && 0 <= i < |s0| && !s0[i].isOpen && s1[i].isOpen
    ensures ClosedCells(s1) < ClosedCells(s0)
  {
    assert i in ClosedCells(s0) - ClosedCells(s1);
  }

  /** The field with just the cell at `p` opened and unflagged. */
  function OpenOne(s: seq<Cell>, width: int, height: int, p: Pos): seq<Cell>
    requires InBounds(width, height, p) && |s| == width * height
  {
    s[Idx(width, height, p) := Cell(true, false, s[Idx(width, height, p)].count)]
  }

  /** Some cell holding a mine was opened between `s0` and `s1`. */
  ghost predicate OpensMine(s0: seq<Cell>, s1: seq<Cell>, width: int, height: int) {
    exists p :: NewlyOpenAt(s0, s1, width, height, p) && MineAt(s0, width, height, p)
  }

  /** Some cell holding a mine is open. */
  ghost predicate MineOpened(s: seq<Cell>, width: int, height: int) {
    exists p :: OpenAt(s, width, height, p) && MineAt(s, width, height, p)
  }

  /** Every in-bounds one of the first `n` neighbours of `p` is open. */
  ghost predicate FirstNeighboursOpen(s: seq<Cell>, width: int, height: int, p: Pos, n: int) {
    forall k :: 0 <= k < n && k < 8 && InBounds(width, height, Step(p, k)) ==> OpenAt(s, width, height, Step(p, k))
  }

  /** Every in-bounds neighbour of `p` is open. */
  ghost predicate NeighboursOpen(s: seq<Cell>, width: int, height: int, p: Pos) {
    FirstNeighboursOpen(s, width, height, p, 8)
  }

  /** Flood-fill closure: every cell showing 0 that was opened, other than those
      still `pending`, has all its neighbours open. */
  ghost predicate FloodClosed(s0: seq<Cell>, s1: seq<Cell>, width: int, height: int, pending: set<Pos>) {
    forall p :: NewlyOpenAt(s0, s1, width, height, p) && ZeroAt(s0, width, height, p) && p !in pending ==>
      NeighboursOpen(s1, width, height, p)
  }

  /** The cell `order[j]` is a neighbour of an earlier cell of `order` showing 0. */
  ghost predicate Reached(s0: seq<Cell>, width: int, height: int, order: seq<Pos>, j: int)
    requires 0 <= j < |order|
  {
    exists j0, k :: 0 <= j0 < j && 0 <= k < 8 && order[j] == Step(order[j0], k) && ZeroAt(s0, width, height, order[j0])
  }

  /** `order` lists exactly the cells opened between `s0` and `s1`. */
  ghost predicate ListsOpened(s0: seq<Cell>, s1: seq<Cell>, width: int, height: int, order: seq<Pos>) {
    (forall j :: 0 <= j < |order| ==> NewlyOpenAt(s0, s1, width, height, order[j])) &&
    (forall p :: NewlyOpenAt(s0, s1, width, height, p) ==> p in order)
  }

  /** No position occurs twice in `order`. */
  ghost predicate Distinct(order: seq<Pos>) {
    forall j1, j2 :: 0 <= j1 < j2 < |order| ==> order[j1] != order[j2]
  }

  /** Every cell of `order` after the first is reached from an earlier one showing 0. */
  ghost predicate AllReached(s0: seq<Cell>, width: int, height: int, order: seq<Pos>) {
    forall j :: 0 < j < |order| ==> Reached(s0, width, height, order, j)
  }

  /** `order` lists the cells opened between `s0` and `s1`, each once, starting at
      `start`, each later one reached from an earlier cell showing 0. */
  ghost predicate CascadeOrder(s0: seq<Cell>, s1: seq<Cell>, width: int, height: int, start: Pos, order: seq<Pos>) {
    |order| > 0 && order[0] == start &&
    ListsOpened(s0, s1, width, height, order) && Distinct(order) && AllReached(s0, width, height, order)
  }

  /** Opening one closed cell: the first step of openCell. */
  lemma OpenOneFacts(s0: seq<Cell>, width: int, height: int, p: Pos)
    requires InBounds(width, height, p) && |s0| == width * height && !s0[Idx(width, height, p)].isOpen
    ensures OnlyOpens(s0, OpenOne(s0, width, height, p))
    ensures CascadeOrder(s0, OpenOne(s0, width, height, p), width, height, p, [p])
    ensures FloodClosed(s0, OpenOne(s0, width, height, p), width, height, {p})
    ensures !ZeroAt(s0, width, height, p) ==> FloodClosed(s0, OpenOne(s0, width, height, p), width, height, {})
    ensures OpensMine(s0, OpenOne(s0, width, height, p), width, height) <==> MineAt(s0, width, height, p)
    ensures Count(OpenOne(s0, width, height, p), IsClosedPlain)
         == Count(s0, IsClosedPlain) - (if MineAt(s0, width, height, p) then 0 else 1)
    ensures Count(OpenOne(s0, width, height, p), IsFlagged)
         == Count(s0, IsFlagged) - (if s0[Idx(width, height, p)].flagged then 1 else 0)
  {
    var i := Idx(width, height, p);
    var s1 := OpenOne(s0, width, height, p);
    forall q | NewlyOpenAt(s0, s1, width, height, q) ensures q == p {
      IdxInjective(width, height, p, q);
    }
    assert NewlyOpenAt(s0, s1, width, height, p);
    CountUpdate(s0, i, s1[i], IsClosedPlain);
    CountUpdate(s0, i, s1[i], IsFlagged);
  }

  /** Opening only ever adds opened cells. */
  lemma OnlyOpensTrans(s0: seq<Cell>, s1: seq<Cell>, s2: seq<Cell>)
    requires OnlyOpens(s0, s1) && OnlyOpens(s1, s2)
    ensures OnlyOpens(s0, s2)
  {
  }

  /** Opening never moves a mine. */
  lemma OnlyOpensSameMines(s0: seq<Cell>, s1: seq<Cell>)
    requires OnlyOpens(s0, s1)
    ensures SameMines(s0, s1) && Counts(s0) == Counts(s1)
  {
  }

  /** Opening keeps the counts correct. */
  lemma OnlyOpensCountsCorrect(s0: seq<Cell>, s1: seq<Cell>, width: int, height: int)
    requires OnlyOpens(s0, s1) && CountsCorrect(s0, width, height)
    ensures CountsCorrect(s1, width, height)
  {
    forall p | InBounds(width, height, p) && |s1| == width * height && !MineAt(s1, width, height, p)
      ensures s1[Idx(width, height, p)].count == NeighbourMines(s1, width, height, p)
    {
      AdjMinesSameMines(s0, s1, width, height, p, 8);
    }
  }

  /** An open mine after opening was open before or was newly opened. */
  lemma MineOpenedStep(s0: seq<Cell>, s1: seq<Cell>, width: int, height: int)
    requires OnlyOpens(s0, s1) && |s0| == width * height
    ensures MineOpened(s1, width, height) <==> MineOpened(s0, width, height) || OpensMine(s0, s1, width, height)
  {
    if MineOpened(s1, width, height) {
      var p :| OpenAt(s1, width, height, p) && MineAt(s1, width, height, p);
      if !OpenAt(s0, width, height, p) {
        assert NewlyOpenAt(s0, s1, width, height, p) && MineAt(s0, width, height, p);
      }
    }
    if MineOpened(s0, width, height) {
      var p :| OpenAt(s0, width, height, p) && MineAt(s0, width, height, p);
      assert OpenAt(s1, width, height, p) && MineAt(s1, width, height, p);
    }
    if OpensMine(s0, s1, width, height) {
      var p :| NewlyOpenAt(s0, s1, width, height, p) && MineAt(s0, width, height, p);
      assert OpenAt(s1, width, height, p) && MineAt(s1, width, height, p);
    }
  }

  /** A mine is opened across two steps when it is opened in one of them. */
  lemma OpensMineTrans(s0: seq<Cell>, s1: seq<Cell>, s2: seq<Cell>, width: int, height: int)
    requires OnlyOpens(s0, s1) && OnlyOpens(s1, s2) && |s0| == width * height
    ensures OpensMine(s0, s2, width, height) <==> OpensMine(s0, s1, width, height) || OpensMine(s1, s2, width, height)
  {
    if OpensMine(s0, s2, width, height) {
      var p :| NewlyOpenAt(s0, s2, width, height, p) && MineAt(s0, width, height, p);
      if !OpenAt(s1, width, height, p) {
        assert NewlyOpenAt(s1, s2, width, height, p) && MineAt(s1, width, height, p);
      } else {
        assert NewlyOpenAt(s0, s1, width, height, p);
      }
    }
    if OpensMine(s0, s1, width, height) {
      var p :| NewlyOpenAt(s0, s1, width, height, p) && MineAt(s0, width, height, p);
      assert NewlyOpenAt(s0, s2, width, height, p);
    }
    if OpensMine(s1, s2, width, height) {
      var p :| NewlyOpenAt(s1, s2, width, height, p) && MineAt(s1, width, height, p);
      assert NewlyOpenAt(s0, s2, width, height, p) && MineAt(s0, width, height, p);
    }
  }

  /** Open neighbours stay open, and opening the next neighbour extends the prefix. */
  lemma FirstNeighboursOpenStep(s1: seq<Cell>, s2: seq<Cell>, width: int, height: int, p: Pos, n: int)
    requires OnlyOpens(s1, s2) && 0 <= n < 8 && FirstNeighboursOpen(s1, width, height, p, n)
    requires InBounds(width, height, Step(p, n)) ==> OpenAt(s2, width, height, Step(p, n))
    ensures FirstNeighboursOpen(s2, width, height, p, n + 1)
  {
    forall k | 0 <= k < n + 1 && InBounds(width, height, Step(p, k))
      ensures OpenAt(s2, width, height, Step(p, k))
    {
      if k < n {
        assert OpenAt(s1, width, height, Step(p, k));
      }
    }
  }

  /** Open neighbours stay open. */
  lemma NeighboursOpenStays(s1: seq<Cell>, s2: seq<Cell>, width: int, height: int, p: Pos)
    requires OnlyOpens(s1, s2) && NeighboursOpen(s1, width, height, p)
    ensures NeighboursOpen(s2, width, height, p)
  {
    forall k | 0 <= k < 8 && InBounds(width, height, Step(p, k))
      ensures OpenAt(s2, width, height, Step(p, k))
    {
      assert OpenAt(s1, width, height, Step(p, k));
    }
  }

  /** The flood-fill closure of a cascade composes with that of a nested cascade. */
  lemma FloodClosedTrans(s0: seq<Cell>, s1: seq<Cell>, s2: seq<Cell>, width: int, height: int, pending: set<Pos>)
    requires OnlyOpens(s0, s1) && OnlyOpens(s1, s2)
    requires FloodClosed(s0, s1, width, height, pending) && FloodClosed(s1, s2, width, height, {})
    requires forall p :: p in pending ==> OpenAt(s1, width, height, p)
    ensures FloodClosed(s0, s2, width, height, pending)
  {
    forall p | NewlyOpenAt(s0, s2, width, height, p) && ZeroAt(s0, width, height, p) && p !in pending
      ensures NeighboursOpen(s2, width, height, p)
    {
      if OpenAt(s1, width, height, p) {
        assert NewlyOpenAt(s0, s1, width, height, p);
        NeighboursOpenStays(s1, s2, width, height, p);
      } else {
        assert NewlyOpenAt(s1, s2, width, height, p) && ZeroAt(s1, width, height, p);
      }
    }
  }

  /** Two listings of consecutive openings together list the openings of both steps. */
  lemma ListsOpenedTrans(s0: seq<Cell>, s1: seq<Cell>, s2: seq<Cell>, width: int, height: int,
                         order: seq<Pos>, more: seq<Pos>)
    requires OnlyOpens(s0, s1) && OnlyOpens(s1, s2) && |s0| == width * height
    requires ListsOpened(s0, s1, width, height, order) && ListsOpened(s1, s2, width, height, more)
    ensures ListsOpened(s0, s2, width, height, order + more)
    ensures Distinct(order) && Distinct(more) ==> Distinct(order + more)
  {
    var all := order + more;
    var n := |order|;
    forall j | 0 <= j < |all| ensures NewlyOpenAt(s0, s2, width, height, all[j]) {
      if j < n {
        assert NewlyOpenAt(s0, s1, width, height, order[j]);
      } else {
        assert NewlyOpenAt(s1, s2, width, height, more[j - n]);
      }
    }
    forall p | NewlyOpenAt(s0, s2, width, height, p) ensures p in all {
      if OpenAt(s1, width, height, p) {
        assert NewlyOpenAt(s0, s1, width, height, p);
      } else {
        assert NewlyOpenAt(s1, s2, width, height, p);
      }
    }
    if Distinct(order) && Distinct(more) {
      forall j1, j2 | 0 <= j1 < j2 < |all| ensures all[j1] != all[j2] {
        if j1 < n && n <= j2 {
          assert NewlyOpenAt(s0, s1, width, height, order[j1]);
          assert NewlyOpenAt(s1, s2, width, height, more[j2 - n]);
        } else if n <= j1 {
          assert all[j1] == more[j1 - n] && all[j2] == more[j2 - n];
        }
      }
    }
  }

  /** Reachability survives appending a cascade started from a neighbour of the first cell. */
  lemma AllReachedTrans(s0: seq<Cell>, s1: seq<Cell>, width: int, height: int,
                        order: seq<Pos>, k: int, more: seq<Pos>)
    requires OnlyOpens(s0, s1) && |s0| == width * height
    requires |order| > 0 && 0 <= k < 8 && ZeroAt(s0, width, height, order[0])
    requires AllReached(s0, width, height, order)
    requires |more| > 0 && more[0] == Step(order[0], k) && AllReached(s1, width, height, more)
    ensures AllReached(s0, width, height, order + more)
  {
    var all := order + more;
    var n := |order|;
    forall j | 0 < j < |all| ensures Reached(s0, width, height, all, j) {
      if j < n {
        assert Reached(s0, width, height, order, j);
        var j0, k0 :| 0 <= j0 < j && 0 <= k0 < 8 && order[j] == Step(order[j0], k0) && ZeroAt(s0, width, height, order[j0]);
        assert all[j] == Step(all[j0], k0);
      } else if j == n {
        assert all[j] == Step(all[0], k);
      } else {
        assert Reached(s1, width, height, more, j - n);
        var j0, k0 :| 0 <= j0 < j - n && 0 <= k0 < 8 && more[j - n] == Step(more[j0], k0) && ZeroAt(s1, width, height, more[j0]);
        assert all[j] == Step(all[n + j0], k0);
        assert ZeroAt(s0, width, height, all[n + j0]);
      }
    }
  }

  /** The cascade order of a cell extended by that of a nested cascade started from
      its k-th neighbour, when the cell shows 0. */
  lemma CascadeOrderTrans(s0: seq<Cell>, s1: seq<Cell>, s2: seq<Cell>, width: int, height: int,
                          start: Pos, order: seq<Pos>, k: int, more: seq<Pos>)
    requires OnlyOpens(s0, s1) && OnlyOpens(s1, s2) && |s0| == width * height
    requires 0 <= k < 8 && ZeroAt(s0, width, height, start)
    requires CascadeOrder(s0, s1, width, height, start, order)
    requires CascadeOrder(s1, s2, width, height, Step(start, k), more)
    ensures CascadeOrder(s0, s2, width, height, start, order + more)
  {
    ListsOpenedTrans(s0, s1, s2, width, height, order, more);
    AllReachedTrans(s0, s1, width, height, order, k, more);
  }

  /** With correct counts, a cascade started on a non-mine cell opens no mine. */
  lemma CascadeAvoidsMines(s0: seq<Cell>, s1: seq<Cell>, width: int, height: int, start: Pos, order: seq<Pos>)
    requires CascadeOrder(s0, s1, width, height, start, order)
    requires CountsCorrect(s0, width, height) && !MineAt(s0, width, height, start)
    ensures !OpensMine(s0, s1, width, height)
  {
    forall p | NewlyOpenAt(s0, s1, width, height, p) ensures !MineAt(s0, width, height, p) {
      assert p in order;
      var j :| 0 <= j < |order| && order[j] == p;
      if j > 0 {
        assert Reached(s0, width, height, order, j);
        var j0, k :| 0 <= j0 < j && 0 <= k < 8 && order[j] == Step(order[j0], k) && ZeroAt(s0, width, height, order[j0]);
        ZeroHasNoMineNeighbour(s0, width, height, order[j0]);
      }
    }
  }
}
