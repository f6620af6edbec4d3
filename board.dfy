/** The board operations of main.cpp: the grid of cells, clearField, setupMines
    (from the shuffle on) and the recursive openCell. */
module Board {
  import opened Cells
  import opened Geometry
  import opened Field
  import opened GameStates

  /** A `width` x `height` grid of cells stored row by row (s3d::Grid<Cell>). */
  class Grid {
    const width: int
    const height: int
    const cells: array<Cell>

    ghost predicate Valid() {
      0 <= width && 0 <= height && cells.Length == width * height
    }

    /** A grid of default cells. */
    constructor (width: int, height: int)
      requires 0 <= width && 0 <= height
      ensures this.width == width && this.height == height && Valid() && fresh(cells)
      ensures forall j :: 0 <= j < cells.Length ==> cells[j] == Fresh
    {
      this.width := width;
      this.height := height;
      cells := new Cell[width * height](_ => Fresh);
    }
  }

  /** Closes, unflags and zeroes every cell. */
  method ClearField(field: Grid)
    requires field.Valid()
    modifies field.cells
    ensures forall j :: 0 <= j < field.cells.Length ==> field.cells[j] == Fresh
  {
    for r := 0 to field.height
      invariant forall j :: 0 <= j < field.width * r ==> field.cells[j] == Fresh
    {
      ghost var rowStart := field.width * r;
      RowEnd(field.width, field.height, r);
      for c := 0 to field.width
        invariant forall j :: 0 <= j < rowStart + c ==> field.cells[j] == Fresh
      {
        var i := Idx(field.width, field.height, Pos(r, c));
        assert i == rowStart + c;
        field.cells[i] := field.cells[i].(flagged := false, isOpen := false, count := 0);
      }
    }
  }

  /** The pool of setupMines before the shuffle: `n` slots, the first `nmines` of them mines. */
  method FillPool(n: nat, nmines: int) returns (fieldVec: array<int>)
    requires 0 <= nmines <= n
    ensures fresh(fieldVec) && fieldVec[..] == MinePool(n, nmines)
  {
    fieldVec := new int[n](_ => 0);
    for i := 0 to nmines
      invariant forall j :: 0 <= j < fieldVec.Length ==> fieldVec[j] == if j < i then MINE else 0
    {
      fieldVec[i] := MINE;
    }
  }

  /** std::shuffle over the pool: the pool now holds `shuffled`, which the caller
      supplies as any permutation of it. */
  method Shuffle(fieldVec: array<int>, shuffled: seq<int>)
    requires multiset(shuffled) == multiset(fieldVec[..])
    modifies fieldVec
    ensures fieldVec[..] == shuffled
  {
    assert |shuffled| == |multiset(shuffled)| == |multiset(fieldVec[..])| == fieldVec.Length;
    forall j | 0 <= j < fieldVec.Length {
      fieldVec[j] := shuffled[j];
    }
  }

  /** Copies the pool into the grid in row-major order, skipping the cell at
      `avoidIndex`; the cells after it take the slot before their own index. */
  method CopyPool(field: Grid, fieldVec: array<int>, avoidIndex: int)
    requires field.Valid() && 0 <= avoidIndex < field.cells.Length
    requires fieldVec.Length == field.cells.Length - 1
    modifies field.cells
    ensures field.cells[..] == Placed(old(field.cells[..]), avoidIndex, fieldVec[..])
  {
    var width, height := field.width, field.height;
    ghost var s0 := field.cells[..];
    ghost var pool := fieldVec[..];
    for r := 0 to height
      invariant forall j :: 0 <= j < width * r ==> field.cells[j] == PlacedAt(s0, avoidIndex, pool, j)
      invariant forall j :: width * r <= j < field.cells.Length ==> field.cells[j] == s0[j]
    {
      ghost var rowStart := width * r;
      RowEnd(width, height, r);
      for c := 0 to width
        invariant forall j :: 0 <= j < rowStart + c ==> field.cells[j] == PlacedAt(s0, avoidIndex, pool, j)
        invariant forall j :: rowStart + c <= j < field.cells.Length ==> field.cells[j] == s0[j]
      {
        var index := Idx(width, height, Pos(r, c));
        assert index == rowStart + c;
        if index == avoidIndex {
          continue;
        }
        field.cells[index] := field.cells[index].(count := fieldVec[index - (if index > avoidIndex then 1 else 0)]);
      }
    }
    assert field.cells[..] == Placed(s0, avoidIndex, pool);
  }

  /** Adds to each non-mine cell the number of mines among its in-bounds neighbours. */
  method CountNeighbours(field: Grid)
    requires field.Valid()
    requires forall j :: 0 <= j < field.cells.Length ==> field.cells[j].count == MINE || field.cells[j].count >= 0
    modifies field.cells
    ensures NumberedFrom(old(field.cells[..]), field.cells[..], field.width, field.height)
  {
    var width, height := field.width, field.height;
    ghost var s0 := field.cells[..];
    for r := 0 to height
      invariant SameMines(field.cells[..], s0)
      invariant forall j :: 0 <= j < field.cells.Length ==>
        field.cells[j].isOpen == s0[j].isOpen && field.cells[j].flagged == s0[j].flagged
      invariant forall p :: InBounds(width, height, p) && Idx(width, height, p) < width * r ==>
        field.cells[Idx(width, height, p)].count == Numbered(s0, width, height, p)
      invariant forall j :: width * r <= j < field.cells.Length ==> field.cells[j] == s0[j]
    {
      ghost var rowStart := width * r;
      RowEnd(width, height, r);
      for c := 0 to width
        invariant SameMines(field.cells[..], s0)
        invariant forall j :: 0 <= j < field.cells.Length ==>
          field.cells[j].isOpen == s0[j].isOpen && field.cells[j].flagged == s0[j].flagged
        invariant forall p :: InBounds(width, height, p) && Idx(width, height, p) < rowStart + c ==>
          field.cells[Idx(width, height, p)].count == Numbered(s0, width, height, p)
        invariant forall j :: rowStart + c <= j < field.cells.Length ==> field.cells[j] == s0[j]
      {
        var here := Pos(r, c);
        var i := Idx(width, height, here);
        assert i == rowStart + c;
        if field.cells[i].count == MINE {
          continue;
        }
        ghost var before := field.cells[..];
        AdjMinesSameMines(before, s0, width, height, here, 8);
        CountCell(field, here);
        forall p | InBounds(width, height, p) && Idx(width, height, p) < rowStart + c + 1
          ensures field.cells[Idx(width, height, p)].count == Numbered(s0, width, height, p)
        {
          if Idx(width, height, p) == i {
            IdxInjective(width, height, p, here);
          }
        }
      }
    }
  }

  /** The loop over adjVec for one non-mine cell. */
  method CountCell(field: Grid, here: Pos)
    requires field.Valid() && InBounds(field.width, field.height, here)
    requires field.cells[Idx(field.width, field.height, here)].count >= 0
    modifies field.cells
    ensures field.cells[..] == old(field.cells[..])[Idx(field.width, field.height, here) :=
      old(field.cells[Idx(field.width, field.height, here)]).(count :=
        old(field.cells[Idx(field.width, field.height, here)].count) + NeighbourMines(old(field.cells[..]), field.width, field.height, here))]
  {
    var width, height := field.width, field.height;
    var i := Idx(width, height, here);
    ghost var s0 := field.cells[..];
    for k := 0 to 8
      invariant field.cells[..] == s0[i := s0[i].(count := s0[i].count + AdjMines(s0, width, height, here, k))]
    {
      var pos := Step(here, k);
      if InBounds(width, height, pos) && field.cells[Idx(width, height, pos)].count == MINE {
        field.cells[i] := field.cells[i].(count := field.cells[i].count + 1);
      }
    }
  }

  /** Places `nmines` mines on every cell but `avoidPos` and numbers the other cells.
      `shuffled` is the pool after std::shuffle, any permutation of MinePool. */
  method SetupMines(field: Grid, nmines: int, avoidPos: Pos, shuffled: seq<int>)
    requires field.Valid() && InBounds(field.width, field.height, avoidPos)
    requires 0 <= nmines <= field.width * field.height - 1
    requires multiset(shuffled) == multiset(MinePool(field.width * field.height - 1, nmines))
    requires field.cells[Idx(field.width, field.height, avoidPos)].count >= 0
    modifies field.cells
    ensures |shuffled| == field.cells.Length - 1
    ensures NumberedFrom(Placed(old(field.cells[..]), Idx(field.width, field.height, avoidPos), shuffled),
      field.cells[..], field.width, field.height)
    ensures Count(field.cells[..], IsMine) == nmines
    ensures !MineAt(field.cells[..], field.width, field.height, avoidPos)
    ensures old(field.cells[Idx(field.width, field.height, avoidPos)].count) == 0 ==>
      CountsCorrect(field.cells[..], field.width, field.height)
  {
    ghost var s0 := field.cells[..];
    var ncells := field.width * field.height;
    var avoidIndex := Idx(field.width, field.height, avoidPos);
    assert |shuffled| == |multiset(shuffled)| == |MinePool(ncells - 1, nmines)| == ncells - 1;

    var fieldVec := FillPool(ncells - 1, nmines);
    Shuffle(fieldVec, shuffled);
    CopyPool(field, fieldVec, avoidIndex);
    ghost var placed := field.cells[..];
    assert forall j :: 0 <= j < |placed| ==> placed[j].count == MINE || placed[j].count >= 0 by {
      PoolValues(shuffled, ncells - 1, nmines);
    }
    CountNeighbours(field);
    PlacedAndNumbered(s0, field.width, field.height, avoidPos, shuffled, nmines, field.cells[..]);
  }

  /** Opens the closed cell (r, c); on a plain cell showing 0 it goes on into every
      in-bounds neighbour that is still closed. */
  method OpenCell(gameState: GameState, field: Grid, r: int, c: int) returns (ghost order: seq<Pos>)
    requires field.Valid() && InBounds(field.width, field.height, Pos(r, c))
    requires !field.cells[Idx(field.width, field.height, Pos(r, c))].isOpen
    modifies gameState, field.cells
    decreases ClosedCells(field.cells[..])
    ensures OnlyOpens(old(field.cells[..]), field.cells[..])
    ensures CascadeOrder(old(field.cells[..]), field.cells[..], field.width, field.height, Pos(r, c), order)
    ensures FloodClosed(old(field.cells[..]), field.cells[..], field.width, field.height, {})
    ensures !ZeroAt(old(field.cells[..]), field.width, field.height, Pos(r, c)) ==>
      field.cells[..] == OpenOne(old(field.cells[..]), field.width, field.height, Pos(r, c))
    ensures MineAt(old(field.cells[..]), field.width, field.height, Pos(r, c)) ==>
      gameState.bombed && gameState.closedPlainCount == old(gameState.closedPlainCount)
    ensures gameState.closedPlainCount
      == old(gameState.closedPlainCount) - (old(Count(field.cells[..], IsClosedPlain)) - Count(field.cells[..], IsClosedPlain))
    ensures gameState.flagCount
      == old(gameState.flagCount) + (old(Count(field.cells[..], IsFlagged)) - Count(field.cells[..], IsFlagged))
    ensures gameState.bombed == (old(gameState.bombed) || OpensMine(old(field.cells[..]), field.cells[..], field.width, field.height))
    ensures gameState.mineSetup == old(gameState.mineSetup)
  {
    ghost var s0 := field.cells[..];
    var width, height := field.width, field.height;
    var here := Pos(r, c);
    var i := Idx(width, height, here);

    field.cells[i] := field.cells[i].(isOpen := true);
    if field.cells[i].flagged {
      field.cells[i] := field.cells[i].(flagged := false);
      gameState.RemoveFlag();
    }
    OpenOneFacts(s0, width, height, here);
    assert field.cells[..] == OpenOne(s0, width, height, here);
    order := [here];
    if field.cells[i].count == MINE {
      gameState.TriggerMine();
      return;
    }

    gameState.OpenPlain();
    if field.cells[i].count != 0 {
      return;
    }
    for k := 0 to 8
      invariant OnlyOpens(s0, field.cells[..])
      invariant CascadeOrder(s0, field.cells[..], width, height, here, order)
      invariant FloodClosed(s0, field.cells[..], width, height, {here})
      invariant FirstNeighboursOpen(field.cells[..], width, height, here, k)
      invariant gameState.closedPlainCount
        == old(gameState.closedPlainCount) - (Count(s0, IsClosedPlain) - Count(field.cells[..], IsClosedPlain))
      invariant gameState.flagCount
        == old(gameState.flagCount) + (Count(s0, IsFlagged) - Count(field.cells[..], IsFlagged))
      invariant gameState.bombed == (old(gameState.bombed) || OpensMine(s0, field.cells[..], width, height))
      invariant gameState.mineSetup == old(gameState.mineSetup)
    {
      var pos := Step(here, k);
      ghost var sk := field.cells[..];
      if InBounds(width, height, pos) && !field.cells[Idx(width, height, pos)].isOpen {
        assert NewlyOpenAt(s0, sk, width, height, here);
        ClosedCellsShrink(s0, sk, i);
        var more := OpenCell(gameState, field, pos.r, pos.c);
        ghost var sk1 := field.cells[..];
        OnlyOpensTrans(s0, sk, sk1);
        CascadeOrderTrans(s0, sk, sk1, width, height, here, order, k, more);
        FloodClosedTrans(s0, sk, sk1, width, height, {here});
        OpensMineTrans(s0, sk, sk1, width, height);
        assert NewlyOpenAt(sk, sk1, width, height, pos);
        order := order + more;
      }
      FirstNeighboursOpenStep(sk, field.cells[..], width, height, here, k);
    }
  }
}
