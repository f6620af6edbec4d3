/** The game session of Main: the configuration, the counters and the field, and the
    three player requests the frame loop dispatches (reveal, flag, retry). */
module Sessions {
  import opened Cells
  import opened Geometry
  import opened Field
  import opened GameStates
  import opened Board

  /** The configuration Main starts with. */
  const DefaultRows: int := 14
  const DefaultCols: int := 18
  const DefaultMines: int := 40

  /** The field with the flag of cell `i` toggled (a right click). */
  function ToggleFlag(s: seq<Cell>, i: int): (t: seq<Cell>)
    requires 0 <= i < |s|
    ensures |t| == |s| && t[i].flagged == !s[i].flagged
    ensures t[i].isOpen == s[i].isOpen && t[i].count == s[i].count
    ensures forall j :: 0 <= j < |s| && j != i ==> t[j] == s[j]
  {
    s[i := s[i].(flagged := !s[i].flagged)]
  }

  /** Toggling a flag twice gives back the field. */
  lemma ToggleFlagTwice(s: seq<Cell>, i: int)
    requires 0 <= i < |s|
    ensures ToggleFlag(ToggleFlag(s, i), i) == s
  {
  }

  /** A toggle adds one flag or takes one away; there is no clamp at zero. */
  lemma ToggleFlagCount(s: seq<Cell>, i: int)
    requires 0 <= i < |s|
    ensures Count(ToggleFlag(s, i), IsFlagged) == Count(s, IsFlagged) + (if s[i].flagged then -1 else 1)
  {
    CountUpdate(s, i, ToggleFlag(s, i)[i], IsFlagged);
  }

  /** The board and the counters agree, for a `width` x `height` field with `nmines` mines:
      no open cell carries a flag and the flag display is `nmines` minus the flags;
      before the mines are set up every cell is closed with count 0 and the counters
      hold their construction values; afterwards there are `nmines` mines, every
      count is correct, `closedPlainCount` is the number of closed non-mine cells and
      `bombed` says whether a mine is open. */
  ghost predicate Consistent(s: seq<Cell>, width: int, height: int, nmines: int,
                             closedPlainCount: int, flagCount: int, mineSetup: bool, bombed: bool) {
    |s| == width * height &&
    (forall j :: 0 <= j < |s| ==> !(s[j].isOpen && s[j].flagged)) &&
    flagCount == nmines - Count(s, IsFlagged) &&
    (!mineSetup ==>
      !bombed && closedPlainCount == width * height - nmines &&
      forall j :: 0 <= j < |s| ==> !s[j].isOpen && s[j].count == 0) &&
    (mineSetup ==>
      Count(s, IsMine) == nmines && CountsCorrect(s, width, height) &&
      closedPlainCount == Count(s, IsClosedPlain) &&
      (bombed <==> MineOpened(s, width, height)))
  }

  /** What the status means on a consistent board: NOT_READY before the mines are
      placed, GAMEOVER exactly when a mine is open, GAMECLEAR exactly when no mine is
      open and every non-mine cell is. */
  lemma StatusMeaning(s: seq<Cell>, width: int, height: int, nmines: int,
                      closedPlainCount: int, flagCount: int, mineSetup: bool, bombed: bool)
    requires Consistent(s, width, height, nmines, closedPlainCount, flagCount, mineSetup, bombed)
    ensures StatusOf(mineSetup, bombed, closedPlainCount) == NotReady <==> !mineSetup
    ensures StatusOf(mineSetup, bombed, closedPlainCount) == GameOver <==> mineSetup && MineOpened(s, width, height)
    ensures StatusOf(mineSetup, bombed, closedPlainCount) == GameClear <==>
      mineSetup && !MineOpened(s, width, height) && forall j :: 0 <= j < |s| && s[j].count != MINE ==> s[j].isOpen
  {
    CountZero(s, IsClosedPlain);
  }

  /** A field of default cells with the construction counters is consistent. */
  lemma FreshConsistent(width: int, height: int, nmines: int)
    requires 0 <= width && 0 <= height
    ensures Consistent(seq(width * height, _ => Fresh), width, height, nmines,
                       width * height - nmines, nmines, false, false)
  {
    CountZero(seq(width * height, _ => Fresh), IsFlagged);
  }

  /** Two fields whose cells agree on being open and on their counts agree on every
      fact about mines and closed cells. */
  lemma SameBoard(s: seq<Cell>, t: seq<Cell>, width: int, height: int)
    requires |s| == width * height && |t| == |s|
    requires forall j :: 0 <= j < |s| ==> s[j].isOpen == t[j].isOpen && s[j].count == t[j].count
    ensures Count(s, IsMine) == Count(t, IsMine) && Count(s, IsClosedPlain) == Count(t, IsClosedPlain)
    ensures CountsCorrect(s, width, height) ==> CountsCorrect(t, width, height)
    ensures MineOpened(s, width, height) <==> MineOpened(t, width, height)
  {
    CountPointwise(s, t, IsMine);
    CountPointwise(s, t, IsClosedPlain);
    forall p | InBounds(width, height, p) ensures AdjMines(s, width, height, p, 8) == AdjMines(t, width, height, p, 8) {
      AdjMinesSameMines(s, t, width, height, p, 8);
    }
    if MineOpened(s, width, height) {
      var p :| OpenAt(s, width, height, p) && MineAt(s, width, height, p);
      assert OpenAt(t, width, height, p) && MineAt(t, width, height, p);
    }
    if MineOpened(t, width, height) {
      var p :| OpenAt(t, width, height, p) && MineAt(t, width, height, p);
      assert OpenAt(s, width, height, p) && MineAt(s, width, height, p);
    }
  }

  /** Toggling the flag of a closed cell keeps the board consistent, with the flag
      display moved by one. */
  lemma ToggleConsistent(s: seq<Cell>, i: int, width: int, height: int, nmines: int,
                         closedPlainCount: int, flagCount: int, mineSetup: bool, bombed: bool)
    requires Consistent(s, width, height, nmines, closedPlainCount, flagCount, mineSetup, bombed)
    requires 0 <= i < |s| && !s[i].isOpen
    ensures Consistent(ToggleFlag(s, i), width, height, nmines, closedPlainCount,
                       flagCount + (if s[i].flagged then 1 else -1), mineSetup, bombed)
  {
    ToggleFlagCount(s, i);
    SameBoard(s, ToggleFlag(s, i), width, height);
  }

  /** Laying the mines on an unprepared consistent board around a closed cell gives a
      consistent prepared board with `nmines` mines, none on the avoided cell. */
  lemma LaidConsistent(s0: seq<Cell>, s1: seq<Cell>, width: int, height: int, nmines: int,
                       avoidPos: Pos, pool: seq<int>, closedPlainCount: int, flagCount: int)
    requires Consistent(s0, width, height, nmines, closedPlainCount, flagCount, false, false)
    requires InBounds(width, height, avoidPos) && 0 <= nmines <= width * height - 1
    requires multiset(pool) == multiset(MinePool(width * height - 1, nmines)) && |pool| == width * height - 1
    requires NumberedFrom(Placed(s0, Idx(width, height, avoidPos), pool), s1, width, height)
    ensures Consistent(s1, width, height, nmines, closedPlainCount, flagCount, true, false)
    ensures !MineAt(s1, width, height, avoidPos)
  {
    var a := Idx(width, height, avoidPos);
    PlacedAndNumbered(s0, width, height, avoidPos, pool, nmines, s1);
    var placed := Placed(s0, a, pool);
    assert forall j :: 0 <= j < |s1| ==> !s1[j].isOpen && s1[j].flagged == s0[j].flagged by {
      assert forall j :: 0 <= j < |s1| ==> placed[j].isOpen == s0[j].isOpen && placed[j].flagged == s0[j].flagged;
    }
    CountPointwise(s0, s1, IsFlagged);
    CountSplit(s1, IsMine, IsClosedPlain);
  }

  /** Opening cells on a prepared consistent board, with the counters moved as openCell
      moves them, keeps the board consistent. */
  lemma OpenedConsistent(s0: seq<Cell>, s1: seq<Cell>, width: int, height: int, nmines: int,
                         closedPlainCount: int, flagCount: int, bombed: bool,
                         closedPlainCount': int, flagCount': int, bombed': bool)
    requires Consistent(s0, width, height, nmines, closedPlainCount, flagCount, true, bombed)
    requires OnlyOpens(s0, s1)
    requires closedPlainCount' == closedPlainCount - (Count(s0, IsClosedPlain) - Count(s1, IsClosedPlain))
    requires flagCount' == flagCount + (Count(s0, IsFlagged) - Count(s1, IsFlagged))
    requires bombed' == (bombed || OpensMine(s0, s1, width, height))
    ensures Consistent(s1, width, height, nmines, closedPlainCount', flagCount', true, bombed')
  {
    OnlyOpensSameMines(s0, s1);
    CountPointwise(s0, s1, IsMine);
    OnlyOpensCountsCorrect(s0, s1, width, height);
    MineOpenedStep(s0, s1, width, height);
  }

  /** On a one-row, two-column field, column 0 has column 1 as its only neighbour. */
  lemma OneByTwoNeighbour(s: seq<Cell>)
    requires |s| == 2 && s[1].count == MINE
    ensures NeighbourMines(s, 2, 1, Pos(0, 0)) == 1
  {
    assert forall k :: 0 <= k < 8 && k != 4 ==> !InBounds(2, 1, Step(Pos(0, 0), k));
    assert AdjMines(s, 2, 1, Pos(0, 0), 4) == 0 by {
      assert AdjMines(s, 2, 1, Pos(0, 0), 1) == 0;
      assert AdjMines(s, 2, 1, Pos(0, 0), 2) == 0;
      assert AdjMines(s, 2, 1, Pos(0, 0), 3) == 0;
    }
    assert MineAt(s, 2, 1, Step(Pos(0, 0), 4));
    assert AdjMines(s, 2, 1, Pos(0, 0), 5) == 1;
    assert AdjMines(s, 2, 1, Pos(0, 0), 6) == 1;
    assert AdjMines(s, 2, 1, Pos(0, 0), 7) == 1;
  }

  /** The copy loop on a one-row, two-column field avoiding column 0 puts the single
      pool slot on column 1. */
  lemma OneByTwoPlaced()
    ensures Placed([Fresh, Fresh], 0, [MINE]) == [Fresh, Cell(false, false, MINE)]
  {
  }

  /** Counting from the placed 1x2 layout leaves column 0 closed and unflagged, counting
      the mine on column 1. */
  lemma OneByTwoLaidFirst(laid: seq<Cell>)
    requires NumberedFrom([Fresh, Cell(false, false, MINE)], laid, 2, 1)
    ensures laid[0] == Cell(false, false, 1)
  {
    var placed := [Fresh, Cell(false, false, MINE)];
    assert Numbered(placed, 2, 1, Pos(0, 0)) == 1 by {
      OneByTwoNeighbour(placed);
    }
    assert InBounds(2, 1, Pos(0, 0)) && Idx(2, 1, Pos(0, 0)) == 0;
  }

  /** Counting from the placed 1x2 layout leaves column 1 closed and unflagged, holding
      the mine. */
  lemma OneByTwoLaidSecond(laid: seq<Cell>)
    requires NumberedFrom([Fresh, Cell(false, false, MINE)], laid, 2, 1)
    ensures laid[1] == Cell(false, false, MINE)
  {
    assert laid[1].count == MINE;
  }

  /** A one-row, two-column field with one mine, first revealed at column 0: the mine
      is forced onto column 1 and column 0 counts it as its neighbour. */
  lemma OneByTwoLaid(laid: seq<Cell>)
    requires NumberedFrom(Placed([Fresh, Fresh], 0, [MINE]), laid, 2, 1)
    ensures laid == [Cell(false, false, 1), Cell(false, false, MINE)]
  {
    OneByTwoPlaced();
    OneByTwoLaidFirst(laid);
    OneByTwoLaidSecond(laid);
  }

  /** Before the reveal, just column 0 of that field is a closed non-mine cell. */
  lemma OneByTwoClosedPlain()
    ensures Count([Cell(false, false, 1), Cell(false, false, MINE)], IsClosedPlain) == 1
  {
  }

  /** Opening column 0 of that field leaves no closed non-mine cell: the game is cleared. */
  lemma OneByTwoCleared()
    ensures StatusOf(true, false, Count(OpenOne([Cell(false, false, 1), Cell(false, false, MINE)], 2, 1, Pos(0, 0)), IsClosedPlain))
         == GameClear
  {
    OneByTwoClosedPlain();
    OpenOneFacts([Cell(false, false, 1), Cell(false, false, MINE)], 2, 1, Pos(0, 0));
  }

  /** One game: the configuration of Main, its counters and its field. */
  class Session {
    const nrows: int
    const ncols: int
    const nmines: int
    const gameState: GameState
    const field: Grid

    ghost predicate Valid()
      reads gameState, field.cells
    {
      1 <= nrows && 1 <= ncols && 0 <= nmines <= nrows * ncols - 1 &&
      field.Valid() && field.width == ncols && field.height == nrows &&
      Consistent(field.cells[..], ncols, nrows, nmines, gameState.closedPlainCount,
                 gameState.flagCount, gameState.mineSetup, gameState.bombed)
    }

    /** The state right after construction, and after a retry. */
    ghost predicate Initial()
      reads gameState, field.cells
    {
      (forall j :: 0 <= j < field.cells.Length ==> field.cells[j] == Fresh) &&
      gameState.closedPlainCount == nrows * ncols - nmines && gameState.flagCount == nmines &&
      !gameState.mineSetup && !gameState.bombed
    }

    function CurrentStatus(): Status
      reads gameState
    {
      gameState.GetStatus()
    }

    constructor (nrows: int, ncols: int, nmines: int)
      requires 1 <= nrows && 1 <= ncols && 0 <= nmines <= nrows * ncols - 1
      ensures this.nrows == nrows && this.ncols == ncols && this.nmines == nmines
      ensures Valid() && Initial() && fresh(gameState) && fresh(field) && fresh(field.cells)
    {
      this.nrows := nrows;
      this.ncols := ncols;
      this.nmines := nmines;
      gameState := new GameState(nrows * ncols, nmines);
      field := new Grid(ncols, nrows);
      new;
      assert field.cells[..] == seq(ncols * nrows, _ => Fresh);
      FreshConsistent(ncols, nrows, nmines);
    }

    /** A left click on cell (r, c). Nothing happens once the game is over or cleared,
        or on an open or flagged cell. Otherwise the first click of a game lays the
        mines around the cell (`laid` is the board then; on later clicks it is the
        board as it was), and the cell is opened with its cascade. `shuffled` is the
        shuffled mine pool, used only by the first click. */
    method RequestReveal(r: int, c: int, shuffled: seq<int>) returns (ghost laid: seq<Cell>, ghost order: seq<Pos>)
      requires Valid() && InBounds(ncols, nrows, Pos(r, c))
      requires CurrentStatus() == NotReady ==> multiset(shuffled) == multiset(MinePool(nrows * ncols - 1, nmines))
      modifies gameState, field.cells
      ensures Valid()
      ensures old(CurrentStatus().IsTerminal() || field.cells[Idx(ncols, nrows, Pos(r, c))].isOpen
                  || field.cells[Idx(ncols, nrows, Pos(r, c))].flagged) ==>
        unchanged(gameState) && unchanged(field.cells)
      ensures !old(CurrentStatus().IsTerminal() || field.cells[Idx(ncols, nrows, Pos(r, c))].isOpen
                   || field.cells[Idx(ncols, nrows, Pos(r, c))].flagged) ==>
        (old(CurrentStatus()) == NotReady ==>
          |shuffled| == nrows * ncols - 1 &&
          NumberedFrom(Placed(old(field.cells[..]), Idx(ncols, nrows, Pos(r, c)), shuffled), laid, ncols, nrows) &&
          !MineAt(laid, ncols, nrows, Pos(r, c)) && CurrentStatus() != GameOver) &&
        (old(CurrentStatus()) == Playing ==> laid == old(field.cells[..])) &&
        OnlyOpens(laid, field.cells[..]) &&
        CascadeOrder(laid, field.cells[..], ncols, nrows, Pos(r, c), order) &&
        FloodClosed(laid, field.cells[..], ncols, nrows, {}) &&
        (CurrentStatus() == GameOver <==> MineAt(laid, ncols, nrows, Pos(r, c)))
    {
      laid, order := field.cells[..], [];
      var i := Idx(ncols, nrows, Pos(r, c));
      var status := gameState.GetStatus();
      if status.IsTerminal() || field.cells[i].isOpen || field.cells[i].flagged {
        return;
      }
      if status == NotReady {
        ghost var s0 := field.cells[..];
        gameState.SetupMines();
        SetupMines(field, nmines, Pos(r, c), shuffled);
        laid := field.cells[..];
        LaidConsistent(s0, laid, ncols, nrows, nmines, Pos(r, c), shuffled,
                       gameState.closedPlainCount, gameState.flagCount);
      }
      ghost var cp, fc, b := gameState.closedPlainCount, gameState.flagCount, gameState.bombed;
      order := OpenCell(gameState, field, r, c);
      OpenedConsistent(laid, field.cells[..], ncols, nrows, nmines, cp, fc, b,
                       gameState.closedPlainCount, gameState.flagCount, gameState.bombed);
      if MineAt(laid, ncols, nrows, Pos(r, c)) {
        assert NewlyOpenAt(laid, field.cells[..], ncols, nrows, Pos(r, c));
      } else {
        CascadeAvoidsMines(laid, field.cells[..], ncols, nrows, Pos(r, c), order);
      }
    }

    /** A right click on cell (r, c): on a closed cell of a game still going on, the
        flag is toggled and the flag display moves by one, without a clamp. */
    method RequestFlag(r: int, c: int)
      requires Valid() && InBounds(ncols, nrows, Pos(r, c))
      modifies gameState, field.cells
      ensures Valid()
      ensures old(CurrentStatus().IsTerminal() || field.cells[Idx(ncols, nrows, Pos(r, c))].isOpen) ==>
        unchanged(gameState) && unchanged(field.cells)
      ensures !old(CurrentStatus().IsTerminal() || field.cells[Idx(ncols, nrows, Pos(r, c))].isOpen) ==>
        field.cells[..] == ToggleFlag(old(field.cells[..]), Idx(ncols, nrows, Pos(r, c))) &&
        gameState.flagCount == old(gameState.flagCount) + (if old(field.cells[Idx(ncols, nrows, Pos(r, c))].flagged) then 1 else -1) &&
        gameState.closedPlainCount == old(gameState.closedPlainCount) &&
        gameState.mineSetup == old(gameState.mineSetup) && gameState.bombed == old(gameState.bombed)
    {
      var i := Idx(ncols, nrows, Pos(r, c));
      if gameState.GetStatus().IsTerminal() || field.cells[i].isOpen {
        return;
      }
      ghost var s0 := field.cells[..];
      ToggleConsistent(s0, i, ncols, nrows, nmines, gameState.closedPlainCount,
                       gameState.flagCount, gameState.mineSetup, gameState.bombed);
      field.cells[i] := field.cells[i].(flagged := !field.cells[i].flagged);
      if field.cells[i].flagged {
        gameState.BuildFlag();
      } else {
        gameState.RemoveFlag();
      }
      assert field.cells[..] == ToggleFlag(s0, i);
    }

    /** The R key: once the game is over or cleared, the field is cleared and the
        counters go back to their construction values. */
    method RequestRetry()
      requires Valid()
      modifies gameState, field.cells
      ensures Valid()
      ensures old(CurrentStatus().IsTerminal()) ==> Initial() && CurrentStatus() == NotReady
      ensures !old(CurrentStatus().IsTerminal()) ==> unchanged(gameState) && unchanged(field.cells)
    {
      if gameState.GetStatus().IsTerminal() {
        ClearField(field);
        gameState.Reset(nrows * ncols, nmines);
        assert field.cells[..] == seq(ncols * nrows, _ => Fresh);
        FreshConsistent(ncols, nrows, nmines);
      }
    }
  }

  /** A new game with the configuration of Main. */
  method NewGame() returns (session: Session)
    ensures session.nrows == DefaultRows && session.ncols == DefaultCols && session.nmines == DefaultMines
    ensures fresh(session) && session.Valid() && session.Initial() && session.CurrentStatus() == NotReady
  {
    session := new Session(DefaultRows, DefaultCols, DefaultMines);
  }

  /** Two right clicks on the same cell give back the field and the flag display, in
      every state of the game. */
  method FlagTwice(session: Session, r: int, c: int)
    requires session.Valid() && InBounds(session.ncols, session.nrows, Pos(r, c))
    modifies session.gameState, session.field.cells
    ensures session.Valid()
    ensures session.field.cells[..] == old(session.field.cells[..])
    ensures session.gameState.flagCount == old(session.gameState.flagCount)
    ensures session.gameState.closedPlainCount == old(session.gameState.closedPlainCount)
    ensures session.gameState.mineSetup == old(session.gameState.mineSetup)
    ensures session.gameState.bombed == old(session.gameState.bombed)
  {
    ghost var i := Idx(session.ncols, session.nrows, Pos(r, c));
    ghost var s0, status0 := session.field.cells[..], session.CurrentStatus();
    session.RequestFlag(r, c);
    assert session.CurrentStatus() == status0;
    assert session.field.cells[i].isOpen == s0[i].isOpen;
    session.RequestFlag(r, c);
    if !(status0.IsTerminal() || s0[i].isOpen) {
      ToggleFlagTwice(s0, i);
    }
    assert session.field.cells[..] == s0;
  }
}
