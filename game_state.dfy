/** The counter-based game state machine (struct GameState). */
module GameStates {

  /** The phases reported by getStatus. */
  datatype Status = NotReady | Playing | GameOver | GameClear {
    predicate IsTerminal() { this == GameOver || this == GameClear }
  }

  /** The phase derived from the counters, with the precedence of getStatus:
      an unprepared board first, then a hit mine, then a cleared board. */
  function StatusOf(mineSetup: bool, bombed: bool, closedPlainCount: int): (s: Status)
    ensures s == NotReady <==> !mineSetup
    ensures s == GameOver <==> mineSetup && bombed
    ensures s == GameClear <==> mineSetup && !bombed && closedPlainCount == 0
    ensures s == Playing <==> mineSetup && !bombed && closedPlainCount != 0
  {
    if !mineSetup then NotReady
    else if bombed then GameOver
    else if closedPlainCount == 0 then GameClear
    else Playing
  }

  /** The counters of one game. They are updated one step at a time by the
      board operations; the phase is always derived, never stored. */
  class GameState {
    var closedPlainCount: int
    var flagCount: int
    var mineSetup: bool
    var bombed: bool

    constructor (ncells: int, nmines: int)
      ensures closedPlainCount == ncells - nmines && flagCount == nmines
      ensures !mineSetup && !bombed
    {
      closedPlainCount := ncells - nmines;
      flagCount := nmines;
      mineSetup := false;
      bombed := false;
    }

    method TriggerMine()
      modifies this
      ensures bombed
      ensures closedPlainCount == old(closedPlainCount) && flagCount == old(flagCount)
      ensures mineSetup == old(mineSetup)
    {
      bombed := true;
    }

    method SetupMines()
      modifies this
      ensures mineSetup
      ensures closedPlainCount == old(closedPlainCount) && flagCount == old(flagCount)
      ensures bombed == old(bombed)
    {
      mineSetup := true;
    }

    method OpenPlain()
      modifies this
      ensures closedPlainCount == old(closedPlainCount) - 1
      ensures flagCount == old(flagCount)
      ensures mineSetup == old(mineSetup) && bombed == old(bombed)
    {
      closedPlainCount := closedPlainCount - 1;
    }

    method BuildFlag()
      modifies this
      ensures flagCount == old(flagCount) - 1
      ensures closedPlainCount == old(closedPlainCount)
      ensures mineSetup == old(mineSetup) && bombed == old(bombed)
    {
      flagCount := flagCount - 1;
    }

    method RemoveFlag()
      modifies this
      ensures flagCount == old(flagCount) + 1
      ensures closedPlainCount == old(closedPlainCount)
      ensures mineSetup == old(mineSetup) && bombed == old(bombed)
    {
      flagCount := flagCount + 1;
    }

    /** Back to the values of construction. */
    method Reset(ncells: int, nmines: int)
      modifies this
      ensures closedPlainCount == ncells - nmines && flagCount == nmines
      ensures !mineSetup && !bombed
      ensures GetStatus() == NotReady
    {
      mineSetup := false;
      bombed := false;
      closedPlainCount := ncells - nmines;
      flagCount := nmines;
    }

    /** The flags-remaining display value. */
    function GetFlagCount(): int
      reads this
    {
      flagCount
    }

    function GetStatus(): Status
      reads this
    {
      StatusOf(mineSetup, bombed, closedPlainCount)
    }
  }
}
