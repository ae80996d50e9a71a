/**
 * The main menu of the C++ game: the ++ and -- operators that move the
 * highlighted option, the window-size requirement, and the selection loop
 * over the keys the player presses.
 */
module MainMenus {
  import Misc
  import opened Menus
  import Wrappers

  /** Where display_menu lists each main option (its opt_map), top to bottom. */
  function MainIndex(opt: Options): (i: int)
    requires IsMainOption(opt)
    ensures 0 <= i < 4
  {
    match opt
    case NewGame => 0
    case ResumeGame => 1
    case ShowStats => 2
    case Exit => 3
  }

  /** display_menu's opt_map: the main option listed at line i. */
  function MainOptionAt(i: int): (opt: Options)
    requires 0 <= i < 4
    ensures IsMainOption(opt) && MainIndex(opt) == i
  {
    if i == 0 then NewGame else if i == 1 then ResumeGame else if i == 2 then ShowStats else Exit
  }

  /**
   * ++opt: one line down the list, stopping at EXIT; any option that is
   * not a main option goes to EXIT.  The operator both stores and returns
   * this value.
   */
  function Increment(opt: Options): (next: Options)
    ensures IsMainOption(next)
    ensures IsMainOption(opt) ==> MainIndex(next) == Min(MainIndex(opt) + 1, 3)
    ensures !IsMainOption(opt) ==> next == Exit
  {
    match opt
    case NewGame => ResumeGame
    case ResumeGame => ShowStats
    case ShowStats => Exit
    case _ => Exit
  }

  /**
   * --opt: one line up the list, stopping at NEW_GAME; any option that is
   * not a main option goes to NEW_GAME.
   */
  function Decrement(opt: Options): (next: Options)
    ensures IsMainOption(next)
    ensures IsMainOption(opt) ==> MainIndex(next) == Max(MainIndex(opt) - 1, 0)
    ensures !IsMainOption(opt) ==> next == NewGame
  {
    match opt
    case Exit => ShowStats
    case ShowStats => ResumeGame
    case ResumeGame => NewGame
    case _ => NewGame
  }

  /** A main option is determined by its line. */
  lemma MainIndexInjective(a: Options, b: Options)
    requires IsMainOption(a) && IsMainOption(b) && MainIndex(a) == MainIndex(b)
    ensures a == b
  {
  }

  /** -- undoes ++ everywhere but at EXIT, and ++ undoes -- everywhere but at NEW_GAME. */
  lemma IncrementDecrement(opt: Options)
    ensures opt in {NewGame, ResumeGame, ShowStats} ==> Decrement(Increment(opt)) == opt
    ensures opt in {ResumeGame, ShowStats, Exit} ==> Increment(Decrement(opt)) == opt
    ensures Increment(Exit) == Exit && Decrement(NewGame) == NewGame
  {
    if opt in {NewGame, ResumeGame, ShowStats} {
      MainIndexInjective(Decrement(Increment(opt)), opt);
    }
    if opt in {ResumeGame, ShowStats, Exit} {
      MainIndexInjective(Increment(Decrement(opt)), opt);
    }
  }

  /** One pass of the do-while body: KEY_DOWN applies ++, KEY_UP applies --, any other key nothing. */
  function Step(opt: Options, code: int): Options
  {
    var input := Uint16(code);
    if input == KeyDown then Increment(opt)
    else if input == KeyUp then Decrement(opt)
    else opt
  }

  /**
   * The selection loop from opt over the keys getch returns: after each
   * key's step, KEY_ENTER ends the loop with the current option; None when
   * the keys run out before KEY_ENTER (the game would go on waiting).
   */
  function Run(opt: Options, keys: seq<int>): Wrappers.Option<Options>
    decreases |keys|
  {
    if |keys| == 0 then Wrappers.None
    else
      var next := Step(opt, keys[0]);
      if Uint16(keys[0]) == Misc.KeyEnter then Wrappers.Some(next) else Run(next, keys[1..])
  }

  /** The loop ends exactly when some key is KEY_ENTER. */
  lemma {:induction false} RunEndsIffEnter(opt: Options, keys: seq<int>)
    ensures Run(opt, keys).Some? <==> exists i | 0 <= i < |keys| :: Uint16(keys[i]) == Misc.KeyEnter
    decreases |keys|
  {
    if |keys| > 0 {
      RunEndsIffEnter(Step(opt, keys[0]), keys[1..]);
      if exists i | 0 <= i < |keys[1..]| :: Uint16(keys[1..][i]) == Misc.KeyEnter {
        var i :| 0 <= i < |keys[1..]| && Uint16(keys[1..][i]) == Misc.KeyEnter;
        assert Uint16(keys[i + 1]) == Misc.KeyEnter;
      }
      if exists i | 0 <= i < |keys| :: Uint16(keys[i]) == Misc.KeyEnter {
        var i :| 0 <= i < |keys| && Uint16(keys[i]) == Misc.KeyEnter;
        if i > 0 {
          assert Uint16(keys[1..][i - 1]) == Misc.KeyEnter;
        }
      }
    }
  }

  /** Starting on a main option, the loop can only end on a main option. */
  lemma {:induction false} RunSelectsMain(opt: Options, keys: seq<int>)
    requires IsMainOption(opt)
    ensures Run(opt, keys).Some? ==> IsMainOption(Run(opt, keys).value)
    decreases |keys|
  {
    if |keys| > 0 {
      RunSelectsMain(Step(opt, keys[0]), keys[1..]);
    }
  }

  /** Keys other than the arrow keys never change the selection. */
  lemma {:induction false} RunIgnoresOtherKeys(opt: Options, keys: seq<int>)
    requires forall i | 0 <= i < |keys| :: Uint16(keys[i]) != KeyDown && Uint16(keys[i]) != KeyUp
    ensures Run(opt, keys).Some? ==> Run(opt, keys).value == opt
  {
    if |keys| > 0 {
      RunIgnoresOtherKeys(opt, keys[1..]);
    }
  }

  /** WINDOW_REQ as set_WINDOW_REQ computes it in uint8_t. */
  function WindowReq(verticalDivider: Misc.u8, inGameMenuDisplaySpacing: Misc.u8): (req: (Misc.u8, Misc.u8))
    ensures req.0 == TopPadding + PuzzleSpace + 3 + TopPadding
    ensures verticalDivider + inGameMenuDisplaySpacing < 0x100 - (LeftPadding + PuzzleSpace + LeftPadding) ==>
      req.1 == LeftPadding + PuzzleSpace + verticalDivider + inGameMenuDisplaySpacing + LeftPadding
  {
    (Uint8(TopPadding + PuzzleSpace + 3 + TopPadding),
     Uint8(LeftPadding + PuzzleSpace + verticalDivider + inGameMenuDisplaySpacing + LeftPadding))
  }

  /** The two requirements the game uses: with the in-game menu beside the puzzle, and without. */
  lemma WindowReqValues()
    ensures WindowReq(DefaultVerticalDivider, DefaultInGameMenuDisplaySpacing) == (38, 125)
    ensures WindowReq(0, 0) == (38, 41)
  {
  }

  /**
   * A MainMenu with the spacing it inherits from Menu; windowReq stands for
   * the global WINDOW_REQ, which set_WINDOW_REQ writes.
   */
  class MainMenu {
    var verticalDivider: Misc.u8
    var inGameMenuDisplaySpacing: Misc.u8
    var windowReq: (Misc.u8, Misc.u8)

    /** Menu's default spacing; WINDOW_REQ starts zeroed, as a global cell does. */
    constructor ()
      ensures verticalDivider == DefaultVerticalDivider
      ensures inGameMenuDisplaySpacing == DefaultInGameMenuDisplaySpacing
      ensures windowReq == (0, 0)
    {
      verticalDivider := DefaultVerticalDivider;
      inGameMenuDisplaySpacing := DefaultInGameMenuDisplaySpacing;
      windowReq := (0, 0);
    }

    method SetVerticalDivider(val: Misc.u8)
      modifies this
      ensures verticalDivider == val
      ensures inGameMenuDisplaySpacing == old(inGameMenuDisplaySpacing) && windowReq == old(windowReq)
    {
      verticalDivider := val;
    }

    method SetInGameMenuDisplaySpacing(val: Misc.u8)
      modifies this
      ensures inGameMenuDisplaySpacing == val
      ensures verticalDivider == old(verticalDivider) && windowReq == old(windowReq)
    {
      inGameMenuDisplaySpacing := val;
    }

    /** set_WINDOW_REQ: the lines and columns the window must have for the current spacing. */
    method SetWindowReq()
      modifies this
      ensures windowReq == WindowReq(verticalDivider, inGameMenuDisplaySpacing)
      ensures verticalDivider == old(verticalDivider) && inGameMenuDisplaySpacing == old(inGameMenuDisplaySpacing)
    {
      windowReq := WindowReq(verticalDivider, inGameMenuDisplaySpacing);
    }

    /**
     * menu(bool): without the in-game menu the divider and its display
     * area shrink to nothing; then WINDOW_REQ is set and the selection
     * loop runs.
     */
    method MenuWith(useInGameMenu: bool, keys: seq<int>) returns (r: Wrappers.Option<Options>)
      modifies this
      ensures !useInGameMenu ==> verticalDivider == 0 && inGameMenuDisplaySpacing == 0
      ensures useInGameMenu ==>
        verticalDivider == old(verticalDivider) && inGameMenuDisplaySpacing == old(inGameMenuDisplaySpacing)
      ensures windowReq == WindowReq(verticalDivider, inGameMenuDisplaySpacing)
      ensures r == Run(NewGame, keys)
    {
      if !useInGameMenu {
        SetVerticalDivider(0);
        SetInGameMenuDisplaySpacing(0);
      }
      SetWindowReq();
      r := Menu(keys);
    }

    /**
     * menu(): starting on NEW_GAME, each key getch returns is stored as a
     * uint16_t, KEY_DOWN and KEY_UP move the selection, and the loop ends
     * after KEY_ENTER with the selection it then has.
     */
    method Menu(keys: seq<int>) returns (r: Wrappers.Option<Options>)
      ensures r == Run(NewGame, keys)
      ensures r.Some? ==> IsMainOption(r.value)
    {
      RunSelectsMain(NewGame, keys);
      var opt := NewGame;
      var i := 0;
      while i < |keys|
        invariant 0 <= i <= |keys|
        invariant Run(opt, keys[i..]) == Run(NewGame, keys)
      {
        assert keys[i..][0] == keys[i] && keys[i..][1..] == keys[i + 1..];
        var input := Uint16(keys[i]);
        if input == KeyDown {
          opt := Increment(opt);
        } else if input == KeyUp {
          opt := Decrement(opt);
        }
        i := i + 1;
        if input == Misc.KeyEnter {
          return Wrappers.Some(opt);
        }
      }
      return Wrappers.None;
    }
  }
}
