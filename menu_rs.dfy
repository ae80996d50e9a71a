/**
 * The main menu of the Rust version (menu.rs): the options it lists, the
 * Up and Down transitions of its selection loop, the window-size
 * requirement it writes into the display globals, and the MainMenu value
 * MainMenu::new builds.
 */
module RustMenus {
  import Misc
  import Wrappers
  import Menus
  import MainMenus
  import opened Terminal

  /** MainMenuOption, in declaration order (the order strum's iter walks). */
  datatype MainMenuOption = NewGame | ResumeGame | ShowStats | Exit

  /** MainMenuOption::COUNT. */
  const Count: u8 := 4

  /** The variants as MainMenuOption::iter yields them. */
  const Variants: seq<MainMenuOption> := [NewGame, ResumeGame, ShowStats, Exit]

  /** A variant's place in declaration order. */
  function Index(opt: MainMenuOption): (i: int)
    ensures 0 <= i < Count
    ensures Variants[i] == opt
  {
    match opt
    case NewGame => 0
    case ResumeGame => 1
    case ShowStats => 2
    case Exit => 3
  }

  /** The ncurses key codes menu compares getch's result with, and the letters that stand in for them. */
  const KeyDown := 258
  const KeyUp := 259
  const LetterUp := 'w' as int
  const LetterDown := 's' as int

  /** The u8 range 0..n. */
  function Range(n: u8): (r: seq<u8>)
    ensures |r| == n
    ensures forall i | 0 <= i < n :: r[i] == i
  {
    seq(n, i requires 0 <= i < n => i as u8)
  }

  /** Iterator::zip on two finite sequences: pairs of corresponding elements, as many as the shorter has. */
  function Zip<A, B>(xs: seq<A>, ys: seq<B>): (zs: seq<(A, B)>)
    ensures |zs| == if |xs| < |ys| then |xs| else |ys|
    ensures forall i | 0 <= i < |zs| :: zs[i] == (xs[i], ys[i])
  {
    if |xs| == 0 || |ys| == 0 then [] else [(xs[0], ys[0])] + Zip(xs[1..], ys[1..])
  }

  /**
   * MainMenuOption::enumerate: each variant paired with its offset from
   * the centre line, 0 for the first through COUNT - 1 for the last.
   */
  function Enumerate(): (pairs: seq<(u8, MainMenuOption)>)
    ensures |pairs| == Count
    ensures forall i | 0 <= i < |pairs| :: pairs[i].0 as int == i && Index(pairs[i].1) == i
  {
    Zip(Range(Count), Variants)
  }

  /** Every variant is listed exactly once, at its own index. */
  lemma EnumerateListsEachOnce(opt: MainMenuOption)
    ensures (Index(opt) as u8, opt) in Enumerate()
    ensures forall i | 0 <= i < |Enumerate()| :: Enumerate()[i].1 == opt ==> i == Index(opt)
  {
    assert Enumerate()[Index(opt)] == (Index(opt) as u8, opt);
  }

  /** The KEY_UP / 'w' arm of menu: one line up, stopping at NEW_GAME. */
  function Up(opt: MainMenuOption): (next: MainMenuOption)
    ensures Index(next) == if Index(opt) == 0 then 0 else Index(opt) - 1
  {
    match opt
    case Exit => ShowStats
    case ShowStats => ResumeGame
    case _ => NewGame
  }

  /** The KEY_DOWN / 's' arm of menu: one line down, stopping at EXIT. */
  function Down(opt: MainMenuOption): (next: MainMenuOption)
    ensures Index(next) == if Index(opt) == Count - 1 then Count - 1 else Index(opt) + 1
  {
    match opt
    case NewGame => ResumeGame
    case ResumeGame => ShowStats
    case _ => Exit
  }

  /** A variant is determined by its index. */
  lemma IndexInjective(a: MainMenuOption, b: MainMenuOption)
    requires Index(a) == Index(b)
    ensures a == b
  {
  }

  /** Up is fixed only at NEW_GAME, Down only at EXIT, and each undoes the other away from its fixed point. */
  lemma UpDown(opt: MainMenuOption)
    ensures Up(opt) == opt <==> opt == NewGame
    ensures Down(opt) == opt <==> opt == Exit
    ensures opt != Exit ==> Up(Down(opt)) == opt
    ensures opt != NewGame ==> Down(Up(opt)) == opt
  {
    if opt != Exit {
      IndexInjective(Up(Down(opt)), opt);
    }
    if opt != NewGame {
      IndexInjective(Down(Up(opt)), opt);
    }
  }

  /** The same option of the C++ menu's options enum. */
  function AsOptions(opt: MainMenuOption): (o: Menus.Options)
    ensures Menus.IsMainOption(o) && MainMenus.MainIndex(o) == Index(opt)
  {
    match opt
    case NewGame => Menus.NewGame
    case ResumeGame => Menus.ResumeGame
    case ShowStats => Menus.ShowStats
    case Exit => Menus.Exit
  }

  /** The Rust transitions are the C++ operators: Up is --, Down is ++. */
  lemma AgreesWithMainMenu(opt: MainMenuOption)
    ensures AsOptions(Up(opt)) == MainMenus.Decrement(AsOptions(opt))
    ensures AsOptions(Down(opt)) == MainMenus.Increment(AsOptions(opt))
  {
    MainMenus.MainIndexInjective(AsOptions(Up(opt)), MainMenus.Decrement(AsOptions(opt)));
    MainMenus.MainIndexInjective(AsOptions(Down(opt)), MainMenus.Increment(AsOptions(opt)));
  }

  /** One pass of the loop body after getch: Up on KEY_UP or 'w', else Down on KEY_DOWN or 's', else no change. */
  function Step(opt: MainMenuOption, input: int): MainMenuOption
  {
    if input == KeyUp || input == LetterUp then Up(opt)
    else if input == KeyDown || input == LetterDown then Down(opt)
    else opt
  }

  /**
   * The loop from opt over the inputs getch returns (ERR, -1, when the
   * 250 ms timeout passes): each input is applied, and the loop stops
   * after the input equal to KEY_ENTER; None when the inputs run out first.
   */
  function Run(opt: MainMenuOption, inputs: seq<int>, keyEnter: int): Wrappers.Option<MainMenuOption>
    decreases |inputs|
  {
    if |inputs| == 0 then Wrappers.None
    else
      var next := Step(opt, inputs[0]);
      if inputs[0] == keyEnter then Wrappers.Some(next) else Run(next, inputs[1..], keyEnter)
  }

  /**
   * What menu selects: input starts as -1, so with KEY_ENTER equal to -1
   * the loop never runs and NEW_GAME is returned at once.
   */
  function Selected(inputs: seq<int>, keyEnter: int): Wrappers.Option<MainMenuOption>
  {
    if keyEnter == -1 then Wrappers.Some(NewGame) else Run(NewGame, inputs, keyEnter)
  }

  /** The loop ends exactly when some input is KEY_ENTER. */
  lemma {:induction false} RunEndsIffEnter(opt: MainMenuOption, inputs: seq<int>, keyEnter: int)
    ensures Run(opt, inputs, keyEnter).Some? <==> exists i | 0 <= i < |inputs| :: inputs[i] == keyEnter
    decreases |inputs|
  {
    if |inputs| > 0 {
      RunEndsIffEnter(Step(opt, inputs[0]), inputs[1..], keyEnter);
      if exists i | 0 <= i < |inputs[1..]| :: inputs[1..][i] == keyEnter {
        var i :| 0 <= i < |inputs[1..]| && inputs[1..][i] == keyEnter;
        assert inputs[i + 1] == keyEnter;
      }
      if exists i | 0 <= i < |inputs| :: inputs[i] == keyEnter {
        var i :| 0 <= i < |inputs| && inputs[i] == keyEnter;
        if i > 0 {
          assert inputs[1..][i - 1] == keyEnter;
        }
      }
    }
  }

  /** Inputs that are neither arrow key nor 'w' nor 's' leave the selection where it was. */
  lemma {:induction false} RunIgnoresOtherKeys(opt: MainMenuOption, inputs: seq<int>, keyEnter: int)
    requires forall i | 0 <= i < |inputs| :: inputs[i] !in {KeyUp, LetterUp, KeyDown, LetterDown}
    ensures Run(opt, inputs, keyEnter).Some? ==> Run(opt, inputs, keyEnter).value == opt
    decreases |inputs|
  {
    if |inputs| > 0 {
      assert inputs[0] !in {KeyUp, LetterUp, KeyDown, LetterDown};
      RunIgnoresOtherKeys(opt, inputs[1..], keyEnter);
    }
  }

  /** Enough presses of Down select EXIT, whatever the selection was. */
  lemma {:induction false} DownReachesExit(opt: MainMenuOption, k: nat, keyEnter: int)
    requires keyEnter !in {KeyUp, LetterUp, KeyDown, LetterDown}
    requires k >= Count - 1 - Index(opt)
    ensures Run(opt, seq(k, _ => KeyDown) + [keyEnter], keyEnter) == Wrappers.Some(Exit)
    decreases k
  {
    var inputs := seq(k, _ => KeyDown) + [keyEnter];
    if k == 0 {
      assert Index(opt) == Count - 1;
      IndexInjective(opt, Exit);
    } else {
      assert inputs[0] == KeyDown;
      assert inputs[1..] == seq(k - 1, _ => KeyDown) + [keyEnter];
      DownReachesExit(Down(opt), k - 1, keyEnter);
    }
  }

  /** The display globals of terminal.rs that the menu reads and writes. */
  class DisplayGlobals {
    var verticalDivider: u8
    var inGameMenuDisplaySpacing: u8
    var windowReq: Cell

    /** The statics' initial values: VERTICAL_DIVIDER 4, IN_GAME_MENU_DISPLAY_SPACING 80, WINDOW_REQ (0, 0). */
    constructor ()
      ensures verticalDivider == 4 && inGameMenuDisplaySpacing == 80 && windowReq == Cell(0, 0)
    {
      verticalDivider := 4;
      inGameMenuDisplaySpacing := 80;
      windowReq := Cell(0, 0);
    }

    /** set_vertical_divider. */
    method SetVerticalDivider(n: u8)
      modifies this
      ensures verticalDivider == n
      ensures inGameMenuDisplaySpacing == old(inGameMenuDisplaySpacing) && windowReq == old(windowReq)
    {
      verticalDivider := n;
    }

    /** set_in_game_menu_display_spacing. */
    method SetInGameMenuDisplaySpacing(n: u8)
      modifies this
      ensures inGameMenuDisplaySpacing == n
      ensures verticalDivider == old(verticalDivider) && windowReq == old(windowReq)
    {
      inGameMenuDisplaySpacing := n;
    }
  }

  /** The padding a MainMenu keeps, and whether the in-game menu is shown. */
  datatype MainMenu = MainMenu(bottomPadding: u8, rightPadding: u8, resultMsgSpace: u8, inGameMenuEnabled: bool)

  /** MainMenu::new: the padding mirrors the top and left padding, and 3 lines are kept for the result message. */
  function NewMainMenu(useInGameMenu: bool): MainMenu
  {
    MainMenu(Origin.RowNo(), Origin.ColNo(), 3, useInGameMenu)
  }

  /**
   * set_WINDOW_REQ's two u8 sums: lines for the padding, the puzzle and the
   * result message; columns for the padding, the puzzle, the divider and
   * the in-game menu.  A sum past 255 panics (None).
   */
  function WindowReq(m: MainMenu, verticalDivider: u8, inGameMenuDisplaySpacing: u8): (req: Wrappers.Option<Cell>)
    ensures req.Some? <==>
      Origin.RowNo() + Menus.PuzzleSpace + m.resultMsgSpace + m.bottomPadding < 0x100 &&
      Origin.ColNo() + Menus.PuzzleSpace + verticalDivider + inGameMenuDisplaySpacing + m.rightPadding < 0x100
    ensures req.Some? ==>
      req.value.Y() == Origin.RowNo() + Menus.PuzzleSpace + m.resultMsgSpace + m.bottomPadding &&
      req.value.X() == Origin.ColNo() + Menus.PuzzleSpace + verticalDivider + inGameMenuDisplaySpacing + m.rightPadding
  {
    var lines := Origin.RowNo() + Menus.PuzzleSpace + m.resultMsgSpace + m.bottomPadding;
    var columns := Origin.ColNo() + Menus.PuzzleSpace + verticalDivider + inGameMenuDisplaySpacing + m.rightPadding;
    if lines < 0x100 && columns < 0x100 then Wrappers.Some(Cell(lines, columns)) else Wrappers.None
  }

  /** A new MainMenu needs 38 x 125 with the in-game menu's default spacing and 38 x 41 once it is zeroed. */
  lemma WindowReqValues(useInGameMenu: bool)
    ensures WindowReq(NewMainMenu(useInGameMenu), 4, 80) == Wrappers.Some(Cell(38, 125))
    ensures WindowReq(NewMainMenu(useInGameMenu), 0, 0) == Wrappers.Some(Cell(38, 41))
  {
  }

  /** The divider and display spacing menu leaves in force. */
  function Spacing(m: MainMenu, verticalDivider: u8, inGameMenuDisplaySpacing: u8): (u8, u8)
  {
    if m.inGameMenuEnabled then (verticalDivider, inGameMenuDisplaySpacing) else (0, 0)
  }

  /** set_WINDOW_REQ: WINDOW_REQ becomes the requirement for the current globals. */
  method SetWindowReq(m: MainMenu, g: DisplayGlobals)
    requires WindowReq(m, g.verticalDivider, g.inGameMenuDisplaySpacing).Some?
    modifies g
    ensures WindowReq(m, g.verticalDivider, g.inGameMenuDisplaySpacing) == Wrappers.Some(g.windowReq)
    ensures g.verticalDivider == old(g.verticalDivider) && g.inGameMenuDisplaySpacing == old(g.inGameMenuDisplaySpacing)
  {
    var lines := Origin.RowNo() + Menus.PuzzleSpace + m.resultMsgSpace + m.bottomPadding;
    var columns := Origin.ColNo() + Menus.PuzzleSpace + g.verticalDivider + g.inGameMenuDisplaySpacing + m.rightPadding;
    g.windowReq := Cell(lines, columns);
  }

  /**
   * MainMenu::menu: zeroes the divider and spacing when the in-game menu is
   * disabled, sets WINDOW_REQ, then runs the selection loop from NEW_GAME
   * over the inputs getch returns until one equals KEY_ENTER.  None when
   * the inputs run out before that.
   */
  method Menu(m: MainMenu, g: DisplayGlobals, inputs: seq<int>, keyEnter: int)
    returns (r: Wrappers.Option<MainMenuOption>)
    requires WindowReq(m, Spacing(m, g.verticalDivider, g.inGameMenuDisplaySpacing).0,
                          Spacing(m, g.verticalDivider, g.inGameMenuDisplaySpacing).1).Some?
    modifies g
    ensures (g.verticalDivider, g.inGameMenuDisplaySpacing) == Spacing(m, old(g.verticalDivider), old(g.inGameMenuDisplaySpacing))
    ensures WindowReq(m, g.verticalDivider, g.inGameMenuDisplaySpacing) == Wrappers.Some(g.windowReq)
    ensures r == Selected(inputs, keyEnter)
  {
    if !m.inGameMenuEnabled {
      g.SetVerticalDivider(0);
      g.SetInGameMenuDisplaySpacing(0);
    }
    SetWindowReq(m, g);
    var opt := NewGame;
    var input := -1;
    var i := 0;
    while input != keyEnter
      invariant 0 <= i <= |inputs|
      invariant input != keyEnter ==> Run(opt, inputs[i..], keyEnter) == Selected(inputs, keyEnter)
      invariant input == keyEnter ==> Wrappers.Some(opt) == Selected(inputs, keyEnter)
      decreases |inputs| - i + (if input != keyEnter then 1 else 0)
    {
      if i == |inputs| {
        return Wrappers.None;
      }
      assert inputs[i..][0] == inputs[i] && inputs[i..][1..] == inputs[i + 1..];
      input := inputs[i];
      i := i + 1;
      opt := Step(opt, input);
    }
    return Wrappers.Some(opt);
  }
}
