/**
 * The difficulty menu of the C++ game: the ++ and -- operators on
 * difficulty levels and the selection loop that records the chosen level.
 */
module DifficultyMenus {
  import Misc
  import opened Menus
  import Wrappers

  /**
   * diff++: the next harder level (the largest clue count below the
   * current one), staying at EXPERT; the operator stores this value and
   * returns it, not the old one.
   */
  function Increment(diff: Misc.Difficulty): (next: Misc.Difficulty)
    ensures Misc.Clues(next) <= Misc.Clues(diff)
    ensures next == diff <==> diff == Misc.Expert
    ensures forall d: Misc.Difficulty :: !(Misc.Clues(next) < Misc.Clues(d) < Misc.Clues(diff))
  {
    match diff
    case Easy => Misc.Medium
    case Medium => Misc.Hard
    case Hard => Misc.Expert
    case _ => Misc.Expert
  }

  /**
   * diff--: the next easier level (the smallest clue count above the
   * current one), staying at EASY; the operator stores and returns it.
   */
  function Decrement(diff: Misc.Difficulty): (next: Misc.Difficulty)
    ensures Misc.Clues(next) >= Misc.Clues(diff)
    ensures next == diff <==> diff == Misc.Easy
    ensures forall d: Misc.Difficulty :: !(Misc.Clues(diff) < Misc.Clues(d) < Misc.Clues(next))
  {
    match diff
    case Expert => Misc.Hard
    case Hard => Misc.Medium
    case Medium => Misc.Easy
    case _ => Misc.Easy
  }

  /** -- undoes ++ below EXPERT, and ++ undoes -- above EASY. */
  lemma IncrementDecrement(diff: Misc.Difficulty)
    ensures diff != Misc.Expert ==> Decrement(Increment(diff)) == diff
    ensures diff != Misc.Easy ==> Increment(Decrement(diff)) == diff
  {
    var up, down := Increment(diff), Decrement(diff);
    if diff != Misc.Expert {
      ClueCountInjective(Decrement(up), diff);
    }
    if diff != Misc.Easy {
      ClueCountInjective(Increment(down), diff);
    }
  }

  /** A level is determined by its clue count. */
  lemma ClueCountInjective(a: Misc.Difficulty, b: Misc.Difficulty)
    requires Misc.Clues(a) == Misc.Clues(b)
    ensures a == b
  {
  }

  /** One pass of the do-while body: KEY_DOWN applies ++, KEY_UP applies --, any other key nothing. */
  function Step(diff: Misc.Difficulty, code: int): Misc.Difficulty
  {
    var input := Uint16(code);
    if input == KeyDown then Increment(diff)
    else if input == KeyUp then Decrement(diff)
    else diff
  }

  /**
   * The selection loop from diff over the keys getch returns: the level
   * the loop leaves behind, and whether it ended (on KEY_ENTER) before the
   * keys ran out.
   */
  function Run(diff: Misc.Difficulty, keys: seq<int>): (Misc.Difficulty, bool)
    decreases |keys|
  {
    if |keys| == 0 then (diff, false)
    else
      var next := Step(diff, keys[0]);
      if Uint16(keys[0]) == Misc.KeyEnter then (next, true) else Run(next, keys[1..])
  }

  /** The loop ends exactly when some key is KEY_ENTER. */
  lemma {:induction false} RunEndsIffEnter(diff: Misc.Difficulty, keys: seq<int>)
    ensures Run(diff, keys).1 <==> exists i | 0 <= i < |keys| :: Uint16(keys[i]) == Misc.KeyEnter
    decreases |keys|
  {
    if |keys| > 0 {
      RunEndsIffEnter(Step(diff, keys[0]), keys[1..]);
      if exists i | 0 <= i < |keys[1..]| :: Uint16(keys[1..][i]) == Misc.KeyEnter {
        var i :| 0 <= i < |keys[1..]| && Uint16(keys[1..][i]) == Misc.KeyEnter;
        assert Uint16(keys[i + 1]) == Misc.KeyEnter;
      }
      if exists i | 0 <= i < |keys| :: Uint16(keys[i]) == Misc.KeyEnter {
        var i :| 0 <= i < |keys| && Uint16(keys[i]) == Misc.KeyEnter;
        if i > 0 {
          assert Uint16(keys[1..][i - 1]) == Misc.KeyEnter;
        }
      }
    }
  }

  /** Keys other than the arrow keys never change the level. */
  lemma {:induction false} RunIgnoresOtherKeys(diff: Misc.Difficulty, keys: seq<int>)
    requires forall i | 0 <= i < |keys| :: Uint16(keys[i]) != KeyDown && Uint16(keys[i]) != KeyUp
    ensures Run(diff, keys).0 == diff
  {
    if |keys| > 0 {
      RunIgnoresOtherKeys(diff, keys[1..]);
    }
  }

  /** k presses of KEY_DOWN then KEY_ENTER choose the level k steps harder than diff (at most EXPERT). */
  lemma {:induction false} DownPresses(diff: Misc.Difficulty, k: nat)
    ensures Run(diff, seq(k, _ => KeyDown) + [Misc.KeyEnter]) == (Iterate(diff, k), true)
    decreases k
  {
    var keys := seq(k, _ => KeyDown) + [Misc.KeyEnter];
    if k > 0 {
      assert keys[1..] == seq(k - 1, _ => KeyDown) + [Misc.KeyEnter];
      DownPresses(Increment(diff), k - 1);
      IterateShift(diff, k - 1);
    }
  }

  /** k steps of ++ from diff. */
  function Iterate(diff: Misc.Difficulty, k: nat): Misc.Difficulty
  {
    if k == 0 then diff else Increment(Iterate(diff, k - 1))
  }

  /** Taking the first step first gives the same level. */
  lemma {:induction false} IterateShift(diff: Misc.Difficulty, k: nat)
    ensures Iterate(Increment(diff), k) == Iterate(diff, k + 1)
  {
    if k > 0 {
      IterateShift(diff, k - 1);
    }
  }

  /** The DifficultyMenu object: the level the player chose last. */
  class DifficultyMenu {
    var diff: Misc.Difficulty

    /** The C++ constructor leaves diff unset; every menu() call sets it before reading it. */
    constructor ()
      ensures diff == Misc.Easy
    {
      diff := Misc.Easy;
    }

    /**
     * menu(): the level is reset to EASY, each key getch returns is stored
     * as a uint16_t, KEY_DOWN and KEY_UP change the level, the loop ends
     * after KEY_ENTER, and NONE is returned; None when the keys run out
     * before KEY_ENTER.
     */
    method Menu(keys: seq<int>) returns (r: Wrappers.Option<Options>)
      modifies this
      ensures diff == Run(Misc.Easy, keys).0
      ensures r.Some? <==> Run(Misc.Easy, keys).1
      ensures r.Some? ==> r.value == Options.None
    {
      diff := Misc.Easy;
      var i := 0;
      while i < |keys|
        invariant 0 <= i <= |keys|
        invariant Run(diff, keys[i..]) == Run(Misc.Easy, keys)
      {
        assert keys[i..][0] == keys[i] && keys[i..][1..] == keys[i + 1..];
        var input := Uint16(keys[i]);
        if input == KeyDown {
          diff := Increment(diff);
        } else if input == KeyUp {
          diff := Decrement(diff);
        }
        i := i + 1;
        if input == Misc.KeyEnter {
          return Wrappers.Some(Options.None);
        }
      }
      return Wrappers.None;
    }
  }
}
