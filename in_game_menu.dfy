/**
 * The in-game menu of the C++ game: the ++ and -- operators on its
 * options, the selection loop that ends on 'm' or 'M', and screen_reader,
 * the greedy word wrap that lays the rules and the manual out in lines.
 */
module InGameMenus {
  import Misc
  import Menus
  import Wrappers

  /** igm_options: the in-game menu's three entries and NONE. */
  datatype IgmOptions = Rules | Manual | SaveGame | None

  /** Where display_menu lists each entry (its opt_map), top to bottom. */
  function Index(opt: IgmOptions): (i: int)
    requires opt != None
    ensures 0 <= i < 3
  {
    match opt
    case Rules => 0
    case Manual => 1
    case SaveGame => 2
  }

  /** ++opt: one line down, stopping at SAVE_GAME; NONE goes to SAVE_GAME. */
  function Increment(opt: IgmOptions): (next: IgmOptions)
    ensures next != None
    ensures opt != None ==> Index(next) == Menus.Min(Index(opt) + 1, 2)
    ensures opt == None ==> next == SaveGame
  {
    if opt == Rules then Manual else SaveGame
  }

  /** --opt: one line up, stopping at RULES; NONE goes to RULES. */
  function Decrement(opt: IgmOptions): (next: IgmOptions)
    ensures next != None
    ensures opt != None ==> Index(next) == Menus.Max(Index(opt) - 1, 0)
    ensures opt == None ==> next == Rules
  {
    if opt == SaveGame then Manual else Rules
  }

  /** -- undoes ++ except at SAVE_GAME, and ++ undoes -- except at RULES. */
  lemma IncrementDecrement(opt: IgmOptions)
    ensures opt in {Rules, Manual} ==> Decrement(Increment(opt)) == opt
    ensures opt in {Manual, SaveGame} ==> Increment(Decrement(opt)) == opt
  {
    if opt in {Rules, Manual} {
      IndexInjective(Decrement(Increment(opt)), opt);
    }
    if opt in {Manual, SaveGame} {
      IndexInjective(Increment(Decrement(opt)), opt);
    }
  }

  /** An entry is determined by its line. */
  lemma IndexInjective(a: IgmOptions, b: IgmOptions)
    requires a != None && b != None && Index(a) == Index(b)
    ensures a == b
  {
  }

  /** tolower in the C locale. */
  function ToLower(c: int): (l: int)
    ensures 'A' as int <= c <= 'Z' as int ==> l == c + 32
    ensures !('A' as int <= c <= 'Z' as int) ==> l == c
  {
    if 'A' as int <= c <= 'Z' as int then c + ('a' as int - 'A' as int) else c
  }

  /** The key that leaves the in-game menu: 'm' or 'M'. */
  predicate IsMenuKey(code: int)
  {
    ToLower(Menus.Uint16(code)) == 'm' as int
  }

  /** The exit test accepts exactly the two letters. */
  lemma MenuKeys(code: int)
    requires 0 <= code < 0x1_0000
    ensures IsMenuKey(code) <==> code == 'm' as int || code == 'M' as int
  {
  }

  /** KEY_DOWN applies ++, KEY_UP applies --, any other key nothing. */
  function Step(opt: IgmOptions, code: int): IgmOptions
  {
    var input := Menus.Uint16(code);
    if input == Menus.KeyDown then Increment(opt)
    else if input == Menus.KeyUp then Decrement(opt)
    else opt
  }

  /** The page KEY_ENTER opens: the rules or the manual; saving is not implemented, so nothing. */
  function Pages(opt: IgmOptions, code: int): (pages: seq<IgmOptions>)
    ensures |pages| <= 1 && forall k | 0 <= k < |pages| :: pages[k] in {Rules, Manual}
  {
    if Menus.Uint16(code) == Misc.KeyEnter && opt in {Rules, Manual} then [opt] else []
  }

  /**
   * The selection loop from opt over the keys getch returns: the pages
   * displayed, in order, and whether the loop ended on the menu key
   * before the keys ran out.
   */
  function Run(opt: IgmOptions, keys: seq<int>): (seq<IgmOptions>, bool)
    decreases |keys|
  {
    if |keys| == 0 then ([], false)
    else
      var pages := Pages(opt, keys[0]);
      if IsMenuKey(keys[0]) then (pages, true)
      else
        var rest := Run(Step(opt, keys[0]), keys[1..]);
        (pages + rest.0, rest.1)
  }

  /** The loop ends exactly when some key is 'm' or 'M', and it only ever displays the rules or the manual. */
  lemma {:induction false} RunProperties(opt: IgmOptions, keys: seq<int>)
    ensures Run(opt, keys).1 <==> exists i | 0 <= i < |keys| :: IsMenuKey(keys[i])
    ensures forall k | 0 <= k < |Run(opt, keys).0| :: Run(opt, keys).0[k] in {Rules, Manual}
    decreases |keys|
  {
    if |keys| > 0 {
      RunProperties(Step(opt, keys[0]), keys[1..]);
      if exists i | 0 <= i < |keys[1..]| :: IsMenuKey(keys[1..][i]) {
        var i :| 0 <= i < |keys[1..]| && IsMenuKey(keys[1..][i]);
        assert IsMenuKey(keys[i + 1]);
      }
      if exists i | 0 <= i < |keys| :: IsMenuKey(keys[i]) {
        var i :| 0 <= i < |keys| && IsMenuKey(keys[i]);
        if i > 0 {
          assert IsMenuKey(keys[1..][i - 1]);
        }
      }
    }
  }

  /**
   * menu(): starting on RULES, KEY_DOWN and KEY_UP move the selection,
   * KEY_ENTER displays the selected page, the loop ends after 'm' or 'M'
   * and NONE is returned; None when the keys run out first.
   */
  method Menu(keys: seq<int>) returns (r: Wrappers.Option<IgmOptions>, shown: seq<IgmOptions>)
    ensures shown == Run(Rules, keys).0
    ensures r.Some? <==> Run(Rules, keys).1
    ensures r.Some? ==> r.value == None
  {
    var opt := Rules;
    shown := [];
    var i := 0;
    assert keys[0..] == keys && [] + Run(opt, keys).0 == Run(opt, keys).0;
    while i < |keys|
      invariant 0 <= i <= |keys|
      invariant Run(Rules, keys) == (shown + Run(opt, keys[i..]).0, Run(opt, keys[i..]).1)
    {
      assert keys[i..][0] == keys[i] && keys[i..][1..] == keys[i + 1..];
      ghost var pages, rest := Pages(opt, keys[i]), Run(Step(opt, keys[i]), keys[i + 1..]);
      assert Run(opt, keys[i..]) == if IsMenuKey(keys[i]) then (pages, true) else (pages + rest.0, rest.1);
      ghost var shown0, opt0 := shown, opt;
      var input := Menus.Uint16(keys[i]);
      if input == Menus.KeyDown {
        opt := Increment(opt);
      } else if input == Menus.KeyUp {
        opt := Decrement(opt);
      } else if input == Misc.KeyEnter {
        if opt == Rules {
          shown := shown + [Rules];
        } else if opt == Manual {
          shown := shown + [Manual];
        }
      }
      assert shown == shown0 + pages && opt == Step(opt0, keys[i]);
      if ToLower(input) == 'm' as int {
        return Wrappers.Some(None), shown;
      }
      assert shown + rest.0 == shown0 + (pages + rest.0);
      i := i + 1;
    }
    return Wrappers.None, shown;
  }

  // ---- screen_reader ----

  /** find_first_of(' '): the first space's index, or |s| for npos. */
  function FindSpace(s: string): (p: nat)
    ensures p <= |s|
    ensures p < |s| ==> s[p] == ' '
    ensures forall i | 0 <= i < p :: s[i] != ' '
  {
    if |s| == 0 then 0 else if s[0] == ' ' then 0 else 1 + FindSpace(s[1..])
  }

  /**
   * The bound screen_reader compares a line against:
   * IN_GAME_MENU_DISPLAY_SPACING - 3 is an int, converted to the unsigned
   * 64-bit size_t it is compared with.
   */
  function Limit(spacing: Misc.u8): (limit: int)
    ensures spacing >= 3 ==> limit == spacing - 3
    ensures spacing < 3 ==> limit >= 0x1_0000_0000_0000_0000 - 3
  {
    (spacing - 3) % 0x1_0000_0000_0000_0000
  }

  /**
   * Every word of s, with the space after it, fits on an empty line:
   * without this the loop prints empty lines for ever.
   */
  predicate Fits(s: string, limit: int)
    decreases |s|
  {
    var p := FindSpace(s);
    p == |s| || (p + 1 < limit && Fits(s[p + 1..], limit))
  }

  /**
   * What the loop of screen_reader does from the remaining text s with
   * display holding the line under construction: the lines it prints, in
   * order, and the text it leaves in display_str unprinted.
   */
  function Reader(s: string, display: string, limit: int): (out: (seq<string>, string))
    requires Fits(s, limit)
    decreases 2 * |s| + (if |display| == 0 then 0 else 1)
  {
    if |s| == 0 then ([], display)
    else
      var p := FindSpace(s);
      if p == |s| then ([display + s], "")
      else if |display| + p + 1 < limit then Reader(s[p + 1..], display + s[..p + 1], limit)
      else
        var rest := Reader(s, "", limit);
        ([display] + rest.0, rest.1)
  }

  /** A pass of the loop of screen_reader on text without a space prints the rest as the last line. */
  lemma ReaderLastWord(s: string, display: string, limit: int)
    requires Fits(s, limit) && |s| > 0 && FindSpace(s) == |s|
    ensures Reader(s, display, limit) == ([display + s], "")
  {
  }

  /** A pass whose word fits moves the word, with its space, onto the line under construction. */
  lemma ReaderWordFits(s: string, display: string, limit: int, p: nat)
    requires Fits(s, limit) && |s| > 0 && p == FindSpace(s) < |s| && |display| + p + 1 < limit
    ensures Fits(s[p + 1..], limit)
    ensures Reader(s, display, limit) == Reader(s[p + 1..], display + s[..p + 1], limit)
  {
  }

  /** A pass whose word does not fit prints the line under construction and starts an empty one. */
  lemma ReaderLineBreak(s: string, display: string, limit: int)
    requires Fits(s, limit) && |s| > 0 && FindSpace(s) < |s| && |display| + FindSpace(s) + 1 >= limit
    ensures Reader(s, display, limit) == ([display] + Reader(s, "", limit).0, Reader(s, "", limit).1)
  {
  }

  /** The lines printed so far followed by what Reader prints and leaves from there. */
  function Join(lines: seq<string>, out: (seq<string>, string)): (seq<string>, string)
  {
    (lines + out.0, out.1)
  }

  /** The loop's last pass, on a word without a space after it. */
  lemma JoinLastWord(lines: seq<string>, s: string, display: string, limit: int)
    requires Fits(s, limit) && |s| > 0 && FindSpace(s) == |s|
    ensures Join(lines, Reader(s, display, limit)) == Join(lines + [display + s], Reader("", "", limit))
  {
    ReaderLastWord(s, display, limit);
    assert lines + [display + s] + [] == lines + [display + s];
  }

  /** A pass whose word fits. */
  lemma JoinWordFits(lines: seq<string>, s: string, display: string, limit: int, p: nat)
    requires Fits(s, limit) && |s| > 0 && p == FindSpace(s) < |s| && |display| + p + 1 < limit
    ensures Fits(s[p + 1..], limit)
    ensures Join(lines, Reader(s, display, limit)) == Join(lines, Reader(s[p + 1..], display + s[..p + 1], limit))
  {
    ReaderWordFits(s, display, limit, p);
  }

  /** A pass whose word does not fit. */
  lemma JoinLineBreak(lines: seq<string>, s: string, display: string, limit: int)
    requires Fits(s, limit) && |s| > 0 && FindSpace(s) < |s| && |display| + FindSpace(s) + 1 >= limit
    ensures Join(lines, Reader(s, display, limit)) == Join(lines + [display], Reader(s, "", limit))
  {
    ReaderLineBreak(s, display, limit);
    assert lines + ([display] + Reader(s, "", limit).0) == lines + [display] + Reader(s, "", limit).0;
  }

  /** The lines, one after another. */
  function Concat(lines: seq<string>): string
  {
    if |lines| == 0 then "" else lines[0] + Concat(lines[1..])
  }

  /** The line in display_str is empty, or it ends with a space and is under the limit. */
  predicate LineUnderway(display: string, limit: int)
  {
    |display| == 0 || (|display| < limit && display[|display| - 1] == ' ')
  }

  /** A line printed because the next word did not fit: non-empty, under the limit, ending with a space. */
  predicate FullLine(line: string, limit: int)
  {
    0 < |line| < limit && line[|line| - 1] == ' '
  }

  /** Nothing is lost or reordered: the printed lines and the unprinted rest make up the text. */
  lemma {:induction false} ReaderConcat(s: string, display: string, limit: int)
    requires Fits(s, limit)
    ensures Concat(Reader(s, display, limit).0) + Reader(s, display, limit).1 == display + s
    decreases 2 * |s| + (if |display| == 0 then 0 else 1)
  {
    if |s| > 0 {
      var p := FindSpace(s);
      if p == |s| {
        ReaderLastWord(s, display, limit);
        assert Concat([display + s]) == display + s + Concat([]);
      } else if |display| + p + 1 < limit {
        ReaderWordFits(s, display, limit, p);
        ReaderConcat(s[p + 1..], display + s[..p + 1], limit);
        assert display + s[..p + 1] + s[p + 1..] == display + s;
      } else {
        ReaderLineBreak(s, display, limit);
        ReaderConcat(s, "", limit);
        var rest := Reader(s, "", limit);
        assert ([display] + rest.0)[1..] == rest.0;
        assert Concat([display] + rest.0) == display + Concat(rest.0);
        assert "" + s == s;
      }
    }
  }

  /** Every printed line but the last is a full line. */
  lemma {:induction false} ReaderFullLines(s: string, display: string, limit: int)
    requires Fits(s, limit) && LineUnderway(display, limit)
    ensures forall k | 0 <= k < |Reader(s, display, limit).0| - 1 :: FullLine(Reader(s, display, limit).0[k], limit)
    ensures Reader(s, display, limit).1 != "" ==>
      forall k | 0 <= k < |Reader(s, display, limit).0| :: FullLine(Reader(s, display, limit).0[k], limit)
    decreases 2 * |s| + (if |display| == 0 then 0 else 1)
  {
    if |s| > 0 {
      var p := FindSpace(s);
      if p == |s| {
        ReaderLastWord(s, display, limit);
      } else if |display| + p + 1 < limit {
        var next := display + s[..p + 1];
        assert next[|next| - 1] == s[p];
        ReaderWordFits(s, display, limit, p);
        ReaderFullLines(s[p + 1..], next, limit);
      } else {
        assert FullLine(display, limit) by {
          assert p + 1 < limit;
        }
        ReaderLineBreak(s, display, limit);
        ReaderFullLines(s, "", limit);
      }
    }
  }

  /** The text is non-empty and its last character is a space. */
  predicate EndsWithSpace(t: string)
  {
    |t| > 0 && t[|t| - 1] == ' '
  }

  /** Text is left unprinted exactly when the line under construction plus the rest ends with a space. */
  lemma {:induction false} ReaderPending(s: string, display: string, limit: int)
    requires Fits(s, limit) && LineUnderway(display, limit)
    ensures Reader(s, display, limit).1 != "" <==> EndsWithSpace(display + s)
    decreases 2 * |s| + (if |display| == 0 then 0 else 1)
  {
    if |s| > 0 {
      var p := FindSpace(s);
      assert EndsWithSpace(display + s) <==> EndsWithSpace(s) by {
        assert (display + s)[|display + s| - 1] == s[|s| - 1];
      }
      if p == |s| {
        ReaderLastWord(s, display, limit);
      } else if |display| + p + 1 < limit {
        var next := display + s[..p + 1];
        assert LineUnderway(next, limit) by {
          assert next[|next| - 1] == s[p];
        }
        ReaderWordFits(s, display, limit, p);
        ReaderPending(s[p + 1..], next, limit);
        assert next + s[p + 1..] == display + s;
      } else {
        ReaderLineBreak(s, display, limit);
        ReaderPending(s, "", limit);
        assert "" + s == s;
      }
    } else {
      assert display + s == display;
    }
  }

  /**
   * As written, screen_reader drops the words after the last line it
   * prints whenever the text ends with a space: the lines it prints are
   * then strictly shorter than the text.
   */
  lemma ScreenReaderDropsTrailingText(s: string, limit: int)
    requires Fits(s, limit) && |s| > 0 && s[|s| - 1] == ' '
    ensures |Concat(Reader(s, "", limit).0)| < |s|
  {
    assert "" + s == s;
    var out := Reader(s, "", limit);
    ReaderConcat(s, "", limit);
    ReaderPending(s, "", limit);
    assert EndsWithSpace("" + s);
    assert |Concat(out.0)| + |out.1| == |s|;
  }

  /** "a " at the default spacing: nothing at all is printed. */
  lemma ScreenReaderPrintsNothingForOneWord()
    ensures Fits("a ", Limit(Menus.DefaultInGameMenuDisplaySpacing))
    ensures Reader("a ", "", Limit(Menus.DefaultInGameMenuDisplaySpacing)) == ([], "a ")
  {
    var limit := Limit(Menus.DefaultInGameMenuDisplaySpacing);
    assert FindSpace("a ") == 1;
    assert "a "[2..] == "";
    assert "a "[..2] == "a " && "" + "a " == "a ";
    assert limit == 77;
    assert Fits("", limit);
    assert Reader("a ", "", limit) == Reader("", "a ", limit);
    assert Reader("", "a ", limit) == ([], "a ");
  }

  /** The lines screen_reader evidently means to print: the loop's lines, then whatever display_str still holds. */
  function WrappedLines(s: string, limit: int): (lines: seq<string>)
    requires Fits(s, limit)
    ensures Concat(lines) == s
    ensures forall k | 0 <= k < |lines| - 1 :: FullLine(lines[k], limit)
  {
    var out := Reader(s, "", limit);
    ReaderConcat(s, "", limit);
    ReaderFullLines(s, "", limit);
    assert "" + s == s;
    if out.1 == "" then
      assert out.0 + [] == out.0;
      out.0
    else
      ConcatSnoc(out.0, out.1);
      out.0 + [out.1]
  }

  /** Appending a line appends its text. */
  lemma {:induction false} ConcatSnoc(lines: seq<string>, line: string)
    ensures Concat(lines + [line]) == Concat(lines) + line
  {
    if |lines| > 0 {
      assert (lines + [line])[1..] == lines[1..] + [line];
      ConcatSnoc(lines[1..], line);
    } else {
      assert lines + [line] == [line];
    }
  }

  /** display_offset after k increments: a uint8_t, so it wraps around at 256. */
  function Offset(displayOffset: Misc.u8, k: nat): Misc.u8
  {
    (displayOffset + k) % 0x100
  }

  /** The screen line of the k-th line printed from display_offset. */
  function ScreenLine(yEdge: Misc.u8, displayOffset: Misc.u8, k: nat): int
  {
    yEdge + 1 + Offset(displayOffset, k)
  }

  /** The calls to mvprintw that print lines from display_offset on, as (screen line, text) pairs. */
  function Printed(yEdge: Misc.u8, displayOffset: Misc.u8, lines: seq<string>): (printed: seq<(int, string)>)
    ensures |printed| == |lines|
    ensures forall k | 0 <= k < |lines| :: printed[k] == (ScreenLine(yEdge, displayOffset, k), lines[k])
  {
    seq(|lines|, k requires 0 <= k < |lines| => (ScreenLine(yEdge, displayOffset, k), lines[k]))
  }

  /**
   * Printing one more line: it goes to the line display_offset names, and
   * display_offset++ wraps around at 256.
   */
  lemma PrintedSnoc(yEdge: Misc.u8, displayOffset: Misc.u8, lines: seq<string>, line: string, offset: Misc.u8)
    requires offset == Offset(displayOffset, |lines|)
    ensures Printed(yEdge, displayOffset, lines) + [(yEdge + 1 + offset, line)] == Printed(yEdge, displayOffset, lines + [line])
    ensures (offset + 1) % 0x100 == Offset(displayOffset, |lines + [line]|)
  {
    assert yEdge + 1 + offset == ScreenLine(yEdge, displayOffset, |lines|);
  }

  /**
   * screen_reader as written: prints, from display_offset on, the lines
   * of Reader, and leaves display_offset advanced by their number.  The
   * screen column, X_EDGE, is the same for every line.
   */
  method ScreenReader(yEdge: Misc.u8, s: string, spacing: Misc.u8, displayOffset: Misc.u8)
    returns (printed: seq<(int, string)>, newOffset: Misc.u8)
    requires Fits(s, Limit(spacing))
    ensures printed == Printed(yEdge, displayOffset, Reader(s, "", Limit(spacing)).0)
    ensures newOffset == Offset(displayOffset, |printed|)
  {
    var limit := Limit(spacing);
    var str, display := s, "";
    ghost var pending := "";
    ghost var lines: seq<string> := [];
    ghost var whole := Reader(s, "", limit);
    printed, newOffset := [], displayOffset;
    assert [] + whole.0 == whole.0;
    assert Join(lines, Reader(str, pending, limit)) == whole;
    while |str| != 0
      invariant Fits(str, limit)
      invariant |str| > 0 ==> pending == display
      invariant whole == Join(lines, Reader(str, pending, limit))
      invariant printed == Printed(yEdge, displayOffset, lines)
      invariant newOffset == Offset(displayOffset, |lines|)
      decreases 2 * |str| + (if |display| == 0 then 0 else 1)
    {
      var spacePos := FindSpace(str);
      if spacePos == |str| {
        JoinLastWord(lines, str, display, limit);
        display := display + str;
        str := "";
        PrintedSnoc(yEdge, displayOffset, lines, display, newOffset);
        printed, lines := printed + [(yEdge + 1 + newOffset, display)], lines + [display];
        newOffset := (newOffset + 1) % 0x100;
        pending := "";
      } else if |display| + spacePos + 1 < limit {
        JoinWordFits(lines, str, display, limit, spacePos);
        display := display + str[..spacePos + 1];
        str := str[spacePos + 1..];
        pending := display;
      } else {
        JoinLineBreak(lines, str, display, limit);
        PrintedSnoc(yEdge, displayOffset, lines, display, newOffset);
        printed, lines := printed + [(yEdge + 1 + newOffset, display)], lines + [display];
        newOffset := (newOffset + 1) % 0x100;
        display := "";
        pending := "";
      }
    }
    assert Reader(str, pending, limit) == ([], pending);
    assert lines + [] == lines;
  }

  /**
   * The loop of screen_reader with display_str cleared once the last word
   * is printed: the lines of Reader, and display_str left holding the text
   * Reader leaves unprinted.
   */
  method ReaderLoop(yEdge: Misc.u8, s: string, limit: int, displayOffset: Misc.u8)
    returns (printed: seq<(int, string)>, newOffset: Misc.u8, display: string)
    requires Fits(s, limit)
    ensures printed == Printed(yEdge, displayOffset, Reader(s, "", limit).0)
    ensures newOffset == Offset(displayOffset, |printed|)
    ensures display == Reader(s, "", limit).1
  {
    var str := s;
    display := "";
    ghost var lines: seq<string> := [];
    ghost var whole := Reader(s, "", limit);
    printed, newOffset := [], displayOffset;
    assert [] + whole.0 == whole.0;
    assert Join(lines, Reader(str, display, limit)) == whole;
    while |str| != 0
      invariant Fits(str, limit)
      invariant whole == Join(lines, Reader(str, display, limit))
      invariant printed == Printed(yEdge, displayOffset, lines)
      invariant newOffset == Offset(displayOffset, |lines|)
      decreases 2 * |str| + (if |display| == 0 then 0 else 1)
    {
      var spacePos := FindSpace(str);
      if spacePos == |str| {
        JoinLastWord(lines, str, display, limit);
        display := display + str;
        str := "";
        PrintedSnoc(yEdge, displayOffset, lines, display, newOffset);
        printed, lines := printed + [(yEdge + 1 + newOffset, display)], lines + [display];
        newOffset := (newOffset + 1) % 0x100;
        display := "";
      } else if |display| + spacePos + 1 < limit {
        JoinWordFits(lines, str, display, limit, spacePos);
        display := display + str[..spacePos + 1];
        str := str[spacePos + 1..];
      } else {
        JoinLineBreak(lines, str, display, limit);
        PrintedSnoc(yEdge, displayOffset, lines, display, newOffset);
        printed, lines := printed + [(yEdge + 1 + newOffset, display)], lines + [display];
        newOffset := (newOffset + 1) % 0x100;
        display := "";
      }
    }
    assert Reader(str, display, limit) == ([], display);
    assert lines + [] == lines;
  }

  /**
   * screen_reader as evidently intended: the same loop, and afterwards
   * display_str is printed when the loop left text in it.  All of the text
   * is printed, and every line but the last is a full line.
   */
  method ScreenReaderFlushed(yEdge: Misc.u8, s: string, spacing: Misc.u8, displayOffset: Misc.u8)
    returns (printed: seq<(int, string)>, newOffset: Misc.u8)
    requires Fits(s, Limit(spacing))
    ensures printed == Printed(yEdge, displayOffset, WrappedLines(s, Limit(spacing)))
    ensures newOffset == Offset(displayOffset, |printed|)
  {
    var limit := Limit(spacing);
    var display;
    printed, newOffset, display := ReaderLoop(yEdge, s, limit, displayOffset);
    ghost var lines := Reader(s, "", limit).0;
    if |display| != 0 {
      PrintedSnoc(yEdge, displayOffset, lines, display, newOffset);
      printed := printed + [(yEdge + 1 + newOffset, display)];
      newOffset := (newOffset + 1) % 0x100;
    }
  }
}
