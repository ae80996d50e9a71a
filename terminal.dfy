/**
 * The slice of the pancurses library that the terminal helpers consume:
 * what Window::getch can return, and the colour bits of a chtype cell.
 */
module Pancurses {
  /** pancurses::Input, with every variant the helpers do not name folded into Other. */
  datatype RawInput =
    | RawCharacter(ch: char)
    | RawKeyEnter
    | RawKeyUp
    | RawKeyDown
    | RawKeyLeft
    | RawKeyRight
    | RawKeyBackspace
    | RawKeyDC
    | RawOther(code: int)

  /** A chtype: a character, attribute and colour-pair cell of the screen. */
  type ChType = bv32

  /** A_COLOR: the eight colour-pair bits of a chtype, as ncurses lays them out. */
  const AColor: ChType := 0xFF00

  /** COLOR_PAIR(n): pair number n moved into the colour bits. */
  function ColorPairBits(n: int): (bits: ChType)
    requires 0 <= n < 256
    ensures bits & AColor == bits
  {
    (n as bv32) << 8
  }
}

/** The value types and pure translations of terminal.rs. */
module Terminal {
  import opened Pancurses
  import opened Wrappers
  import Misc

  type u8 = Misc.u8

  /** Cell(row, column): a cell of the terminal display. */
  datatype Cell = Cell(row: u8, col: u8)
  {
    function RowNo(): u8
    {
      row
    }

    function ColNo(): u8
    {
      col
    }

    /** The y-coordinate is the row number. */
    function Y(): u8
    {
      RowNo()
    }

    /** The x-coordinate is the column number. */
    function X(): u8
    {
      ColNo()
    }

    /** Cell::set: both coordinates are overwritten; nothing of the old cell survives. */
    function Set(r: u8, c: u8): (cell: Cell)
      ensures cell.RowNo() == r && cell.ColNo() == c
    {
      Cell(r, c)
    }
  }

  /** Cell::new, read back through the accessors. */
  lemma NewCellAccessors(r: u8, c: u8)
    ensures Cell(r, c).RowNo() == r && Cell(r, c).ColNo() == c
    ensures Cell(r, c).Y() == r && Cell(r, c).X() == c
  {
  }

  /** ORIGIN: top left cell of the puzzle display, also the top and left padding. */
  const Origin := Cell(3, 6)

  /** The input keys display::getch reports. */
  datatype Input =
    | Character(ch: char)
    | KeyEnter
    | KeyUp
    | KeyDown
    | KeyLeft
    | KeyRight
    | KeyBackspace
    | KeyDC

  /**
   * display::getch's translation of pancurses input: '\n', '\r' and
   * KeyEnter become KeyEnter, the named keys and other characters pass
   * through, and everything else is no input.
   */
  function TranslateKey(raw: Option<RawInput>): (key: Option<Input>)
    ensures key == Some(KeyEnter) <==>
      raw in {Some(RawCharacter('\n')), Some(RawCharacter('\r')), Some(RawKeyEnter)}
    ensures key == None <==> raw == None || raw.value.RawOther?
  {
    match raw
    case Some(RawCharacter('\n')) => Some(KeyEnter)
    case Some(RawCharacter('\r')) => Some(KeyEnter)
    case Some(RawKeyEnter) => Some(KeyEnter)
    case Some(RawCharacter(ch)) => Some(Character(ch))
    case Some(RawKeyUp) => Some(KeyUp)
    case Some(RawKeyDown) => Some(KeyDown)
    case Some(RawKeyLeft) => Some(KeyLeft)
    case Some(RawKeyRight) => Some(KeyRight)
    case Some(RawKeyBackspace) => Some(KeyBackspace)
    case Some(RawKeyDC) => Some(KeyDC)
    case _ => None
  }

  /** The pancurses input each display key stands for. */
  function RawKey(key: Input): RawInput
  {
    match key
    case Character(ch) => RawCharacter(ch)
    case KeyEnter => RawKeyEnter
    case KeyUp => RawKeyUp
    case KeyDown => RawKeyDown
    case KeyLeft => RawKeyLeft
    case KeyRight => RawKeyRight
    case KeyBackspace => RawKeyBackspace
    case KeyDC => RawKeyDC
  }

  /** Translation gives every display key back, except that '\n' and '\r' read as Enter. */
  lemma TranslateRawKey(key: Input)
    ensures key !in {Character('\n'), Character('\r')} ==> TranslateKey(Some(RawKey(key))) == Some(key)
    ensures key in {Character('\n'), Character('\r')} ==> TranslateKey(Some(RawKey(key))) == Some(KeyEnter)
  {
  }

  /** display::CursorVisibility. */
  datatype CursorVisibility = Invisible | Block

  /** curs_set's visibility level: 0 hides the cursor, 2 is the very visible block. */
  function CursorLevel(v: CursorVisibility): (level: int)
    ensures level == 0 <==> v == Invisible
    ensures level in {0, 2}
  {
    match v
    case Invisible => 0
    case Block => 2
  }

  /** display::ColorPair. */
  datatype ColorPair = Default | MenuSelection | Unknown | Given | CandidatesY | CandidatesB | Guess

  /** pair_code: the numeric colour pairs. */
  const DefaultCode := 1
  const MenuSelectionCode := 2
  const UnknownCode := 11
  const GivenCode := 12
  const CandidatesYCode := 13
  const CandidatesBCode := 14
  const GuessCode := 15

  /** The pair code color_set selects for each ColorPair. */
  function PairCode(p: ColorPair): (code: int)
    ensures code in {DefaultCode, MenuSelectionCode, UnknownCode, GivenCode, CandidatesYCode, CandidatesBCode, GuessCode}
  {
    match p
    case Default => DefaultCode
    case MenuSelection => MenuSelectionCode
    case Unknown => UnknownCode
    case Given => GivenCode
    case CandidatesY => CandidatesYCode
    case CandidatesB => CandidatesBCode
    case Guess => GuessCode
  }

  /** The seven pair codes are non-zero and pairwise different. */
  lemma PairCodesDistinct(p: ColorPair, q: ColorPair)
    ensures 0 < PairCode(p) < 256
    ensures PairCode(p) == PairCode(q) ==> p == q
  {
  }

  /** The colour-pair number held in the colour bits of a chtype. */
  function ColourBits(ch: ChType): (code: int)
    ensures 0 <= code < 256
  {
    ((ch & AColor) >> 8) as int
  }

  /**
   * decode_color_pair: the colour pair of a screen cell, Default for any
   * code that is not one of the six other pair codes.
   */
  function DecodeColorPair(ch: ChType): (p: ColorPair)
    ensures p != Default ==> PairCode(p) == ColourBits(ch)
    ensures p == Default <==>
      ColourBits(ch) !in {MenuSelectionCode, UnknownCode, GivenCode, CandidatesYCode, CandidatesBCode, GuessCode}
  {
    var code := ColourBits(ch);
    if code == MenuSelectionCode then MenuSelection
    else if code == UnknownCode then Unknown
    else if code == GivenCode then Given
    else if code == CandidatesYCode then CandidatesY
    else if code == CandidatesBCode then CandidatesB
    else if code == GuessCode then Guess
    else Default
  }

  /** Any cell coloured through color_set(p) decodes to p, whatever its character and other attributes. */
  lemma DecodeColorSet(p: ColorPair, ch: ChType)
    requires ch & AColor == ColorPairBits(PairCode(p))
    ensures DecodeColorPair(ch) == p
  {
    match p
    case Default => assert ch & AColor == 0x100;
    case MenuSelection => assert ch & AColor == 0x200;
    case Unknown => assert ch & AColor == 0xB00;
    case Given => assert ch & AColor == 0xC00;
    case CandidatesY => assert ch & AColor == 0xD00;
    case CandidatesB => assert ch & AColor == 0xE00;
    case Guess => assert ch & AColor == 0xF00;
  }

  /** A cell whose colour code is none of the six non-default pair codes decodes to Default. */
  lemma DecodeOtherCodes(ch: ChType)
    requires ColourBits(ch) !in {MenuSelectionCode, UnknownCode, GivenCode, CandidatesYCode, CandidatesBCode, GuessCode}
    ensures DecodeColorPair(ch) == Default
  {
  }

  /** The number of bytes the UTF-8 encoding of c takes. */
  function Utf8Width(c: char): (w: nat)
    ensures 1 <= w <= 4
    ensures w == 1 <==> (c as int) < 0x80
  {
    if (c as int) < 0x80 then 1
    else if (c as int) < 0x800 then 2
    else if (c as int) < 0x10000 then 3
    else 4
  }

  /** String::len: the length of s in UTF-8 bytes. */
  function Utf8Len(s: string): nat
    decreases |s|
  {
    if s == [] then 0 else Utf8Width(s[0]) + Utf8Len(s[1..])
  }

  /** Every character is a seven-bit ASCII character. */
  predicate IsAscii(s: string)
  {
    forall i | 0 <= i < |s| :: (s[i] as int) < 0x80
  }

  /** A string takes at least one byte per character, exactly one when it is ASCII. */
  lemma {:induction false} Utf8LenBounds(s: string)
    ensures |s| <= Utf8Len(s) <= 4 * |s|
    ensures Utf8Len(s) == |s| <==> IsAscii(s)
    decreases |s|
  {
    if s != [] {
      Utf8LenBounds(s[1..]);
      assert forall i | 1 <= i < |s| :: s[i] == s[1..][i - 1];
      if !IsAscii(s) && (s[0] as int) < 0x80 {
        var i :| 0 <= i < |s| && (s[i] as int) >= 0x80;
        assert s[1..][i - 1] == s[i];
      }
    }
  }

  /**
   * What getnstr's loop holds: the string and the counter that guards it.
   * The counter starts at the target's byte length and moves by one per
   * character pushed or popped, so it is not the string's character count.
   */
  datatype EditState = EditState(str: string, count: nat)

  /** One pass of getnstr's loop body over a key that does not end it. */
  function EditStep(e: EditState, key: Option<RawInput>, maxLen: nat): EditState
  {
    match key
    case Some(RawKeyBackspace) =>
      if e.count > 0 then EditState(if |e.str| > 0 then e.str[..|e.str| - 1] else e.str, e.count - 1) else e
    case Some(RawCharacter(c)) =>
      if e.count < maxLen then EditState(e.str + [c], e.count + 1) else e
    case _ => e
  }

  /** Whether getnstr's loop stops on key. */
  predicate EndsInput(key: Option<RawInput>)
  {
    key in {Some(RawKeyEnter), Some(RawCharacter('\n'))}
  }

  /**
   * The string getnstr leaves in target after reading keys from state e;
   * None when the keys run out before Enter.
   */
  function Edit(e: EditState, keys: seq<Option<RawInput>>, maxLen: nat): Option<string>
    decreases |keys|
  {
    if keys == [] then None
    else if EndsInput(keys[0]) then Some(e.str)
    else Edit(EditStep(e, keys[0], maxLen), keys[1..], maxLen)
  }

  /** The state getnstr's loop starts in: the target and its byte length. */
  function Start(target: string): EditState
  {
    EditState(target, Utf8Len(target))
  }

  /**
   * display::getnstr with the keys the user types as input: '\n' or Enter
   * ends the loop, Backspace pops the last character while the counter is
   * positive, a character is pushed while the counter is below maxLen, and
   * the rest is ignored.  None when the keys run out before the loop ends.
   */
  method GetNStr(target: string, maxLen: nat, keys: seq<Option<RawInput>>) returns (r: Option<string>)
    ensures r == Edit(Start(target), keys, maxLen)
  {
    var str := target;
    var count := Utf8Len(str);
    var i := 0;
    while i < |keys|
      invariant 0 <= i <= |keys|
      invariant Edit(EditState(str, count), keys[i..], maxLen) == Edit(Start(target), keys, maxLen)
    {
      var key := keys[i];
      assert keys[i..][1..] == keys[i + 1..];
      match key {
        case Some(RawKeyEnter) =>
          return Some(str);
        case Some(RawCharacter('\n')) =>
          return Some(str);
        case Some(RawKeyBackspace) =>
          if count > 0 {
            if |str| > 0 {
              str := str[..|str| - 1];
            }
            count := count - 1;
          }
        case Some(RawCharacter(c)) =>
          if count < maxLen {
            str := str + [c];
            count := count + 1;
          }
        case _ =>
      }
      i := i + 1;
    }
    return None;
  }

  /** The counter never falls below the number of characters held. */
  predicate CountCovers(e: EditState)
  {
    |e.str| <= e.count
  }

  /** Every step keeps the counter at or above the length, and keeps an ASCII string's counter equal to it. */
  lemma EditStepCovers(e: EditState, key: Option<RawInput>, maxLen: nat)
    requires CountCovers(e)
    ensures CountCovers(EditStep(e, key, maxLen))
    ensures e.count == |e.str| ==> EditStep(e, key, maxLen).count == |EditStep(e, key, maxLen).str|
  {
  }

  /** The length getnstr returns never exceeds the larger of the initial length and maxLen. */
  lemma {:induction false} EditLength(e: EditState, keys: seq<Option<RawInput>>, maxLen: nat)
    requires CountCovers(e) && Edit(e, keys, maxLen).Some?
    ensures |Edit(e, keys, maxLen).value| <= if |e.str| < maxLen then maxLen else |e.str|
    decreases |keys|
  {
    if !EndsInput(keys[0]) {
      var t := EditStep(e, keys[0], maxLen);
      EditStepCovers(e, keys[0], maxLen);
      EditLength(t, keys[1..], maxLen);
    }
  }

  /** getnstr's result holds at most the larger of the target's length and maxLen characters. */
  lemma GetNStrLength(target: string, keys: seq<Option<RawInput>>, maxLen: nat)
    requires Edit(Start(target), keys, maxLen).Some?
    ensures |Edit(Start(target), keys, maxLen).value| <= if |target| < maxLen then maxLen else |target|
  {
    Utf8LenBounds(target);
    EditLength(Start(target), keys, maxLen);
  }

  /** When the counter is already at maxLen or more, the string comes back whole if no Backspace is typed. */
  lemma {:induction false} EditNoTruncation(e: EditState, keys: seq<Option<RawInput>>, maxLen: nat)
    requires e.count >= maxLen && Some(RawKeyBackspace) !in keys
    ensures Edit(e, keys, maxLen) in {None, Some(e.str)}
    decreases |keys|
  {
    if keys != [] && !EndsInput(keys[0]) {
      assert keys[0] != Some(RawKeyBackspace);
      assert EditStep(e, keys[0], maxLen) == e;
      assert forall k | k in keys[1..] :: k in keys;
      EditNoTruncation(e, keys[1..], maxLen);
    }
  }

  /** A target of maxLen characters or more comes back whole from getnstr if no Backspace is typed. */
  lemma GetNStrNoTruncation(target: string, keys: seq<Option<RawInput>>, maxLen: nat)
    requires |target| >= maxLen && Some(RawKeyBackspace) !in keys
    ensures Edit(Start(target), keys, maxLen) in {None, Some(target)}
  {
    Utf8LenBounds(target);
    EditNoTruncation(Start(target), keys, maxLen);
  }

  /** The counter starts at the byte length: a two-character, four-byte target with maxLen 3 takes no more characters. */
  lemma GetNStrCountsBytes()
    ensures Edit(Start("\U{e9}\U{e9}"), [Some(RawCharacter('a')), Some(RawKeyEnter)], 3) == Some("\U{e9}\U{e9}")
  {
    assert Utf8Len("\U{e9}\U{e9}") == 4 by {
      assert "\U{e9}\U{e9}"[1..] == "\U{e9}";
      assert "\U{e9}"[1..] == "";
    }
    var e := EditStep(Start("\U{e9}\U{e9}"), Some(RawCharacter('a')), 3);
    assert e == Start("\U{e9}\U{e9}");
    assert [Some(RawCharacter('a')), Some(RawKeyEnter)][1..] == [Some(RawKeyEnter)];
  }

  /** getnstr as its documentation describes it: the input read is cut down to maxLen characters. */
  function EditTruncated(target: string, keys: seq<Option<RawInput>>, maxLen: nat): (r: Option<string>)
    ensures r.Some? ==> |r.value| <= maxLen
    ensures r.Some? <==> Edit(Start(target), keys, maxLen).Some?
  {
    match Edit(Start(target), keys, maxLen)
    case None => None
    case Some(t) => Some(if |t| > maxLen then t[..maxLen] else t)
  }

  /** The corrected loop: getnstr's loop, then the truncation its documentation promises. */
  method GetNStrTruncated(target: string, maxLen: nat, keys: seq<Option<RawInput>>) returns (r: Option<string>)
    ensures r == EditTruncated(target, keys, maxLen)
    ensures r.Some? ==> |r.value| <= maxLen
  {
    r := GetNStr(target, maxLen, keys);
    if r.Some? && |r.value| > maxLen {
      r := Some(r.value[..maxLen]);
    }
  }

  /** The discrepancy: a five-character target with maxLen 3 comes back with five characters on Enter. */
  lemma GetNStrKeepsLongTarget()
    ensures Edit(Start("abcde"), [Some(RawKeyEnter)], 3) == Some("abcde")
    ensures EditTruncated("abcde", [Some(RawKeyEnter)], 3) == Some("abc")
  {
    assert "abcde"[..3] == "abc";
  }
}
