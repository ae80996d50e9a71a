/**
 * The text format of a saved game (the csv module of the Rust game): each
 * display-matrix row is written as its items' text joined by commas and
 * ended by a newline; the colour file is read back by dropping the commas,
 * the number file by splitting into lines and fields and parsing each
 * field as a u8.  A file's contents are a string whose characters stand for
 * its bytes (the game writes ASCII only).
 */
module Csv {
  import opened Wrappers
  import Misc

  type u8 = Misc.u8

  const Comma := ','
  const Newline := '\n'
  /** '\n' as u8: what the number reader appends after each line. */
  const NewlineByte: u8 := 10

  /** Vec::join: the items with sep between neighbours. */
  function Join(items: seq<string>, sep: char): string
  {
    if |items| == 0 then ""
    else if |items| == 1 then items[0]
    else items[0] + [sep] + Join(items[1..], sep)
  }

  /** str::split on a single character: the maximal pieces between separators, empty pieces included. */
  function Split(s: string, sep: char): (parts: seq<string>)
    ensures |parts| >= 1
    ensures forall i | 0 <= i < |parts| :: sep !in parts[i]
  {
    if |s| == 0 then [""]
    else
      var rest := Split(s[1..], sep);
      if s[0] == sep then [""] + rest else [[s[0]] + rest[0]] + rest[1..]
  }

  /** Joining the pieces of a split gives back the string. */
  lemma {:induction false} JoinSplit(s: string, sep: char)
    ensures Join(Split(s, sep), sep) == s
  {
    if |s| > 0 {
      var rest := Split(s[1..], sep);
      JoinSplit(s[1..], sep);
      if s[0] != sep {
        var parts := Split(s, sep);
        assert parts[1..] == rest[1..];
        if |rest| > 1 {
          assert Join(rest, sep) == rest[0] + [sep] + Join(rest[1..], sep);
        }
      }
    }
  }

  /** Splitting a join of separator-free pieces gives back the pieces. */
  lemma {:induction false} SplitJoin(parts: seq<string>, sep: char)
    requires |parts| >= 1
    requires forall i | 0 <= i < |parts| :: sep !in parts[i]
    ensures Split(Join(parts, sep), sep) == parts
  {
    if |parts| == 1 {
      SplitFree(parts[0], sep);
    } else {
      SplitJoin(parts[1..], sep);
      SplitPrefix(parts[0], sep, Join(parts[1..], sep));
      assert Join(parts, sep) == parts[0] + ([sep] + Join(parts[1..], sep));
    }
  }

  /** A separator-free string splits into itself. */
  lemma {:induction false} SplitFree(s: string, sep: char)
    requires sep !in s
    ensures Split(s, sep) == [s]
  {
    if |s| > 0 {
      SplitFree(s[1..], sep);
      assert [s[0]] + s[1..] == s;
    }
  }

  /** A separator-free head followed by a separator splits off as the first piece. */
  lemma {:induction false} SplitPrefix(head: string, sep: char, tail: string)
    requires sep !in head
    ensures Split(head + ([sep] + tail), sep) == [head] + Split(tail, sep)
  {
    if |head| > 0 {
      SplitPrefix(head[1..], sep, tail);
      var whole := head + ([sep] + tail);
      assert whole[0] == head[0] && whole[1..] == head[1..] + ([sep] + tail);
      assert [head[0]] + head[1..] == head;
    } else {
      assert head + ([sep] + tail) == [sep] + tail;
      assert ([sep] + tail)[1..] == tail;
    }
  }

  /** Each item's text, in order: the map(to_string) of write. */
  function Shown<T>(row: seq<T>, show: T -> string): (items: seq<string>)
    ensures |items| == |row|
  {
    seq(|row|, i requires 0 <= i < |row| => show(row[i]))
  }

  /** The text of one row as write emits it, without its newline. */
  function RowText<T>(row: seq<T>, show: T -> string): string
  {
    Join(Shown(row, show), Comma)
  }

  /** Everything write emits for data: each row's text followed by a newline. */
  function Text<T>(data: seq<seq<T>>, show: T -> string): string
  {
    if |data| == 0 then "" else RowText(data[0], show) + [Newline] + Text(data[1..], show)
  }

  /** The rows' items each followed by the end marker, concatenated. */
  function Terminated<T>(rows: seq<seq<T>>, end: T): seq<T>
  {
    if |rows| == 0 then [] else rows[0] + [end] + Terminated(rows[1..], end)
  }

  /** Extending the rows by one extends the output by that row's text and newline. */
  lemma {:induction false} TextSnoc<T>(data: seq<seq<T>>, row: seq<T>, show: T -> string)
    ensures Text(data + [row], show) == Text(data, show) + RowText(row, show) + [Newline]
  {
    if |data| > 0 {
      assert (data + [row])[1..] == data[1..] + [row];
      TextSnoc(data[1..], row, show);
    } else {
      assert (data + [row])[1..] == [];
    }
  }

  /**
   * csv::write with the file modelled as the text it ends up holding: for
   * each row, the items' to_string joined by ',' and then "\n".  Every row
   * has DISPLAY_MATRIX_ROWS items, as its array type demands.
   */
  method Write<T>(data: seq<seq<T>>, show: T -> string) returns (file: string)
    requires forall k | 0 <= k < |data| :: |data[k]| == Misc.DisplayMatrixRows
    ensures file == Text(data, show)
  {
    file := "";
    for k := 0 to |data|
      invariant file == Text(data[..k], show)
    {
      var d := RowText(data[k], show);
      file := file + d;
      file := file + [Newline];
      TextSnoc(data[..k], data[k], show);
      assert data[..k + 1] == data[..k] + [data[k]];
    }
    assert data[..|data|] == data;
  }

  /** The number of sep characters in a join of items is the separators plus those inside the items. */
  lemma {:induction false} JoinCount(items: seq<string>, sep: char)
    requires |items| >= 1
    ensures multiset(Join(items, sep))[sep] == |items| - 1 + ItemsCount(items, sep)
  {
    if |items| > 1 {
      JoinCount(items[1..], sep);
    }
  }

  /** How many times c occurs across all items. */
  function ItemsCount(items: seq<string>, c: char): nat
  {
    if |items| == 0 then 0 else multiset(items[0])[c] + ItemsCount(items[1..], c)
  }

  /** No item contains c. */
  lemma {:induction false} FreeItemsCount(items: seq<string>, c: char)
    requires forall i | 0 <= i < |items| :: c !in items[i]
    ensures ItemsCount(items, c) == 0
  {
    if |items| > 0 {
      FreeItemsCount(items[1..], c);
    }
  }

  /**
   * When no item's text holds a comma, each line write emits for a
   * 27-item row has exactly 26 commas.
   */
  lemma RowCommas<T>(row: seq<T>, show: T -> string)
    requires |row| == Misc.DisplayMatrixRows
    requires forall i | 0 <= i < |row| :: Comma !in show(row[i])
    ensures multiset(RowText(row, show))[Comma] == Misc.DisplayMatrixRows - 1
  {
    var items := Shown(row, show);
    JoinCount(items, Comma);
    FreeItemsCount(items, Comma);
  }

  /** The lines of write's text: one per row. */
  function Lines<T>(data: seq<seq<T>>, show: T -> string): (lines: seq<string>)
    ensures |lines| == |data|
  {
    seq(|data|, k requires 0 <= k < |data| => RowText(data[k], show))
  }

  /** write's text is its lines joined by newlines, with a final empty piece after the last newline. */
  lemma {:induction false} TextIsJoin<T>(data: seq<seq<T>>, show: T -> string)
    ensures Text(data, show) == Join(Lines(data, show) + [""], Newline)
  {
    if |data| > 0 {
      TextIsJoin(data[1..], show);
      var lines := Lines(data, show);
      assert (lines + [""])[1..] == Lines(data[1..], show) + [""];
    } else {
      assert Lines(data, show) + [""] == [""];
    }
  }

  /** A row's text holds no newline when no item's text does. */
  lemma {:induction false} JoinFree(items: seq<string>, sep: char, c: char)
    requires c != sep
    requires forall i | 0 <= i < |items| :: c !in items[i]
    ensures c !in Join(items, sep)
  {
    if |items| > 1 {
      JoinFree(items[1..], sep, c);
    }
  }

  /**
   * When no item's text holds a newline, splitting write's text on '\n'
   * gives exactly one line per row, in order, then the empty remainder.
   */
  lemma WriteLines<T>(data: seq<seq<T>>, show: T -> string)
    requires forall k, i | 0 <= k < |data| && 0 <= i < |data[k]| :: Newline !in show(data[k][i])
    ensures Split(Text(data, show), Newline) == Lines(data, show) + [""]
    ensures multiset(Text(data, show))[Newline] == |data|
  {
    var lines := Lines(data, show) + [""];
    forall k | 0 <= k < |lines| ensures Newline !in lines[k] {
      if k < |data| {
        JoinFree(Shown(data[k], show), Comma, Newline);
      }
    }
    TextIsJoin(data, show);
    SplitJoin(lines, Newline);
    JoinCount(lines, Newline);
    FreeItemsCount(lines, Newline);
  }

  // ---- The colour branch of read ----

  /** Vec::retain(|&b| b != ','): the bytes with every comma dropped. */
  function StripCommas(bytes: string): (kept: string)
    ensures Comma !in kept
  {
    if |bytes| == 0 then ""
    else (if bytes[0] == Comma then "" else [bytes[0]]) + StripCommas(bytes[1..])
  }

  /** retain keeps every other byte as often as it occurs, and so shortens the data by the number of commas. */
  lemma {:induction false} StripCommasCounts(bytes: string)
    ensures |StripCommas(bytes)| == |bytes| - multiset(bytes)[Comma]
    ensures forall c | c != Comma :: multiset(StripCommas(bytes))[c] == multiset(bytes)[c]
  {
    if |bytes| > 0 {
      StripCommasCounts(bytes[1..]);
      assert bytes == [bytes[0]] + bytes[1..];
    }
  }

  /** Dropping commas from a concatenation drops them from each part. */
  lemma {:induction false} StripAppend(a: string, b: string)
    ensures StripCommas(a + b) == StripCommas(a) + StripCommas(b)
  {
    if |a| > 0 {
      assert (a + b)[1..] == a[1..] + b;
      StripAppend(a[1..], b);
    } else {
      assert a + b == b;
    }
  }

  /** to_string of a colour-code char. */
  function ShowChar(c: char): string
  {
    [c]
  }

  /** The commas write puts into a row of comma-free colour codes are exactly what retain drops. */
  lemma {:induction false} StripRow(row: string)
    requires Comma !in row
    ensures StripCommas(RowText(row, ShowChar)) == row
  {
    var items := Shown(row, ShowChar);
    if |row| > 1 {
      StripRow(row[1..]);
      assert items[0] == ShowChar(row[0]);
      assert items[1..] == Shown(row[1..], ShowChar);
      var rest := Join(items[1..], Comma);
      assert RowText(row, ShowChar) == [row[0]] + ([Comma] + rest);
      StripAppend([row[0]], [Comma] + rest);
      StripAppend([Comma], rest);
      assert StripCommas([row[0]]) == [row[0]];
      assert StripCommas([Comma]) == [];
      assert [row[0]] + row[1..] == row;
    } else if |row| == 1 {
      assert items[0] == ShowChar(row[0]);
      assert StripCommas([row[0]]) == [row[0]];
      assert [row[0]] == row;
    }
  }

  /**
   * Reading back a colour file: dropping the commas from what write emits
   * for comma-free colour rows gives each row followed by '\n'.
   */
  lemma {:induction false} ColoursRoundTrip(rows: seq<string>)
    requires forall k | 0 <= k < |rows| :: Comma !in rows[k]
    ensures StripCommas(Text(rows, ShowChar)) == Terminated(rows, Newline)
  {
    if |rows| > 0 {
      ColoursRoundTrip(rows[1..]);
      StripRow(rows[0]);
      StripAppend(RowText(rows[0], ShowChar) + [Newline], Text(rows[1..], ShowChar));
      StripAppend(RowText(rows[0], ShowChar), [Newline]);
    }
  }

  // ---- The number branch of read ----

  predicate IsDecimalDigit(c: char)
  {
    '0' <= c <= '9'
  }

  /** The value of a string of decimal digits. */
  function DigitsValue(s: string): nat
    requires forall i | 0 <= i < |s| :: IsDecimalDigit(s[i])
  {
    if |s| == 0 then 0
    else
      assert IsDecimalDigit(s[|s| - 1]);
      10 * DigitsValue(s[..|s| - 1]) + (s[|s| - 1] as int - '0' as int)
  }

  /**
   * str::parse::<u8>: an optional '+', then at least one decimal digit,
   * with a value no larger than 255; anything else fails.
   */
  function ParseU8(s: string): (r: Option<u8>)
    ensures r.Some? ==> |s| > 0
    ensures r.Some? && IsDecimalDigit(s[0]) ==> forall i | 0 <= i < |s| :: IsDecimalDigit(s[i])
  {
    if |s| == 0 then None
    else
      var digits := if s[0] == '+' then s[1..] else s;
      if |digits| == 0 then None
      else if exists i | 0 <= i < |digits| :: !IsDecimalDigit(digits[i]) then None
      else if DigitsValue(digits) > 255 then None
      else Some(DigitsValue(digits))
  }

  /** u8's to_string: its decimal digits, without leading zeros. */
  function Decimal(n: u8): (s: string)
    ensures 0 < |s| <= 3
    ensures forall i | 0 <= i < |s| :: IsDecimalDigit(s[i])
    ensures DigitsValue(s) == n
  {
    var last := ['0' + (n % 10) as char];
    if n < 10 then last
    else
      var init := Decimal(n / 10);
      assert (init + last)[..|init + last| - 1] == init;
      init + last
  }

  /** Parsing inverts u8's to_string. */
  lemma ParseDecimal(n: u8)
    ensures ParseU8(Decimal(n)) == Some(n)
  {
  }

  /** Parsing every field, stopping at the first that fails: the map(parse).collect() with expect. */
  function ParseFields(fields: seq<string>): (r: Option<seq<u8>>)
    ensures r.Some? ==> |r.value| == |fields|
    ensures r.Some? ==> forall i | 0 <= i < |fields| :: ParseU8(fields[i]) == Some(r.value[i])
  {
    if |fields| == 0 then Some([])
    else
      match ParseU8(fields[0])
      case None => None
      case Some(v) =>
        match ParseFields(fields[1..])
        case None => None
        case Some(vs) => Some([v] + vs)
  }

  /** A field that does not parse makes the whole line fail. */
  lemma {:induction false} ParseFieldsFails(fields: seq<string>, i: int)
    requires 0 <= i < |fields| && ParseU8(fields[i]).None?
    ensures ParseFields(fields) == None
  {
    if i > 0 {
      ParseFieldsFails(fields[1..], i - 1);
    }
  }

  /** The numbers of one non-empty line: its comma-separated fields parsed. */
  function ParseLine(line: string): Option<seq<u8>>
  {
    ParseFields(Split(line, Comma))
  }

  /**
   * What the number branch builds from the lines it has met so far:
   * empty lines are skipped, every other line contributes its numbers then
   * byte 10; None once some field has failed to parse.
   */
  function Numbers(lines: seq<string>): Option<seq<u8>>
  {
    if |lines| == 0 then Some([])
    else
      match Numbers(lines[..|lines| - 1])
      case None => None
      case Some(data) =>
        var line := lines[|lines| - 1];
        if |line| == 0 then Some(data)
        else
          match ParseLine(line)
          case None => None
          case Some(values) => Some(data + values + [NewlineByte])
  }

  /**
   * The number branch of csv::read on the file's text: for each line of
   * text.split('\n') that is not empty, parse its fields and append them
   * and byte 10.  None stands for the panic of expect on a field that is
   * not a u8.
   */
  method ReadNumbers(text: string) returns (data: Option<seq<u8>>)
    ensures data == Numbers(Split(text, Newline))
  {
    var lines := Split(text, Newline);
    var acc: seq<u8> := [];
    var k := 0;
    while k < |lines|
      invariant 0 <= k <= |lines|
      invariant Numbers(lines[..k]) == Some(acc)
    {
      assert lines[..k + 1][..k] == lines[..k];
      var line := lines[k];
      if |line| != 0 {
        var parsed := ParseLine(line);
        if parsed.None? {
          NumbersFailed(lines, k + 1);
          return None;
        }
        acc := acc + parsed.value + [NewlineByte];
      }
      k := k + 1;
    }
    assert lines[..|lines|] == lines;
    return Some(acc);
  }

  /** Once a prefix of the lines has failed, every longer prefix fails too. */
  lemma {:induction false} NumbersFailed(lines: seq<string>, k: int)
    requires 0 <= k <= |lines| && Numbers(lines[..k]) == None
    ensures Numbers(lines) == None
    decreases |lines| - k
  {
    if k < |lines| {
      assert lines[..k + 1][..k] == lines[..k];
      NumbersFailed(lines, k + 1);
    } else {
      assert lines[..k] == lines;
    }
  }

  /** The rows' text parses back into the rows' numbers. */
  lemma {:induction false} ParseRow(row: seq<u8>)
    ensures ParseFields(Shown(row, Decimal)) == Some(row)
  {
    if |row| > 0 {
      ParseRow(row[1..]);
      assert Shown(row, Decimal)[1..] == Shown(row[1..], Decimal);
      assert Shown(row, Decimal)[0] == Decimal(row[0]);
      ParseDecimal(row[0]);
      assert [row[0]] + row[1..] == row;
    }
  }

  /** One row's line parses back into the row. */
  lemma RowRoundTrip(row: seq<u8>)
    requires |row| > 0
    ensures |RowText(row, Decimal)| > 0
    ensures ParseLine(RowText(row, Decimal)) == Some(row)
  {
    var items := Shown(row, Decimal);
    forall i | 0 <= i < |items| ensures Comma !in items[i] {
      assert forall j | 0 <= j < |items[i]| :: IsDecimalDigit(items[i][j]);
    }
    SplitJoin(items, Comma);
    ParseRow(row);
    JoinNonEmpty(items, Comma);
  }

  /** A join whose first item is non-empty is non-empty. */
  lemma JoinNonEmpty(items: seq<string>, sep: char)
    requires |items| > 0 && |items[0]| > 0
    ensures |Join(items, sep)| > 0
  {
  }

  /** The rows' lines, in order, parse into the rows each followed by byte 10. */
  lemma {:induction false} NumbersOfLines(rows: seq<seq<u8>>)
    requires forall k | 0 <= k < |rows| :: |rows[k]| > 0
    ensures Numbers(Lines(rows, Decimal)) == Some(Terminated(rows, NewlineByte))
  {
    if |rows| > 0 {
      var init, last := rows[..|rows| - 1], rows[|rows| - 1];
      NumbersOfLines(init);
      assert Lines(rows, Decimal)[..|rows| - 1] == Lines(init, Decimal);
      RowRoundTrip(last);
      TerminatedSnoc(init, last, NewlineByte);
      assert init + [last] == rows;
    }
  }

  /** Extending the rows by one extends their concatenation by that row and the end marker. */
  lemma {:induction false} TerminatedSnoc<T>(rows: seq<seq<T>>, row: seq<T>, end: T)
    ensures Terminated(rows + [row], end) == Terminated(rows, end) + row + [end]
  {
    if |rows| > 0 {
      assert (rows + [row])[1..] == rows[1..] + [row];
      TerminatedSnoc(rows[1..], row, end);
    } else {
      assert (rows + [row])[1..] == [];
    }
  }

  /**
   * Reading back a number file: the number branch of read, applied to
   * what write emits for rows of u8, yields each row followed by byte 10.
   */
  lemma NumbersRoundTrip(rows: seq<seq<u8>>)
    requires forall k | 0 <= k < |rows| :: |rows[k]| == Misc.DisplayMatrixRows
    ensures Numbers(Split(Text(rows, Decimal), Newline)) == Some(Terminated(rows, NewlineByte))
  {
    WriteLines(rows, Decimal);
    var lines := Lines(rows, Decimal);
    NumbersOfLines(rows);
    assert (lines + [""])[..|lines|] == lines;
  }
}
