/**
 Wrapping of message-bar text.  How many columns a character takes is a parameter; the layout counts columns,
 but cuts the first line for the close button, and lines at blanks, by UTF-8 bytes, which can fail.
 */
module MessageLayout {
  import opened Wrappers

  const CLOSE_BUTTON: string := "[X]"
  const CLOSE_BUTTON_PADDING: nat := 1
  const TRUNCATED: string := "[MESSAGE TRUNCATED]"

  /** The columns a character takes; characters without a width take none. */
  type Widths = char -> nat

  /** Unicode white space. */
  predicate IsBlank(c: char) {
    || 0x09 <= c as int <= 0x0d || c as int == 0x20 || c as int == 0x85 || c as int == 0xa0 || c as int == 0x1680
    || 0x2000 <= c as int <= 0x200a || c as int == 0x2028 || c as int == 0x2029 || c as int == 0x202f
    || c as int == 0x205f || c as int == 0x3000
  }

  function ByteLength(c: char): (bytes: nat)
    ensures 1 <= bytes <= 4
  {
    if c as int < 0x80 then 1 else if c as int < 0x800 then 2 else if c as int < 0x1_0000 then 3 else 4
  }

  /** The code points with the property White_Space, one by one. */
  lemma BlankExactly(c: char)
    ensures IsBlank(c) <==>
      || c in "\t\n\U{b}\U{c}\r \U{85}\U{a0}\U{1680}"
      || c in "\U{2000}\U{2001}\U{2002}\U{2003}\U{2004}\U{2005}\U{2006}\U{2007}\U{2008}\U{2009}\U{200a}"
      || c in "\U{2028}\U{2029}\U{202f}\U{205f}\U{3000}"
  {
  }

  /** What one, two, three and four bytes of UTF-8 can encode: 7, 11, 16 and 21 bits. */
  function Capacity(bytes: nat): nat {
    match bytes
    case 0 => 0
    case 1 => 128
    case 2 => 32 * 64
    case 3 => 16 * 64 * 64
    case _ => 8 * 64 * 64 * 64
  }

  /** A character takes the fewest bytes that can encode it. */
  lemma ByteLengthExactly(c: char)
    ensures Capacity(ByteLength(c) - 1) <= c as int < Capacity(ByteLength(c))
  {
  }

  function Utf8Length(text: string): (bytes: nat)
    ensures bytes >= |text|
  {
    if text == "" then 0 else Utf8Length(text[..|text| - 1]) + ByteLength(text[|text| - 1])
  }

  /** The prefix that is `bytes` long, if that is not inside a character. */
  function Prefix(text: string, bytes: nat): Option<string> {
    if Utf8Length(text) == bytes then Some(text)
    else if text == "" then None
    else Prefix(text[..|text| - 1], bytes)
  }

  /** `String::truncate`: nothing happens to a shorter text, and a cut inside a character fails. */
  function Truncated(text: string, bytes: nat): Option<string> {
    if Utf8Length(text) <= bytes then Some(text) else Prefix(text, bytes)
  }

  function Minus(a: nat, b: nat): nat {
    if a >= b then a - b else 0
  }

  function Spaces(count: nat): string {
    seq(count, _ => ' ')
  }

  function Pad(text: string, columns: nat): (padded: string)
    ensures text <= padded && (|padded| == columns || (|text| > columns && padded == text))
    ensures forall k :: |text| <= k < |padded| ==> padded[k] == ' '
  {
    text + Spaces(Minus(columns, |text|))
  }

  function LastBlank(line: string): (index: Option<nat>)
    ensures index.Some? ==> index.value < |line| && IsBlank(line[index.value])
  {
    if line == "" then None
    else if IsBlank(line[|line| - 1]) then Some(|line| - 1)
    else LastBlank(line[..|line| - 1])
  }

  /** How wide the line being filled may get: the first one leaves room for the button. */
  function Limit(lines: seq<string>, columns: nat): nat {
    if lines == [] && columns >= |CLOSE_BUTTON| then Minus(columns, |CLOSE_BUTTON| + CLOSE_BUTTON_PADDING) else columns
  }

  /** Finished lines, the line being filled, and how wide that is taken to be. */
  datatype Layout = Layout(lines: seq<string>, line: string, length: nat)

  const EMPTY: Layout := Layout([], "", 0)

  predicate MustWrap(layout: Layout, c: char, columns: nat) {
    c == '\n' || layout.length == columns || layout.length == Limit(layout.lines, columns)
  }

  /** A blank behind which the line can not be split: the split would fall inside it. */
  predicate CutFails(line: string, c: char) {
    var blank := LastBlank(line);
    !IsBlank(c) && blank.Some? && ByteLength(line[blank.value]) != 1
  }

  /** Where a full line is cut when `c` comes next: at the last blank, or not at all. */
  function Cut(line: string, c: char): Option<(string, string)> {
    var blank := LastBlank(line);
    if CutFails(line, c) then None
    else if !IsBlank(c) && blank.Some? then Some((line[..blank.value], line[blank.value + 1..]))
    else Some((line, ""))
  }

  /** A character of two columns is followed by a filler. */
  function Pushed(layout: Layout, c: char, w: Widths): Layout {
    var line := layout.line + [c];
    Layout(layout.lines, if w(c) == 2 then line + " " else line, layout.length + w(c))
  }

  function Placed(layout: Layout, c: char, columns: nat, w: Widths): Option<Layout> {
    if MustWrap(layout, c, columns) then
      match Cut(layout.line, c)
      case None => None
      case Some((front, back)) =>
        var next := Layout(layout.lines + [Pad(front, columns)], back, |back|);
        Some(if IsBlank(c) then next else Pushed(next, c, w))
    else Some(Pushed(layout, c, w))
  }

  /** The layout of a text, unless a cut fails on the way. */
  function PlacedAll(text: string, columns: nat, w: Widths): Option<Layout> {
    if text == "" then Some(EMPTY) else
      var earlier := PlacedAll(text[..|text| - 1], columns, w);
      if earlier.None? then None else Placed(earlier.value, text[|text| - 1], columns, w)
  }

  /**
   With characters of one or two columns the width counted for the line being filled is the number of its
   characters, fillers included: the line has one character a column.
   */
  lemma {:induction false} OneCellAColumn(text: string, columns: nat, w: Widths)
    requires forall c :: c in text ==> 1 <= w(c) <= 2
    requires PlacedAll(text, columns, w).Some?
    ensures var layout := PlacedAll(text, columns, w).value; layout.length == |layout.line|
    decreases |text|
  {
    if text != "" {
      OneCellAColumn(text[..|text| - 1], columns, w);
    }
  }

  function TrimStart(text: string): string {
    if text == "" || !IsBlank(text[0]) then text else TrimStart(text[1..])
  }

  function TrimEnd(text: string): string {
    if text == "" || !IsBlank(text[|text| - 1]) then text else TrimEnd(text[..|text| - 1])
  }

  function Trim(text: string): string {
    TrimEnd(TrimStart(text))
  }

  function Wrapped(text: string, columns: nat, w: Widths): Option<seq<string>> {
    match PlacedAll(Trim(text), columns, w)
    case None => None
    case Some(layout) => Some(layout.lines + [Pad(layout.line, columns)])
  }

  function Shortened(lines: seq<string>, columns: nat, maxLines: nat): seq<string> {
    if |lines| <= maxLines then lines
    else if |TRUNCATED| <= columns && maxLines > 0 then lines[..maxLines][maxLines - 1 := Pad(TRUNCATED, columns)]
    else lines[..maxLines]
  }

  function WithButton(lines: seq<string>, columns: nat): Option<seq<string>> {
    if |CLOSE_BUTTON| <= columns && lines != [] then
      match Truncated(lines[0], columns - |CLOSE_BUTTON|)
      case None => None
      case Some(first) => Some(lines[0 := first + CLOSE_BUTTON])
    else Some(lines)
  }

  /** The lines shown for a text, or nothing when a cut fails. */
  function Laid(text: string, columns: nat, maxLines: nat, w: Widths): Option<seq<string>> {
    match Wrapped(text, columns, w)
    case None => None
    case Some(lines) => WithButton(Shortened(lines, columns, maxLines), columns)
  }

  /** The character loop and what follows it.  The result is missing where the program stops with a failed cut. */
  method Text(text: string, columns: nat, maxLines: nat, w: Widths) returns (result: Option<seq<string>>)
    ensures result == Laid(text, columns, maxLines, w)
  {
    hide PlacedAll, Limit, Pad, Cut, CutFails, Truncated;
    var trimmed := Trim(text);
    var lines: seq<string>, line: string, length: nat := [], "", 0;
    NothingPlaced(columns, w);
    for i := 0 to |trimmed|
      invariant PlacedAll(trimmed[..i], columns, w) == Some(Layout(lines, line, length))
    {
      var c := trimmed[i];
      PlacedStep(trimmed, i, columns, w);
      if c == '\n' || length == columns || length == Limit(lines, columns) {
        var cut := Cut(line, c);
        if cut.None? {
          FailureStays(trimmed, i + 1, columns, w);
          return None;
        }
        var (front, back) := cut.value;
        lines := lines + [Pad(front, columns)];
        line := back;
        length := |line|;
        if IsBlank(c) {
          continue;
        }
      }
      line := line + [c];
      if w(c) == 2 {
        line := line + " ";
      }
      length := length + w(c);
    }
    assert trimmed[..|trimmed|] == trimmed;
    lines := lines + [Pad(line, columns)];
    assert Wrapped(text, columns, w) == Some(lines);
    if |lines| > maxLines {
      lines := lines[..maxLines];
      if |TRUNCATED| <= columns && lines != [] {
        lines := lines[|lines| - 1 := Pad(TRUNCATED, columns)];
      }
    }
    if |CLOSE_BUTTON| <= columns && lines != [] {
      var first := Truncated(lines[0], columns - |CLOSE_BUTTON|);
      if first.None? {
        return None;
      }
      lines := lines[0 := first.value + CLOSE_BUTTON];
    }
    return Some(lines);
  }

  lemma NothingPlaced(columns: nat, w: Widths)
    ensures PlacedAll("", columns, w) == Some(EMPTY)
  {
  }

  lemma PlacedLast(text: string, columns: nat, w: Widths)
    requires text != ""
    ensures var init, c := text[..|text| - 1], text[|text| - 1];
      && init + [c] == text
      && PlacedAll(text, columns, w) ==
         match PlacedAll(init, columns, w)
         case None => None
         case Some(layout) => Placed(layout, c, columns, w)
  {
  }

  lemma PlacedStep(text: string, i: nat, columns: nat, w: Widths)
    requires i < |text|
    ensures text[..i] == text[..i + 1][..i]
    ensures PlacedAll(text[..i + 1], columns, w) ==
      match PlacedAll(text[..i], columns, w)
      case None => None
      case Some(layout) => Placed(layout, text[i], columns, w)
  {
    assert text[..i + 1][..i] == text[..i];
  }

  /** A cut that fails is the end. */
  lemma {:induction false} FailureStays(text: string, i: nat, columns: nat, w: Widths)
    requires i <= |text| && PlacedAll(text[..i], columns, w).None?
    ensures PlacedAll(text, columns, w).None?
    decreases |text| - i
  {
    if i == |text| {
      assert text[..i] == text;
    } else {
      PlacedStep(text, i, columns, w);
      FailureStays(text, i + 1, columns, w);
    }
  }

  // ---------------------------------------------------------------------------------------------
  // When wrapping fails
  // ---------------------------------------------------------------------------------------------

  /** The layout reaches a character at which the line has to be cut behind a blank of several bytes. */
  predicate FailsAt(text: string, i: nat, columns: nat, w: Widths)
    requires i < |text|
  {
    var layout := PlacedAll(text[..i], columns, w);
    layout.Some? && MustWrap(layout.value, text[i], columns) && CutFails(layout.value.line, text[i])
  }

  lemma {:induction false} WrappingFailsExactly(text: string, columns: nat, w: Widths)
    ensures PlacedAll(text, columns, w).None? <==> exists i :: 0 <= i < |text| && FailsAt(text, i, columns, w)
    decreases |text|
  {
    hide CutFails, MustWrap;
    if text != "" {
      var init, last := text[..|text| - 1], |text| - 1;
      PlacedLast(text, columns, w);
      WrappingFailsExactly(init, columns, w);
      assert text[..last] == init;
      forall i | 0 <= i < last
        ensures FailsAt(text, i, columns, w) <==> FailsAt(init, i, columns, w)
      {
        assert text[..i] == init[..i];
      }
      var earlier := PlacedAll(init, columns, w);
      if earlier.Some? {
        assert FailsAt(text, last, columns, w) <==> Placed(earlier.value, text[last], columns, w).None?;
      } else {
        var i :| 0 <= i < |init| && FailsAt(init, i, columns, w);
        assert FailsAt(text, i, columns, w);
      }
    }
  }

  /** Every blank of the text is one byte long, as in ASCII. */
  predicate ShortBlanks(text: string) {
    forall c :: c in text && IsBlank(c) ==> ByteLength(c) == 1
  }

  /** Then wrapping never fails, and lines hold nothing but characters of the text and blanks. */
  lemma {:induction false} WrappingSucceeds(text: string, columns: nat, w: Widths)
    requires ShortBlanks(text)
    ensures PlacedAll(text, columns, w).Some?
    ensures var layout := PlacedAll(text, columns, w).value;
      forall c :: Holds(layout, c) ==> c in text || c == ' '
    decreases |text|
  {
    if text != "" {
      hide PlacedAll, Limit;
      var init, c := text[..|text| - 1], text[|text| - 1];
      PlacedLast(text, columns, w);
      assert ShortBlanks(init) && forall x :: x in text <==> x in init || x == c;
      WrappingSucceeds(init, columns, w);
      PlacedMembers(PlacedAll(init, columns, w).value, c, columns, w);
    } else {
      NothingPlaced(columns, w);
    }
  }

  predicate Holds(layout: Layout, c: char) {
    c in layout.line || exists k :: 0 <= k < |layout.lines| && c in layout.lines[k]
  }

  lemma PlacedMembers(layout: Layout, c: char, columns: nat, w: Widths)
    ensures Placed(layout, c, columns, w).None? ==> CutFails(layout.line, c)
    ensures Placed(layout, c, columns, w).Some? ==>
      forall x :: Holds(Placed(layout, c, columns, w).value, x) ==> Holds(layout, x) || x == c || x == ' '
  {
    hide LastBlank, Limit;
    if MustWrap(layout, c, columns) && !CutFails(layout.line, c) {
      var (front, back) := Cut(layout.line, c).value;
      var lines := layout.lines + [Pad(front, columns)];
      forall x | exists k :: 0 <= k < |lines| && x in lines[k]
        ensures Holds(layout, x) || x == ' '
      {
        var k :| 0 <= k < |lines| && x in lines[k];
        assert k < |layout.lines| ==> x in layout.lines[k];
      }
    }
  }

  // ---------------------------------------------------------------------------------------------
  // No ink is lost
  // ---------------------------------------------------------------------------------------------

  /** The characters that leave ink, in order. */
  function Ink(text: string): string {
    if text == "" then "" else
      if IsBlank(text[|text| - 1]) then Ink(text[..|text| - 1]) else Ink(text[..|text| - 1]) + [text[|text| - 1]]
  }

  function InkOf(lines: seq<string>): string {
    if lines == [] then "" else InkOf(lines[..|lines| - 1]) + Ink(lines[|lines| - 1])
  }

  lemma {:induction false} InkConcat(a: string, b: string)
    ensures Ink(a + b) == Ink(a) + Ink(b)
    decreases |b|
  {
    if b == "" {
      assert a + b == a;
    } else {
      assert (a + b)[..|a + b| - 1] == a + b[..|b| - 1];
      InkConcat(a, b[..|b| - 1]);
    }
  }

  lemma {:induction false} SpacesHaveNoInk(count: nat)
    ensures Ink(Spaces(count)) == ""
    decreases count
  {
    if count > 0 {
      assert Spaces(count)[..count - 1] == Spaces(count - 1);
      SpacesHaveNoInk(count - 1);
    }
  }

  lemma PadKeepsInk(text: string, columns: nat)
    ensures Ink(Pad(text, columns)) == Ink(text)
    ensures |text| <= columns ==> |Pad(text, columns)| == columns
  {
    InkConcat(text, Spaces(Minus(columns, |text|)));
    SpacesHaveNoInk(Minus(columns, |text|));
  }

  /** Cutting a line drops at most one blank. */
  lemma CutKeepsInk(line: string, c: char)
    requires !CutFails(line, c)
    ensures var (front, back) := Cut(line, c).value;
      && Ink(front) + Ink(back) == Ink(line)
      && |front| <= |line| && (|back| < |line| || back == "")
  {
    hide Ink, LastBlank;
    InkNothing();
    var blank := LastBlank(line);
    if !IsBlank(c) && blank.Some? {
      BlankHasNoInk(line[..blank.value], line[blank.value], line[blank.value + 1..]);
      RejoinAt(line, blank.value);
    }
  }

  lemma BlankHasNoInk(front: string, blank: char, back: string)
    requires IsBlank(blank)
    ensures Ink(front + ([blank] + back)) == Ink(front) + Ink(back)
  {
    hide Ink;
    InkConcat(front, [blank] + back);
    InkConcat([blank], back);
    InkOne(blank);
  }

  lemma RejoinAt(line: string, k: nat)
    requires k < |line|
    ensures line[..k] + ([line[k]] + line[k + 1..]) == line
  {
  }

  lemma InkOfAppend(lines: seq<string>, line: string)
    ensures InkOf(lines + [line]) == InkOf(lines) + Ink(line)
  {
    assert (lines + [line])[..|lines|] == lines;
  }

  lemma InkNothing()
    ensures Ink("") == ""
  {
  }

  lemma InkOne(c: char)
    ensures Ink([c]) == if IsBlank(c) then "" else [c]
  {
    assert [c][..0] == "";
  }

  lemma PushedKeepsInk(layout: Layout, c: char, w: Widths)
    ensures Ink(Pushed(layout, c, w).line) == Ink(layout.line) + Ink([c])
  {
    hide Ink;
    InkConcat(layout.line, [c]);
    InkNothing();
    InkOne(' ');
    InkConcat(layout.line + [c], " ");
  }

  lemma PlacedKeepsInk(layout: Layout, text: string, c: char, columns: nat, w: Widths)
    requires InkOf(layout.lines) + Ink(layout.line) == Ink(text)
    ensures var after := Placed(layout, c, columns, w);
      after.Some? ==> InkOf(after.value.lines) + Ink(after.value.line) == Ink(text + [c])
  {
    hide Ink, InkOf, Cut, CutFails, Pad, LastBlank, Pushed, Limit;
    InkConcat(text, [c]);
    InkOne(c);
    PushedKeepsInk(layout, c, w);
    PushedLines(layout, c, w);
    if MustWrap(layout, c, columns) && Cut(layout.line, c).Some? {
      CutSucceeds(layout.line, c);
      var (front, back) := Cut(layout.line, c).value;
      CutKeepsInk(layout.line, c);
      PadKeepsInk(front, columns);
      InkOfAppend(layout.lines, Pad(front, columns));
      var next := Layout(layout.lines + [Pad(front, columns)], back, |back|);
      PushedKeepsInk(next, c, w);
      PushedLines(next, c, w);
    }
  }

  lemma PushedLines(layout: Layout, c: char, w: Widths)
    ensures Pushed(layout, c, w).lines == layout.lines
  {
  }

  lemma CutSucceeds(line: string, c: char)
    ensures Cut(line, c).Some? <==> !CutFails(line, c)
  {
  }

  lemma {:induction false} PlacedAllKeepsInk(text: string, columns: nat, w: Widths)
    ensures var layout := PlacedAll(text, columns, w);
      layout.Some? ==> InkOf(layout.value.lines) + Ink(layout.value.line) == Ink(text)
    decreases |text|
  {
    hide Ink, InkOf, Placed, PlacedAll;
    if text == "" {
      NothingPlaced(columns, w);
      InkNothing();
      InkOfNothing();
    } else {
      var init, c := text[..|text| - 1], text[|text| - 1];
      PlacedLast(text, columns, w);
      PlacedAllKeepsInk(init, columns, w);
      if PlacedAll(init, columns, w).Some? {
        PlacedKeepsInk(PlacedAll(init, columns, w).value, init, c, columns, w);
      }
    }
  }

  lemma {:induction false} TrimStartKeepsInk(text: string)
    ensures Ink(TrimStart(text)) == Ink(text)
    decreases |text|
  {
    if text != "" && IsBlank(text[0]) {
      TrimStartKeepsInk(text[1..]);
      InkConcat([text[0]], text[1..]);
      InkOne(text[0]);
      assert text == [text[0]] + text[1..];
    }
  }

  lemma {:induction false} TrimEndKeepsInk(text: string)
    ensures Ink(TrimEnd(text)) == Ink(text)
    decreases |text|
  {
    if text != "" && IsBlank(text[|text| - 1]) {
      TrimEndKeepsInk(text[..|text| - 1]);
    }
  }

  lemma {:induction false} InkOfCons(first: string, rest: seq<string>)
    ensures InkOf([first] + rest) == Ink(first) + InkOf(rest)
    decreases |rest|
  {
    hide Ink, InkOf;
    InkOfNothing();
    if rest == [] {
      assert [first] + rest == [] + [first];
      InkOfAppend([], first);
    } else {
      var init, last := rest[..|rest| - 1], rest[|rest| - 1];
      assert init + [last] == rest && ([first] + init) + [last] == [first] + rest;
      InkOfCons(first, init);
      InkOfAppend(init, last);
      InkOfAppend([first] + init, last);
    }
  }

  lemma InkOfNothing()
    ensures InkOf([]) == ""
  {
  }

  /** Whatever the text and its widths: wrapping keeps every character that leaves ink, in order. */
  lemma WrappedKeepsInk(text: string, columns: nat, w: Widths)
    ensures var lines := Wrapped(text, columns, w); lines.Some? ==> InkOf(lines.value) == Ink(text)
  {
    hide Ink, InkOf, Pad, PlacedAll;
    TrimStartKeepsInk(text);
    TrimEndKeepsInk(TrimStart(text));
    PlacedAllKeepsInk(Trim(text), columns, w);
    var layout := PlacedAll(Trim(text), columns, w);
    if layout.Some? {
      PadKeepsInk(layout.value.line, columns);
      InkOfAppend(layout.value.lines, Pad(layout.value.line, columns));
    }
  }

  // ---------------------------------------------------------------------------------------------
  // How wide the lines are
  // ---------------------------------------------------------------------------------------------

  /** Every character takes one column; line breaks are never shown. */
  predicate OneColumn(text: string, w: Widths) {
    forall c :: c in text ==> c == '\n' || w(c) == 1
  }

  /** The first line ends in blanks wide enough for the button. */
  predicate RoomForButton(lines: seq<string>, columns: nat) {
    lines != [] && columns >= |CLOSE_BUTTON| ==>
      |lines[0]| == columns && forall k :: columns - |CLOSE_BUTTON| <= k < columns ==> lines[0][k] == ' '
  }

  /** Finished lines fill the width, and the open one fits and is as wide as it is taken to be. */
  predicate Fits(layout: Layout, columns: nat) {
    && (forall k :: 0 <= k < |layout.lines| ==> |layout.lines[k]| == columns)
    && layout.length == |layout.line| <= Limit(layout.lines, columns)
    && RoomForButton(layout.lines, columns)
  }

  lemma PadLeavesRoom(line: string, columns: nat)
    requires |line| <= Limit([], columns) && columns > 0
    ensures RoomForButton([Pad(line, columns)], columns)
  {
  }

  lemma PlacedFits(layout: Layout, c: char, columns: nat, w: Widths)
    requires Fits(layout, columns) && columns > 0 && (c == '\n' || w(c) == 1)
    ensures Placed(layout, c, columns, w).Some? ==> Fits(Placed(layout, c, columns, w).value, columns)
  {
    hide Cut, Pad, LastBlank, CutFails;
    if MustWrap(layout, c, columns) && Cut(layout.line, c).Some? {
      var (front, back) := Cut(layout.line, c).value;
      CutSucceeds(layout.line, c);
      CutKeepsInk(layout.line, c);
      PadKeepsInk(front, columns);
      if layout.lines == [] {
        PadLeavesRoom(front, columns);
      }
    }
  }

  lemma {:induction false} PlacedAllFits(text: string, columns: nat, w: Widths)
    requires columns > 0 && OneColumn(text, w)
    ensures PlacedAll(text, columns, w).Some? ==> Fits(PlacedAll(text, columns, w).value, columns)
    decreases |text|
  {
    if text == "" {
      NothingPlaced(columns, w);
    } else {
      hide Fits, Placed, PlacedAll;
      var init, c := text[..|text| - 1], text[|text| - 1];
      PlacedLast(text, columns, w);
      assert forall x :: x in init ==> x in text;
      PlacedAllFits(init, columns, w);
      if PlacedAll(init, columns, w).Some? {
        PlacedFits(PlacedAll(init, columns, w).value, c, columns, w);
      }
    }
  }

  lemma {:induction false} TrimMembers(text: string)
    ensures forall c :: c in Trim(text) ==> c in text
  {
    TrimStartMembers(text);
    TrimEndMembers(TrimStart(text));
  }

  lemma {:induction false} TrimStartMembers(text: string)
    ensures forall c :: c in TrimStart(text) ==> c in text
    decreases |text|
  {
    if text != "" && IsBlank(text[0]) {
      TrimStartMembers(text[1..]);
    }
  }

  lemma {:induction false} TrimEndMembers(text: string)
    ensures forall c :: c in TrimEnd(text) ==> c in text
    decreases |text|
  {
    if text != "" && IsBlank(text[|text| - 1]) {
      TrimEndMembers(text[..|text| - 1]);
    }
  }

  /** Text of one column a character: full-width lines, and room for the button in the first. */
  lemma WrappedFits(text: string, columns: nat, w: Widths)
    requires columns > 0 && OneColumn(text, w)
    ensures var lines := Wrapped(text, columns, w);
      lines.Some? ==>
        && lines.value != []
        && (forall k :: 0 <= k < |lines.value| ==> |lines.value[k]| == columns)
        && RoomForButton(lines.value, columns)
  {
    hide Pad, PlacedAll, Trim;
    TrimMembers(text);
    PlacedAllFits(Trim(text), columns, w);
    var layout := PlacedAll(Trim(text), columns, w);
    if layout.Some? {
      PadKeepsInk(layout.value.line, columns);
      if layout.value.lines == [] {
        PadLeavesRoom(layout.value.line, columns);
      }
    }
  }

  lemma WidthsAfterShortening(text: string, columns: nat, maxLines: nat, w: Widths)
    requires columns > 0 && OneColumn(text, w) && Wrapped(text, columns, w).Some?
    ensures var lines := Shortened(Wrapped(text, columns, w).value, columns, maxLines);
      |lines| <= maxLines && forall k :: 0 <= k < |lines| ==> |lines[k]| == columns
  {
    hide Wrapped, RoomForButton;
    WrappedFits(text, columns, w);
  }

  // ---------------------------------------------------------------------------------------------
  // The close button, cut in by bytes
  // ---------------------------------------------------------------------------------------------

  predicate Ascii(text: string) {
    forall c :: c in text ==> c as int < 0x80
  }

  lemma AsciiConcat(a: string, b: string)
    ensures Ascii(a + b) <==> Ascii(a) && Ascii(b)
  {
    assert forall c :: c in a + b <==> c in a || c in b;
    assert Ascii(a + b) ==> forall c :: c in b ==> c in a + b;
    assert Ascii(a + b) ==> forall c :: c in a ==> c in a + b;
  }

  lemma {:induction false} AsciiLength(text: string)
    ensures Utf8Length(text) == |text| <==> Ascii(text)
    decreases |text|
  {
    if text != "" {
      var init, last := text[..|text| - 1], text[|text| - 1];
      assert forall c :: c in text <==> c in init || c == last;
      AsciiLength(init);
      assert last in text && (Ascii(text) ==> Ascii(init));
      assert Utf8Length(text) == Utf8Length(init) + ByteLength(last);
      assert Ascii(init) && last as int < 0x80 ==> Ascii(text);
    }
  }

  /** Prefixes grow in bytes. */
  lemma {:induction false} PrefixesGrow(text: string, k: nat)
    requires k <= |text|
    ensures Utf8Length(text[..k]) + (|text| - k) <= Utf8Length(text)
    decreases |text|
  {
    if k == |text| {
      assert text[..k] == text;
    } else {
      assert text[..|text| - 1][..k] == text[..k];
      PrefixesGrow(text[..|text| - 1], k);
    }
  }

  /** The prefix of a given byte length, exactly when there is one. */
  lemma {:induction false} PrefixExactly(text: string, bytes: nat)
    ensures var found := Prefix(text, bytes);
      && (found.Some? <==> exists k :: 0 <= k <= |text| && Utf8Length(text[..k]) == bytes)
      && (found.Some? ==> found.value <= text && Utf8Length(found.value) == bytes)
    decreases |text|
  {
    if Utf8Length(text) == bytes {
      assert text[..|text|] == text;
    } else if text != "" {
      var init := text[..|text| - 1];
      PrefixExactly(init, bytes);
      forall k | 0 <= k < |text|
        ensures Utf8Length(text[..k]) == bytes <==> Utf8Length(init[..k]) == bytes
      {
        assert init[..k] == text[..k];
      }
      assert text[..|text|] == text;
    }
  }

  /** Truncation fails exactly when the cut would fall inside a character. */
  lemma TruncationFailsExactly(text: string, bytes: nat)
    ensures Truncated(text, bytes).None? <==>
      Utf8Length(text) > bytes && forall k :: 0 <= k <= |text| ==> Utf8Length(text[..k]) != bytes
  {
    hide Utf8Length, Prefix;
    PrefixExactly(text, bytes);
  }

  /** Truncation by bytes is truncation by characters exactly when what it keeps is ASCII. */
  lemma TruncatedExactly(text: string, bytes: nat)
    requires bytes < |text|
    ensures Truncated(text, bytes) == Some(text[..bytes]) <==> Ascii(text[..bytes])
    ensures Truncated(text, bytes).Some? ==> |Truncated(text, bytes).value| <= bytes
    ensures Truncated(text, bytes).Some? && |Truncated(text, bytes).value| == bytes ==> Ascii(text[..bytes])
  {
    hide Utf8Length, Prefix;
    PrefixExactly(text, bytes);
    AsciiLength(text[..bytes]);
    var found := Prefix(text, bytes);
    if found.Some? {
      var k := |found.value|;
      assert found.value == text[..k];
      if k < bytes {
        assert |text[..bytes]| == bytes;
      } else if k > bytes {
        assert false;
      }
    }
    if Ascii(text[..bytes]) {
      OnlyPrefix(text, bytes, bytes);
    }
  }

  /** There is only one prefix of a given byte length. */
  lemma OnlyPrefix(text: string, k: nat, bytes: nat)
    requires k <= |text| && Utf8Length(text[..k]) == bytes
    ensures Prefix(text, bytes) == Some(text[..k])
  {
    hide Utf8Length, Prefix;
    PrefixExactly(text, bytes);
    var j := |Prefix(text, bytes).value|;
    assert Prefix(text, bytes).value == text[..j];
    if j < k {
      assert text[..k][..j] == text[..j];
      PrefixesGrow(text[..k], j);
    } else if k < j {
      assert text[..j][..k] == text[..k];
      PrefixesGrow(text[..j], k);
    }
  }

  /** The cut for the button would fall inside a character. */
  predicate ButtonFails(lines: seq<string>, columns: nat) {
    && |CLOSE_BUTTON| <= columns && lines != []
    && Utf8Length(lines[0]) > columns - |CLOSE_BUTTON|
    && forall k :: 0 <= k <= |lines[0]| ==> Utf8Length(lines[0][..k]) != columns - |CLOSE_BUTTON|
  }

  /**
   For every text and all widths: showing a message fails exactly when a full line has to be cut behind a blank
   of several bytes, or when the place for the button starts inside a character.
   */
  lemma ShowingFailsExactly(text: string, columns: nat, maxLines: nat, w: Widths)
    ensures Laid(text, columns, maxLines, w).None? <==>
      || (exists i :: 0 <= i < |Trim(text)| && FailsAt(Trim(text), i, columns, w))
      || (Wrapped(text, columns, w).Some?
        && ButtonFails(Shortened(Wrapped(text, columns, w).value, columns, maxLines), columns))
  {
    hide PlacedAll, Trim, FailsAt, Shortened, Truncated, Utf8Length;
    WrappingFailsExactly(Trim(text), columns, w);
    var wrapped := Wrapped(text, columns, w);
    if wrapped.Some? {
      var lines := Shortened(wrapped.value, columns, maxLines);
      if |CLOSE_BUTTON| <= columns && lines != [] {
        TruncationFailsExactly(lines[0], columns - |CLOSE_BUTTON|);
      }
    }
  }

  /** Accented letters in the place where the button goes: four of them in a window of eight columns. */
  lemma AccentsFail(maxLines: nat, w: Widths)
    requires maxLines > 0 && w('\U{e9}') == 1
    ensures Laid("\U{e9}\U{e9}\U{e9}\U{e9}", 8, maxLines, w).None?
  {
    var e := '\U{e9}';
    var text := [e, e, e, e];
    NothingToTrim(text);
    FirstLineHolds(text, 8, w);
    hide PlacedAll, Trim, Utf8Length, Truncated;
    var first := Pad(text, 8);
    assert [] + [first] == [first];
    assert Shortened([first], 8, maxLines) == [first];
    AccentLengths(first);
    TruncationFailsExactly(first, 5);
  }

  lemma NothingToTrim(text: string)
    requires text != "" && !IsBlank(text[0]) && !IsBlank(text[|text| - 1])
    ensures Trim(text) == text
  {
  }

  /** A text that fits the first line stays on it. */
  lemma {:induction false} FirstLineHolds(text: string, columns: nat, w: Widths)
    requires |text| <= Limit([], columns) && forall i :: 0 <= i < |text| ==> text[i] != '\n' && w(text[i]) == 1
    ensures PlacedAll(text, columns, w) == Some(Layout([], text, |text|))
    decreases |text|
  {
    if text == "" {
      NothingPlaced(columns, w);
    } else {
      assert Limit([], columns) <= columns;
      hide PlacedAll, Cut, Limit;
      var init, c := text[..|text| - 1], text[|text| - 1];
      PlacedLast(text, columns, w);
      FirstLineHolds(init, columns, w);
      assert !MustWrap(Layout([], init, |init|), c, columns);
    }
  }

  /** Four letters of two bytes and four blanks: no prefix is five bytes long. */
  lemma AccentLengths(line: string)
    requires line == Pad(['\U{e9}', '\U{e9}', '\U{e9}', '\U{e9}'], 8)
    ensures Utf8Length(line) > 5 && forall k :: 0 <= k <= |line| ==> Utf8Length(line[..k]) != 5
  {
    forall k | 0 <= k <= |line|
      ensures Utf8Length(line[..k]) == if k <= 4 then 2 * k else k + 4
    {
      AccentPrefix(line, k);
    }
    assert line[..|line|] == line;
  }

  lemma {:induction false} AccentPrefix(line: string, k: nat)
    requires line == Pad(['\U{e9}', '\U{e9}', '\U{e9}', '\U{e9}'], 8) && k <= 8
    ensures Utf8Length(line[..k]) == if k <= 4 then 2 * k else k + 4
    decreases k
  {
    if k > 0 {
      assert line[..k][..k - 1] == line[..k - 1];
      AccentPrefix(line, k - 1);
    }
  }

  /** A no-break space in a full line: three characters in a window of two columns. */
  lemma NoBreakSpaceFails(maxLines: nat, w: Widths)
    requires w('x') == 1 && w('\U{a0}') == 1
    ensures Laid("x\U{a0}x", 2, maxLines, w).None?
  {
    var x, blank := 'x', '\U{a0}';
    var text := [x, blank, x];
    NothingToTrim(text);
    assert text[..2] == [x, blank];
    FirstLineHolds([x, blank], 2, w);
    assert LastBlank([x, blank]) == Some(1);
    hide PlacedAll, Trim;
    PlacedLast(text, 2, w);
  }

  /** The first line of the window, whether or not it had to be replaced: what is behind its text is ASCII. */
  lemma FirstLineTail(text: string, columns: nat, maxLines: nat, w: Widths)
    requires columns >= |CLOSE_BUTTON| && OneColumn(text, w) && Wrapped(text, columns, w).Some? && maxLines > 0
    ensures var lines := Shortened(Wrapped(text, columns, w).value, columns, maxLines);
      && lines != [] && |lines[0]| == columns
      && (Ascii(lines[0][..columns - |CLOSE_BUTTON|]) <==> Ascii(lines[0]))
  {
    hide Wrapped;
    WrappedFits(text, columns, w);
    WidthsAfterShortening(text, columns, maxLines, w);
    var wrapped := Wrapped(text, columns, w).value;
    var lines := Shortened(wrapped, columns, maxLines);
    var first, keep := lines[0], columns - |CLOSE_BUTTON|;
    assert first == first[..keep] + first[keep..];
    AsciiConcat(first[..keep], first[keep..]);
    if lines[0] == wrapped[0] {
      assert forall c :: c in first[keep..] ==> c == ' ';
    } else {
      assert first == Pad(TRUNCATED, columns);
      AsciiConcat(TRUNCATED, Spaces(Minus(columns, |TRUNCATED|)));
    }
  }

  /**
   With one column a character, the line with the button is exactly as wide as the window exactly when it is
   ASCII; any other first line is cut too short, or not at all.
   */
  lemma FirstLineExact(text: string, columns: nat, maxLines: nat, w: Widths)
    requires columns >= |CLOSE_BUTTON| && OneColumn(text, w) && Wrapped(text, columns, w).Some? && maxLines > 0
    ensures var lines := Shortened(Wrapped(text, columns, w).value, columns, maxLines);
      var shown := WithButton(lines, columns);
      lines != [] && (shown.Some? && |shown.value[0]| == columns <==> Ascii(lines[0]))
  {
    hide Wrapped, Shortened, Truncated, Ascii;
    FirstLineTail(text, columns, maxLines, w);
    var first := Shortened(Wrapped(text, columns, w).value, columns, maxLines)[0];
    TruncatedExactly(first, columns - |CLOSE_BUTTON|);
  }

  lemma AsciiWraps(text: string, columns: nat, maxLines: nat, w: Widths)
    requires Ascii(text)
    ensures Wrapped(text, columns, w).Some?
    ensures var lines := Shortened(Wrapped(text, columns, w).value, columns, maxLines); lines != [] ==> Ascii(lines[0])
  {
    hide Trim, PlacedAll;
    TrimMembers(text);
    WrappingSucceeds(Trim(text), columns, w);
    var layout := PlacedAll(Trim(text), columns, w).value;
    var lines := layout.lines + [Pad(layout.line, columns)];
    assert layout.lines != [] ==> forall c :: c in lines[0] ==> Holds(layout, c);
    assert layout.lines == [] ==> forall c :: c in lines[0] ==> Holds(layout, c) || c == ' ';
    assert Ascii(lines[0]);
  }

  /** ASCII text is shown: at most the line limit, and every line exactly the width of the window. */
  lemma TextFitsWindow(text: string, columns: nat, maxLines: nat, w: Widths)
    requires columns > 0 && OneColumn(text, w) && Ascii(text)
    ensures var lines := Laid(text, columns, maxLines, w);
      lines.Some? && |lines.value| <= maxLines && forall k :: 0 <= k < |lines.value| ==> |lines.value[k]| == columns
  {
    hide Wrapped, Shortened, Truncated, Ascii;
    AsciiWraps(text, columns, maxLines, w);
    WidthsAfterShortening(text, columns, maxLines, w);
    if columns >= |CLOSE_BUTTON| && Shortened(Wrapped(text, columns, w).value, columns, maxLines) != [] {
      FirstLineExact(text, columns, maxLines, w);
    }
  }

  /** The lines shown, with the close button taken off again. */
  function WithoutButton(lines: seq<string>, columns: nat): seq<string> {
    if |CLOSE_BUTTON| <= columns && lines != [] && |lines[0]| >= |CLOSE_BUTTON| then
      lines[0 := lines[0][..|lines[0]| - |CLOSE_BUTTON|]]
    else lines
  }

  /** Unless lines had to be left out, every character of ASCII text that leaves ink is shown, in order. */
  lemma NoInkLost(text: string, columns: nat, maxLines: nat, w: Widths)
    requires columns > 0 && OneColumn(text, w) && Ascii(text)
    requires Wrapped(text, columns, w).Some? && |Wrapped(text, columns, w).value| <= maxLines
    ensures var lines := Laid(text, columns, maxLines, w);
      lines.Some? && InkOf(WithoutButton(lines.value, columns)) == Ink(text)
  {
    hide Wrapped, Ink, InkOf, Truncated, Ascii;
    TextFitsWindow(text, columns, maxLines, w);
    WrappedFits(text, columns, w);
    WrappedKeepsInk(text, columns, w);
    AsciiWraps(text, columns, maxLines, w);
    var wrapped := Wrapped(text, columns, w).value;
    if |CLOSE_BUTTON| <= columns {
      var width := columns - |CLOSE_BUTTON|;
      var first, rest := wrapped[0], wrapped[1..];
      FirstLineTail(text, columns, maxLines, w);
      TruncatedExactly(first, width);
      assert first == first[..width] + Spaces(|CLOSE_BUTTON|);
      InkConcat(first[..width], Spaces(|CLOSE_BUTTON|));
      SpacesHaveNoInk(|CLOSE_BUTTON|);
      InkOfCons(first, rest);
      InkOfCons(first[..width], rest);
      assert wrapped == [first] + rest;
      var shown := Laid(text, columns, maxLines, w).value;
      assert shown == wrapped[0 := first[..width] + CLOSE_BUTTON];
      assert (first[..width] + CLOSE_BUTTON)[..width] == first[..width];
      assert WithoutButton(shown, columns) == [first[..width]] + rest;
    }
  }

  // ---------------------------------------------------------------------------------------------
  // Where lines break
  // ---------------------------------------------------------------------------------------------

  /** A finished line before padding, and the blank, if any, that its break swallowed. */
  datatype Piece = Piece(front: string, dropped: string)

  predicate HasBlank(text: string) {
    exists i :: 0 <= i < |text| && IsBlank(text[i])
  }

  /** The length of the word a text begins with. */
  function Leading(text: string): nat {
    if text == "" || IsBlank(text[0]) then 0 else 1 + Leading(text[1..])
  }

  /**
   A break before `rest` is right: it swallows a newline, or one more word, or the part of one that is
   there, would not have fitted.  It swallows at most one blank, and it splits a word only if the line
   holds nothing else.
   */
  predicate RightBreak(piece: Piece, rest: string, limit: nat) {
    && ((|piece.dropped| == 1 && IsBlank(piece.dropped[0])) || (piece.dropped == "" && !HasBlank(piece.front)))
    && |piece.front| <= limit
    && (piece.dropped == "\n" || |piece.front| + |piece.dropped| + Leading(rest) > limit)
  }

  /** The pieces and the open line, put together again, are the text, and every break is right. */
  predicate Recovers(pieces: seq<Piece>, line: string, text: string, limit: nat, columns: nat) {
    if pieces == [] then text == line else
      var taken := pieces[0].front + pieces[0].dropped;
      && taken <= text
      && RightBreak(pieces[0], text[|taken|..], limit)
      && Recovers(pieces[1..], line, text[|taken|..], columns, columns)
  }

  lemma {:induction false} LeadingGrows(text: string, more: string)
    ensures Leading(text + more) >= Leading(text)
    decreases |text|
  {
    if text != "" && !IsBlank(text[0]) {
      assert (text + more)[1..] == text[1..] + more;
      LeadingGrows(text[1..], more);
    }
  }

  lemma {:induction false} LeadingWord(word: string)
    requires !HasBlank(word)
    ensures Leading(word) == |word|
    decreases |word|
  {
    if word != "" {
      LeadingWord(word[1..]);
    }
  }

  /** Text added at the end lands in the open line. */
  lemma {:induction false} RecoversMore(pieces: seq<Piece>, line: string, text: string, more: string, limit: nat,
                                        columns: nat)
    requires Recovers(pieces, line, text, limit, columns)
    ensures Recovers(pieces, line + more, text + more, limit, columns)
    decreases |pieces|
  {
    hide Leading, HasBlank;
    if pieces != [] {
      var taken := |pieces[0].front + pieces[0].dropped|;
      assert (text + more)[taken..] == text[taken..] + more;
      LeadingGrows(text[taken..], more);
      RecoversMore(pieces[1..], line, text[taken..], more, columns, columns);
    }
  }

  /** The open line may be broken where that is right. */
  lemma {:induction false} RecoversBroken(pieces: seq<Piece>, line: string, text: string, piece: Piece, rest: string,
                                          limit: nat, columns: nat)
    requires Recovers(pieces, line, text, limit, columns) && line == piece.front + piece.dropped + rest
    requires RightBreak(piece, rest, if pieces == [] then limit else columns)
    ensures Recovers(pieces + [piece], rest, text, limit, columns)
    decreases |pieces|
  {
    hide RightBreak;
    if pieces == [] {
      assert ([] + [piece])[1..] == [];
      assert text[|piece.front + piece.dropped|..] == rest;
    } else {
      var taken := |pieces[0].front + pieces[0].dropped|;
      assert (pieces + [piece])[1..] == pieces[1..] + [piece];
      RecoversBroken(pieces[1..], line, text[taken..], piece, rest, columns, columns);
    }
  }

  lemma {:induction false} LastBlankIsLast(line: string)
    ensures var blank := LastBlank(line);
      !HasBlank(if blank.Some? then line[blank.value + 1..] else line)
    decreases |line|
  {
    if line != "" && !IsBlank(line[|line| - 1]) {
      var front := line[..|line| - 1];
      LastBlankIsLast(front);
      assert LastBlank(line) == LastBlank(front);
      assert line == front + [line[|line| - 1]];
    }
  }

  /** The break the layout makes before `c` is right. */
  lemma BreakIsRight(line: string, c: char, limit: nat) returns (piece: Piece)
    requires |line| <= limit && (c == '\n' || |line| == limit) && !CutFails(line, c)
    ensures var (front, back) := Cut(line, c).value;
      var rest := if IsBlank(c) then back else back + [c];
      && piece.front == front && line + [c] == front + piece.dropped + rest && RightBreak(piece, rest, limit)
  {
    hide LastBlank, Leading;
    var blank := LastBlank(line);
    var (front, back) := Cut(line, c).value;
    if IsBlank(c) {
      piece := Piece(line, [c]);
    } else {
      LastBlankIsLast(line);
      LeadingWord(back + [c]);
      LeadingWord([c]);
      piece := if blank.Some? then Piece(front, [line[blank.value]]) else Piece(line, "");
    }
  }

  /**
   The layout is nothing but the text with its breaks: finished lines are the pieces, padded; joined with
   what the breaks swallowed they give the text back; and no break comes too early or inside a word that
   could have been kept whole.
   */
  predicate Shows(pieces: seq<Piece>, layout: Layout, text: string, columns: nat) {
    && |pieces| == |layout.lines|
    && (forall k :: 0 <= k < |pieces| ==> layout.lines[k] == Pad(pieces[k].front, columns))
    && Recovers(pieces, layout.line, text, Limit([], columns), columns)
  }

  lemma PlacedShows(pieces: seq<Piece>, layout: Layout, text: string, c: char, columns: nat, w: Widths)
    returns (after: seq<Piece>)
    requires Shows(pieces, layout, text, columns) && layout.length == |layout.line| <= Limit(layout.lines, columns)
    requires c == '\n' || w(c) == 1
    requires Placed(layout, c, columns, w).Some?
    ensures Shows(after, Placed(layout, c, columns, w).value, text + [c], columns)
  {
    hide Pad, RightBreak, Cut, CutFails, Recovers;
    RecoversMore(pieces, layout.line, text, [c], Limit([], columns), columns);
    after := pieces;
    if MustWrap(layout, c, columns) {
      CutSucceeds(layout.line, c);
      var piece := BreakIsRight(layout.line, c, Limit(layout.lines, columns));
      var (front, back) := Cut(layout.line, c).value;
      RecoversBroken(pieces, layout.line + [c], text + [c], piece, if IsBlank(c) then back else back + [c],
                     Limit([], columns), columns);
      after := pieces + [piece];
    }
  }

  lemma {:induction false} PlacedAllShows(text: string, columns: nat, w: Widths) returns (pieces: seq<Piece>)
    requires columns > 0 && OneColumn(text, w) && PlacedAll(text, columns, w).Some?
    ensures Shows(pieces, PlacedAll(text, columns, w).value, text, columns)
    decreases |text|
  {
    pieces := [];
    if text == "" {
      NothingPlaced(columns, w);
    } else {
      hide Shows, Placed, PlacedAll, Limit;
      var init, c := text[..|text| - 1], text[|text| - 1];
      PlacedLast(text, columns, w);
      assert c in text && forall x :: x in init ==> x in text;
      pieces := PlacedAllShows(init, columns, w);
      PlacedAllFits(init, columns, w);
      pieces := PlacedShows(pieces, PlacedAll(init, columns, w).value, init, c, columns, w);
    }
  }

  /** What the window shows before shortening is the trimmed text, broken only where it has to be. */
  lemma WrappedRecovers(text: string, columns: nat, w: Widths) returns (pieces: seq<Piece>, line: string)
    requires columns > 0 && OneColumn(text, w) && Wrapped(text, columns, w).Some?
    ensures var lines := Wrapped(text, columns, w).value;
      && |lines| == |pieces| + 1
      && (forall k :: 0 <= k < |pieces| ==> lines[k] == Pad(pieces[k].front, columns))
      && lines[|pieces|] == Pad(line, columns)
      && Recovers(pieces, line, Trim(text), if columns >= 4 then columns - 4 else if columns == 3 then 0 else columns,
                  columns)
  {
    hide Pad, PlacedAll, Trim, Recovers;
    TrimMembers(text);
    pieces := PlacedAllShows(Trim(text), columns, w);
    line := PlacedAll(Trim(text), columns, w).value.line;
  }

  /** Trimming takes off blanks at both ends, and nothing else. */
  lemma {:induction false} TrimExactly(text: string) returns (front: string, back: string)
    ensures text == front + Trim(text) + back
    ensures (forall c :: c in front ==> IsBlank(c)) && (forall c :: c in back ==> IsBlank(c))
    ensures Trim(text) != "" ==> !IsBlank(Trim(text)[0]) && !IsBlank(Trim(text)[|Trim(text)| - 1])
  {
    front := TrimStartExactly(text);
    back := TrimEndExactly(TrimStart(text));
  }

  lemma {:induction false} TrimStartExactly(text: string) returns (front: string)
    ensures text == front + TrimStart(text) && forall c :: c in front ==> IsBlank(c)
    ensures TrimStart(text) != "" ==> !IsBlank(TrimStart(text)[0])
    decreases |text|
  {
    front := "";
    if text != "" && IsBlank(text[0]) {
      var rest := TrimStartExactly(text[1..]);
      front := [text[0]] + rest;
    }
  }

  lemma {:induction false} TrimEndExactly(text: string) returns (back: string)
    ensures text == TrimEnd(text) + back && forall c :: c in back ==> IsBlank(c)
    ensures TrimEnd(text) != "" ==> !IsBlank(TrimEnd(text)[|TrimEnd(text)| - 1]) && TrimEnd(text)[0] == text[0]
    decreases |text|
  {
    back := "";
    if text != "" && IsBlank(text[|text| - 1]) {
      var rest := TrimEndExactly(text[..|text| - 1]);
      back := rest + [text[|text| - 1]];
    }
  }

  /** Lines over the limit go, and the last that is left says so where there is room. */
  lemma ShortenedExactly(lines: seq<string>, columns: nat, maxLines: nat)
    ensures var shown := Shortened(lines, columns, maxLines);
      && |shown| == (if |lines| <= maxLines then |lines| else maxLines)
      && (forall k :: 0 <= k < |shown| && !(k == maxLines - 1 && |lines| > maxLines && columns >= 19) ==>
        shown[k] == lines[k])
      && (|lines| > maxLines > 0 && columns >= 19 ==>
            "[MESSAGE TRUNCATED]" <= shown[maxLines - 1] && |shown[maxLines - 1]| == columns)
  {
  }

  /** The button ends the first line, and the other lines stay. */
  lemma ButtonExactly(lines: seq<string>, columns: nat)
    requires WithButton(lines, columns).Some?
    ensures var shown := WithButton(lines, columns).value;
      && |shown| == |lines| && (forall k :: 1 <= k < |shown| ==> shown[k] == lines[k])
      && (lines != [] && columns < 3 ==> shown[0] == lines[0])
      && (lines != [] && columns >= 3 ==>
            && |shown[0]| >= 3 && shown[0][|shown[0]| - 3..] == "[X]"
            && shown[0][..|shown[0]| - 3] <= lines[0])
  {
    hide Truncated;
    if lines != [] && columns >= 3 {
      TruncatedIsPrefix(lines[0], columns - 3);
      var first := Truncated(lines[0], columns - 3).value;
      assert (first + CLOSE_BUTTON)[..|first|] == first && (first + CLOSE_BUTTON)[|first|..] == CLOSE_BUTTON;
    }
  }

  lemma TruncatedIsPrefix(text: string, bytes: nat)
    ensures Truncated(text, bytes).Some? ==> Truncated(text, bytes).value <= text
  {
    PrefixExactly(text, bytes);
  }
}
