/**
 The prompt before an unsafe paste: what it counts and previews agrees with what the paste writes.

 Text is a sequence of Unicode characters.
 */
module Paste {
  import opened Wrappers

  const PREVIEW_LINES: nat := 6
  const PREVIEW_LINE_CHARS: nat := 256

  /** C0 and C1 control characters and DEL. */
  predicate IsControl(c: char) {
    (c as int) < 0x20 || 0x7f <= c as int < 0xa0
  }

  predicate IsBreak(c: char) {
    c == '\n' || c == '\r'
  }

  /** A control character that is neither a tab nor a line break. */
  predicate IsKey(c: char) {
    IsControl(c) && c != '\t' && !IsBreak(c)
  }

  predicate IsUnsafe(text: string) {
    exists i :: 0 <= i < |text| && IsControl(text[i]) && text[i] != '\t'
  }

  // ---------------------------------------------------------------------------------------------
  // What an unbracketed paste writes
  // ---------------------------------------------------------------------------------------------

  function ReplaceCrLf(text: string): string {
    if |text| >= 2 && text[0] == '\r' && text[1] == '\n' then "\r" + ReplaceCrLf(text[2..])
    else if text == "" then ""
    else [text[0]] + ReplaceCrLf(text[1..])
  }

  function ReplaceLf(text: string): string {
    if text == "" then "" else [if text[0] == '\n' then '\r' else text[0]] + ReplaceLf(text[1..])
  }

  function Payload(text: string): string {
    ReplaceLf(ReplaceCrLf(text))
  }

  function CountReturns(text: string): nat {
    if text == "" then 0 else (if text[0] == '\r' then 1 else 0) + CountReturns(text[1..])
  }

  function CountKeys(text: string): nat {
    if text == "" then 0 else (if IsKey(text[0]) then 1 else 0) + CountKeys(text[1..])
  }

  // ---------------------------------------------------------------------------------------------
  // What the prompt shows
  // ---------------------------------------------------------------------------------------------

  /** A character shown as exactly what it is. */
  function Visible(c: char): string {
    if c == '\t' then "    "
    else if (c as int) < 0x20 then [(0x2400 + c as int) as char]
    else if c as int == 0x7f then "\U{2421}"
    else if 0x80 <= c as int <= 0x9f || c as int == 0x61c || c as int == 0x200e || c as int == 0x200f
            || 0x202a <= c as int <= 0x202e || 0x2066 <= c as int <= 0x2069 then "\U{fffd}"
    else [c]
  }

  function VisibleText(text: string): string {
    if text == "" then "" else VisibleText(text[..|text| - 1]) + Visible(text[|text| - 1])
  }

  function Shown(line: string): string {
    VisibleText(line[..Min(|line|, PREVIEW_LINE_CHARS)])
  }

  /** How many characters come before the first line break. */
  function LineLength(text: string): (n: nat)
    ensures n <= |text|
    ensures n < |text| ==> IsBreak(text[n])
    ensures forall i :: 0 <= i < n ==> !IsBreak(text[i])
  {
    if text == "" || IsBreak(text[0]) then 0 else 1 + LineLength(text[1..])
  }

  /** CR LF is one break. */
  function BreakLength(text: string): (n: nat)
    requires text != "" && IsBreak(text[0])
    ensures 1 <= n <= |text|
  {
    if |text| >= 2 && text[0] == '\r' && text[1] == '\n' then 2 else 1
  }

  /** The lines of a text; a final break does not start another. */
  function Lines(text: string): seq<string> {
    if text == "" then [] else
      var n := LineLength(text);
      if n == |text| then [text] else [text[..n]] + Lines(text[n + BreakLength(text[n..])..])
  }

  function ShownLines(lines: seq<string>): seq<string> {
    seq(|lines|, i requires 0 <= i < |lines| => Shown(lines[i]))
  }

  function Preview(lines: seq<string>): seq<string> {
    ShownLines(lines[..Min(|lines|, PREVIEW_LINES)])
  }

  function Breaks(text: string): nat {
    if text == "" then 0
    else if IsBreak(text[0]) then 1 + Breaks(text[BreakLength(text)..])
    else Breaks(text[1..])
  }

  datatype Prompt = Prompt(preview: seq<string>, lines: nat, lineBreaks: nat, controls: nat)

  /** What the prompt for a text says about it. */
  function PromptFor(text: string): Prompt {
    Prompt(Preview(Lines(text)), |Lines(text)|, Breaks(text), CountKeys(text))
  }

  /** How many lines are counted but not previewed. */
  function HiddenLines(prompt: Prompt): nat {
    if prompt.lines >= |prompt.preview| then prompt.lines - |prompt.preview| else 0
  }

  /** The loop over the text with its counters and its half-built preview line. */
  method NewPrompt(text: string) returns (prompt: Prompt)
    ensures prompt == PromptFor(text)
  {
    hide Lines, Breaks, CountKeys, Preview, Shown, Visible, BreakLength;
    var preview, current, currentChars, atLineStart := [], "", 0, true;
    var lines, lineBreaks, controls := 0, 0, 0;
    var i := 0;
    ghost var done: seq<string> := [];
    ghost var line := "";
    NothingShown();
    assert text[0..] == text && "" + text == text;
    while i < |text|
      invariant i <= |text|
      invariant done + Lines(line + text[i..]) == Lines(text)
      invariant NoBreak(line)
      invariant lines == |done| && preview == Preview(done)
      invariant atLineStart <==> line == ""
      invariant |preview| < PREVIEW_LINES ==> current == Shown(line) && currentChars == Min(|line|, PREVIEW_LINE_CHARS)
      invariant lineBreaks + Breaks(text[i..]) == Breaks(text)
      invariant controls + CountKeys(text[i..]) == CountKeys(text)
      decreases |text| - i
    {
      var character := text[i];
      PreviewAppend(done, line);
      if IsBreak(character) {
        AtBreak(text, i, done, line);
        i := i + 1;
        if character == '\r' && i < |text| && text[i] == '\n' {
          i := i + 1;
        }
        lineBreaks := lineBreaks + 1;
        lines := lines + 1;
        if |preview| < PREVIEW_LINES {
          preview := preview + [current];
          current := "";
        }
        done := done + [line];
        line := "";
        NothingShown();
        currentChars := 0;
        atLineStart := true;
      } else {
        atLineStart := false;
        AtCharacter(text, i, line);
        if IsControl(character) && character != '\t' {
          controls := controls + 1;
        }
        ShownAppend(line, character);
        if |preview| < PREVIEW_LINES && currentChars < PREVIEW_LINE_CHARS {
          current := current + Visible(character);
          currentChars := currentChars + 1;
        }
        line := line + [character];
        i := i + 1;
      }
    }
    assert text[i..] == "" && line + "" == line;
    NothingShown();
    LastLine(line);
    PreviewAppend(done, line);
    if !atLineStart {
      lines := lines + 1;
      if |preview| < PREVIEW_LINES {
        preview := preview + [current];
      }
    } else {
      assert done + [] == done;
    }
    prompt := Prompt(preview, lines, lineBreaks, controls);
  }

  predicate NoBreak(line: string) {
    forall k :: 0 <= k < |line| ==> !IsBreak(line[k])
  }

  lemma NothingShown()
    ensures Preview([]) == [] && Shown("") == "" && Breaks("") == 0 && CountKeys("") == 0
  {
  }

  /** The loop's turn at a line break. */
  lemma AtBreak(text: string, i: nat, done: seq<string>, line: string)
    requires i < |text| && IsBreak(text[i]) && NoBreak(line)
    requires done + Lines(line + text[i..]) == Lines(text)
    ensures var next := i + (if text[i] == '\r' && i + 1 < |text| && text[i + 1] == '\n' then 2 else 1);
      && next <= |text|
      && (done + [line]) + Lines("" + text[next..]) == Lines(text)
      && Breaks(text[i..]) == 1 + Breaks(text[next..])
      && CountKeys(text[i..]) == CountKeys(text[next..])
  {
    hide Lines, CountKeys;
    var rest := text[i..];
    var width := BreakLength(rest);
    EndLine(line, rest);
    KeysSkipBreak(rest);
    assert rest[width..] == text[i + width..] && "" + text[i + width..] == text[i + width..];
  }

  /** The loop's turn at any other character. */
  lemma AtCharacter(text: string, i: nat, line: string)
    requires i < |text| && !IsBreak(text[i])
    ensures (line + [text[i]]) + text[i + 1..] == line + text[i..]
    ensures Breaks(text[i..]) == Breaks(text[i + 1..])
    ensures CountKeys(text[i..]) == CountKeys(text[i + 1..]) + (if IsControl(text[i]) && text[i] != '\t' then 1 else 0)
    ensures NoBreak(line) ==> NoBreak(line + [text[i]])
  {
    assert text[i..][1..] == text[i + 1..];
  }

  /** A break ends the line in front of it. */
  lemma EndLine(line: string, rest: string)
    requires NoBreak(line)
    requires rest != "" && IsBreak(rest[0])
    ensures Lines(line + rest) == [line] + Lines(rest[BreakLength(rest)..])
  {
    LineLengthAt(line, rest);
    assert (line + rest)[|line|..] == rest;
    assert (line + rest)[|line| + BreakLength(rest)..] == rest[BreakLength(rest)..];
  }

  lemma {:induction false} LineLengthAt(line: string, rest: string)
    requires NoBreak(line)
    requires rest == "" || IsBreak(rest[0])
    ensures LineLength(line + rest) == |line|
    decreases |line|
  {
    if line == "" {
      assert line + rest == rest;
    } else {
      assert (line + rest)[1..] == line[1..] + rest;
      LineLengthAt(line[1..], rest);
    }
  }

  lemma LastLine(line: string)
    requires NoBreak(line)
    ensures Lines(line) == if line == "" then [] else [line]
  {
    assert line + "" == line;
    LineLengthAt(line, "");
  }

  lemma KeysSkipBreak(rest: string)
    requires rest != "" && IsBreak(rest[0])
    ensures CountKeys(rest) == CountKeys(rest[BreakLength(rest)..])
  {
    if BreakLength(rest) == 2 {
      assert rest[1..][1..] == rest[2..];
    }
  }

  lemma PreviewAppend(done: seq<string>, line: string)
    ensures Preview(done + [line]) == if |done| < PREVIEW_LINES then Preview(done) + [Shown(line)] else Preview(done)
    ensures |Preview(done)| == Min(|done|, PREVIEW_LINES)
  {
    if |done| >= PREVIEW_LINES {
      assert (done + [line])[..PREVIEW_LINES] == done[..PREVIEW_LINES];
    }
  }

  lemma ShownAppend(line: string, c: char)
    ensures Shown(line + [c]) == if |line| < PREVIEW_LINE_CHARS then Shown(line) + Visible(c) else Shown(line)
  {
    var more := line + [c];
    if |line| < PREVIEW_LINE_CHARS {
      assert more[..|more|] == more && more[..|line|] == line && line[..|line|] == line;
    } else {
      assert more[..PREVIEW_LINE_CHARS] == line[..PREVIEW_LINE_CHARS];
    }
  }

  // ---------------------------------------------------------------------------------------------
  // Agreement with the paste
  // ---------------------------------------------------------------------------------------------

  /** The prompt's line breaks are the Enters the paste presses. */
  lemma {:induction false} BreaksAreReturns(text: string)
    ensures Breaks(text) == CountReturns(Payload(text))
    decreases |text|
  {
    if text != "" {
      if IsBreak(text[0]) {
        BreaksAreReturns(text[BreakLength(text)..]);
      } else {
        BreaksAreReturns(text[1..]);
      }
      PayloadStep(text);
    }
  }

  /** What the paste writes for the front of a text. */
  lemma PayloadStep(text: string)
    requires text != ""
    ensures Payload(text) == if IsBreak(text[0]) then "\r" + Payload(text[BreakLength(text)..])
                             else [text[0]] + Payload(text[1..])
  {
    var width := if IsBreak(text[0]) then BreakLength(text) else 1;
    var first := if text[0] == '\r' then '\r' else text[0];
    var rest := ReplaceCrLf(text[width..]);
    assert ReplaceCrLf(text) == [first] + rest;
    assert ([first] + rest)[1..] == rest;
  }

  /** The prompt's control characters are the other keystrokes the paste produces. */
  lemma {:induction false} KeysAreWritten(text: string)
    ensures CountKeys(text) == CountKeys(Payload(text))
    decreases |text|
  {
    if text != "" {
      PayloadStep(text);
      if IsBreak(text[0]) {
        KeysSkipBreak(text);
        KeysAreWritten(text[BreakLength(text)..]);
        assert ("\r" + Payload(text[BreakLength(text)..]))[1..] == Payload(text[BreakLength(text)..]);
      } else {
        KeysAreWritten(text[1..]);
        assert ([text[0]] + Payload(text[1..]))[1..] == Payload(text[1..]);
      }
    }
  }

  /** A paste is unsafe exactly when it would press Enter or another key. */
  lemma {:induction false} UnsafeExactlyWhenCounted(text: string)
    ensures IsUnsafe(text) <==> Breaks(text) + CountKeys(text) > 0
    decreases |text|
  {
    if text != "" {
      if IsBreak(text[0]) {
        assert IsControl(text[0]);
      } else {
        UnsafeExactlyWhenCounted(text[1..]);
        assert IsUnsafe(text[1..]) ==> IsUnsafe(text) by {
          if IsUnsafe(text[1..]) {
            var i :| 0 <= i < |text[1..]| && IsControl(text[1..][i]) && text[1..][i] != '\t';
            assert text[i + 1] == text[1..][i];
          }
        }
        if IsUnsafe(text) && !IsKey(text[0]) {
          var i :| 0 <= i < |text| && IsControl(text[i]) && text[i] != '\t';
          assert text[1..][i - 1] == text[i];
        }
      }
    }
  }

  /** The preview shows the first six lines, in order, and every other line is counted as hidden. */
  lemma PreviewLength(text: string)
    ensures var prompt := PromptFor(text);
      && |prompt.preview| == (if |Lines(text)| <= 6 then |Lines(text)| else 6)
      && |prompt.preview| + HiddenLines(prompt) == |Lines(text)|
      && (forall i :: 0 <= i < |prompt.preview| ==>
            var line := Lines(text)[i]; prompt.preview[i] == VisibleText(if |line| > 256 then line[..256] else line))
      && prompt.lineBreaks <= prompt.lines <= prompt.lineBreaks + 1
  {
    hide Lines, Shown;
    forall i | 0 <= i < |Lines(text)|
      ensures var line := Lines(text)[i]; Shown(line) == VisibleText(if |line| > 256 then line[..256] else line)
    {
      ShownExactly(Lines(text)[i]);
    }
    LinesAndBreaks(text);
  }

  lemma {:induction false} LinesAndBreaks(text: string)
    ensures Breaks(text) <= |Lines(text)| <= Breaks(text) + 1
    decreases |text|
  {
    if text != "" {
      var n := LineLength(text);
      BreaksSkipLine(text, n);
      if n < |text| {
        assert text[n..][BreakLength(text[n..])..] == text[n + BreakLength(text[n..])..];
        LinesAndBreaks(text[n + BreakLength(text[n..])..]);
      }
    }
  }

  lemma {:induction false} BreaksSkipLine(text: string, n: nat)
    requires n <= |text| && forall i :: 0 <= i < n ==> !IsBreak(text[i])
    ensures Breaks(text) == Breaks(text[n..])
    decreases n
  {
    if n == 0 {
      assert text[0..] == text;
    } else {
      assert text[1..][n - 1..] == text[n..];
      BreaksSkipLine(text[1..], n - 1);
    }
  }

  /** What the paste writes, without its Enters, and what was pasted, without its line breaks, are the same. */
  function WithoutBreaks(text: string): string {
    if text == "" then "" else (if IsBreak(text[0]) then "" else [text[0]]) + WithoutBreaks(text[1..])
  }

  lemma {:induction false} OthersAreWritten(text: string)
    ensures WithoutBreaks(Payload(text)) == WithoutBreaks(text)
    ensures '\n' !in Payload(text)
    decreases |text|
  {
    if text != "" {
      PayloadStep(text);
      if IsBreak(text[0]) {
        var rest := text[BreakLength(text)..];
        OthersAreWritten(rest);
        assert ("\r" + Payload(rest))[1..] == Payload(rest);
        if BreakLength(text) == 2 {
          assert text[1..][1..] == rest;
        }
      } else {
        OthersAreWritten(text[1..]);
        assert ([text[0]] + Payload(text[1..]))[1..] == Payload(text[1..]);
      }
    }
  }

  /** The marks and overrides that could make a preview read in another order than it is typed. */
  predicate IsDirectional(c: char) {
    c in {'\U{61c}', '\U{200e}', '\U{200f}', '\U{202a}', '\U{202b}', '\U{202c}', '\U{202d}', '\U{202e}',
          '\U{2066}', '\U{2067}', '\U{2068}', '\U{2069}'}
  }

  /** The preview shows no control and no directional character as such, and any other character as itself. */
  lemma VisibleIsHarmless(c: char)
    ensures Visible(c) != "" && forall x :: x in Visible(c) ==> !IsControl(x) && !IsDirectional(x)
    ensures !IsControl(c) && !IsDirectional(c) ==> Visible(c) == [c]
    ensures c as int < 0x20 && c != '\t' ==> Visible(c) == [(0x2400 + c as int) as char]
    ensures c == '\t' ==> Visible(c) == "    "
    ensures c == '\U{7f}' ==> Visible(c) == "\U{2421}"
    ensures (0x80 <= c as int < 0xa0) || IsDirectional(c) ==> Visible(c) == "\U{fffd}"
  {
  }

  lemma ShownExactly(line: string)
    ensures Shown(line) == VisibleText(if |line| > 256 then line[..256] else line)
  {
    assert line[..|line|] == line;
  }
}
