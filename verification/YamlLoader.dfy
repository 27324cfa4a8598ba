/** The loader's state and the methods that read a double-quoted scalar by changing it in place. */
module YamlLoader {
  import opened CodeUnits
  import opened Options
  import opened YamlText
  import opened YamlReader
  import opened YamlScalars
  import opened YamlReading
  import opened YamlFolding

  class ReaderState {
    const input: Text
    var position: nat
    var line: nat
    var lineStart: nat
    var lineIndent: nat
    var firstTabInLine: int
    var result: Text

    /** The loader ends the text with a NUL before it reads any of it. */
    constructor (text: Text)
      ensures input == text + [0] && Terminated(input, position)
      ensures Here() == Cursor(0, 0, 0, 0, -1) && result == []
    {
      input := text + [0];
      position, line, lineStart, lineIndent, firstTabInLine, result := 0, 0, 0, 0, -1, [];
    }

    function Here(): Cursor
      reads this
    {
      Cursor(position, line, lineStart, lineIndent, firstTabInLine)
    }

    method ReadLineBreak() returns (ok: bool)
      requires Terminated(input, position)
      modifies `position, `line, `lineStart, `firstTabInLine
      ensures ok <==> IsEol(old(input[position]))
      ensures ok ==> Here() == AfterLineBreak(input, old(Here()))
    {
      if input[position] == 10 {
        position := position + 1;
      } else if input[position] == 13 {
        position := position + 1;
        if At(input, position) == 10 {
          position := position + 1;
        }
      } else {
        return false;
      }
      line := line + 1;
      lineStart := position;
      firstTabInLine := -1;
      ok := true;
    }

    method SkipWhiteSpace()
      requires Terminated(input, position)
      modifies `position, `firstTabInLine
      ensures Here() == AfterWhiteSpace(input, old(Here()))
    {
      while IsWhiteSpace(input[position])
        invariant Terminated(input, position)
        invariant AfterWhiteSpace(input, Here()) == AfterWhiteSpace(input, old(Here()))
        decreases |input| - position
      {
        if input[position] == 9 && firstTabInLine == -1 {
          firstTabInLine := position;
        }
        position := position + 1;
      }
    }

    method SkipIndent()
      requires Terminated(input, position)
      modifies `position, `lineIndent
      ensures Here() == AfterIndent(input, old(Here()).(lineIndent := 0))
    {
      lineIndent := 0;
      while input[position] == 32
        invariant Terminated(input, position)
        invariant AfterIndent(input, Here()) == AfterIndent(input, old(Here()).(lineIndent := 0))
        decreases |input| - position
      {
        lineIndent := lineIndent + 1;
        position := position + 1;
      }
    }

    method SkipComment()
      requires Terminated(input, position) && input[position] == 35
      modifies `position
      ensures Here() == AfterComment(input, old(Here()))
    {
      position := position + 1;
      while input[position] != 10 && input[position] != 13 && input[position] != 0
        invariant Terminated(input, position)
        invariant AfterComment(input, Here()) == AfterComment(input, old(Here()))
        decreases |input| - position
      {
        position := position + 1;
      }
    }

    method SkipToLineEnd(allowComments: bool)
      requires Terminated(input, position)
      modifies `position, `firstTabInLine
      ensures Here() == LineEnd(input, old(Here()), allowComments)
    {
      hide AfterWhiteSpace, AfterComment;
      SkipWhiteSpace();
      if allowComments && input[position] == 35 {
        SkipComment();
      }
    }

    method SkipSeparationSpace(allowComments: bool) returns (breaks: nat)
      requires Terminated(input, position)
      modifies `position, `line, `lineStart, `lineIndent, `firstTabInLine
      ensures (Here(), breaks) == Skipped(input, old(Here()), allowComments)
    {
      hide Skipped, LineEnd, AfterLineBreak, AfterIndent;
      breaks := 0;
      while input[position] != 0
        invariant Terminated(input, position)
        invariant var r := Skipped(input, Here(), allowComments);
                  Skipped(input, old(Here()), allowComments) == (r.0, breaks + r.1)
        decreases |input| - position
      {
        SkipTurn(input, Here(), allowComments);
        SkipToLineEnd(allowComments);
        if !IsEol(input[position]) {
          return;
        }
        var ok := ReadLineBreak();
        breaks := breaks + 1;
        SkipIndent();
      }
      SkipTurn(input, Here(), allowComments);
    }

    method WriteFoldedLines(breaks: nat)
      modifies `result
      ensures breaks == 0 ==> result == old(result)
      ensures breaks == 1 ==> result == old(result) + [32]
      ensures breaks > 1 ==> result == old(result) + seq(breaks - 1, _ => 10)
      ensures result == old(result) + Folded(breaks)
    {
      if breaks == 1 {
        result := result + [32];
      } else if breaks > 1 {
        var i := 0;
        while i < breaks - 1
          invariant 0 <= i <= breaks - 1
          invariant result + LineFeeds(breaks - 1 - i) == old(result) + LineFeeds(breaks - 1)
        {
          assert result + LineFeeds(breaks - 1 - i) == result + [10] + LineFeeds(breaks - 1 - (i + 1));
          result := result + [10];
          i := i + 1;
        }
        LineFeedsAre(breaks - 1);
      }
    }

    method CaptureSegment(start: nat, end: nat, checkJson: bool) returns (ok: bool)
      requires end <= |input|
      modifies `result
      ensures var captured := Captured(old(result), input, start, end, checkJson);
              ok == captured.Some? && (ok ==> result == captured.value)
    {
      if start >= end {
        return true;
      }
      if checkJson {
        var i := start;
        while i < end
          invariant start <= i <= end && ValidJson(input, start, i)
        {
          if !(input[i] == 9 || 32 <= input[i]) {
            return false;
          }
          i := i + 1;
        }
      } else if HasNonPrintable(input[start..end]) {
        return false;
      }
      result := result + input[start..end];
      ok := true;
    }

    /** The hexadecimal part of an escape, from its `x`, `u` or `U` on. */
    method ReadHex(width: nat) returns (n: Option<int>)
      requires Terminated(input, position) && width > 0
      modifies `position
      ensures n == HexRead(input, old(position), width, 0)
      ensures n.Some? ==> position == old(position) + width && Terminated(input, position + 1)
    {
      var value, left := 0, width;
      while left > 0
        invariant left <= width && position == old(position) + width - left
        invariant HexRead(input, old(position), width, 0) == HexRead(input, position, left, value)
      {
        position := position + 1;
        var digit := DigitValue(At(input, position));
        if digit < 0 {
          return None;
        }
        value := ShiftLeft4(value) + digit;
        left := left - 1;
      }
      LastIsNotHex(input, old(position), width);
      n := Some(value);
    }

    /** What follows a backslash. */
    method ReadEscape() returns (error: Option<string>)
      requires Terminated(input, position)
      modifies `position, `line, `lineStart, `lineIndent, `firstTabInLine, `result
      ensures error.None? ==> Terminated(input, position) && old(position) < position
      ensures ScanEscape(input, old(Here()), old(result)) ==
              if error.None? then Scan(input, Here(), position, position, result) else Failed(error.value)
    {
      hide Scan, HexRead;
      var ch := input[position];
      if IsEol(ch) {
        var breaks := SkipSeparationSpace(false);
      } else if ch < 256 && SimpleEscape(ch).Some? {
        result := result + [SimpleEscape(ch).value];
        position := position + 1;
      } else if HexLength(ch) > 0 {
        var n := ReadHex(HexLength(ch));
        if n.None? {
          return Some("expected hexadecimal character");
        }
        result := result + CharFromCodepoint(n.value);
        position := position + 1;
      } else {
        return Some("unknown escape sequence");
      }
      error := None;
    }

    /** The whole scalar: `None` when there is no quote here, else the outcome of reading it. */
    method ReadDoubleQuotedScalar() returns (outcome: Option<Scanned>)
      requires Terminated(input, position)
      modifies `position, `line, `lineStart, `lineIndent, `firstTabInLine, `result
      ensures outcome == Read(input, old(Here()))
      ensures outcome.None? ==> Here() == old(Here()) && result == old(result)
      ensures outcome.Some? && outcome.value.Finished? ==> outcome.value == Finished(Here(), result)
      ensures old(lineStart <= position) ==>
                (outcome.Some? && outcome.value.Finished? <==> exists items :: ScalarAt(input, old(position), items))
      ensures old(lineStart <= position) ==>
                forall items | ScalarAt(input, old(position), items) ::
                  result == Values(items) && position == old(position) + |Sources(items)| + 2
    {
      hide ScalarAt, IsScalar, Values, Sources, Read;
      if lineStart <= position {
        ReadsExactlyScalars(input, Here());
      }
      outcome := ReadScalar();
    }

    /** The reader's loop. */
    method ReadScalar() returns (outcome: Option<Scanned>)
      requires Terminated(input, position)
      modifies `position, `line, `lineStart, `lineIndent, `firstTabInLine, `result
      ensures outcome == Read(input, old(Here()))
      ensures outcome.None? ==> Here() == old(Here()) && result == old(result)
      ensures outcome.Some? && outcome.value.Finished? ==> outcome.value == Finished(Here(), result)
    {
      hide Captured, Scan, ScanEscape, Skipped, Folded, DocumentSeparator;
      if input[position] != QUOTE {
        return None;
      }
      ghost var whole := Scan(input, Here().Advance(1), position + 1, position + 1, []);
      result := [];
      position := position + 1;
      var start: nat, end: nat := position, position;
      while input[position] != 0
        invariant 0 <= start <= end <= position && Terminated(input, position)
        invariant Scan(input, Here(), start, end, result) == whole
        decreases |input| - position
      {
        var ch := input[position];
        ScanTurn(input, Here(), start, end, result);
        if ch == QUOTE {
          var ok := CaptureSegment(start, position, true);
          if !ok {
            return Some(Failed("expected valid JSON character"));
          }
          position := position + 1;
          return Some(Finished(Here(), result));
        }
        if ch == BACKSLASH {
          var ok := CaptureSegment(start, position, true);
          if !ok {
            return Some(Failed("expected valid JSON character"));
          }
          position := position + 1;
          var error := ReadEscape();
          if error.Some? {
            return Some(Failed(error.value));
          }
          start, end := position, position;
        } else if IsEol(ch) {
          var ok := CaptureSegment(start, end, true);
          if !ok {
            return Some(Failed("expected valid JSON character"));
          }
          var breaks := SkipSeparationSpace(false);
          WriteFoldedLines(breaks);
          start, end := position, position;
        } else if position == lineStart && DocumentSeparator(input, position) {
          return Some(Failed("unexpected end of the document within a double quoted scalar"));
        } else {
          position := position + 1;
          end := position;
        }
      }
      ScanTurn(input, Here(), start, end, result);
      return Some(Failed("unexpected end of the stream within a double quoted scalar"));
    }
  }
}
