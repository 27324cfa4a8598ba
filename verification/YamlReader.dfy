/** The double-quoted scalar reader of the bundle's YAML loader. */
module YamlReader {
  import opened CodeUnits
  import opened Options
  import opened YamlText

  // ---- What the reader computes, as a function of the input and the place it starts ----

  /** The reader's place in the input: where it is, and what it knows of the current line. */
  datatype Cursor = Cursor(position: nat, line: nat, lineStart: nat, lineIndent: nat, firstTabInLine: int) {
    function Advance(k: nat): Cursor {
      this.(position := position + k)
    }
  }

  datatype Scanned = Finished(cursor: Cursor, result: Text) | Failed(message: string)

  /** `charCodeAt`: NaN past the end is modelled by -1, which equals no code unit. */
  function At(input: Text, i: nat): (c: int)
    ensures -1 <= c < 0x1_0000
  {
    if i < |input| then input[i] else -1
  }

  /** The loader ends every input with a NUL, and the reader never steps over one. */
  predicate Terminated(input: Text, position: nat) {
    position < |input| && input[|input| - 1] == 0
  }

  predicate IsEol(c: int) {
    c == 10 || c == 13
  }

  predicate IsWhiteSpace(c: int) {
    c == 9 || c == 32
  }

  function AfterLineBreak(input: Text, c: Cursor): (d: Cursor)
    requires Terminated(input, c.position) && IsEol(input[c.position])
    ensures c.position < d.position && Terminated(input, d.position)
  {
    var p := c.position + if input[c.position] == 13 && At(input, c.position + 1) == 10 then 2 else 1;
    c.(position := p, line := c.line + 1, lineStart := p, firstTabInLine := -1)
  }

  function AfterWhiteSpace(input: Text, c: Cursor): (d: Cursor)
    requires Terminated(input, c.position)
    ensures c.position <= d.position && Terminated(input, d.position)
    ensures c.position < d.position ==> IsWhiteSpace(input[c.position])
    decreases |input| - c.position
  {
    if !IsWhiteSpace(input[c.position]) then c
    else
      var tab := if input[c.position] == 9 && c.firstTabInLine == -1 then c.position else c.firstTabInLine;
      AfterWhiteSpace(input, c.Advance(1).(firstTabInLine := tab))
  }

  function AfterIndent(input: Text, c: Cursor): (d: Cursor)
    requires Terminated(input, c.position)
    ensures c.position <= d.position && Terminated(input, d.position)
    decreases |input| - c.position
  {
    if input[c.position] != 32 then c else AfterIndent(input, c.Advance(1).(lineIndent := c.lineIndent + 1))
  }

  /** The end of a comment's line. */
  function AfterComment(input: Text, c: Cursor): (d: Cursor)
    requires Terminated(input, c.position)
    ensures c.position <= d.position && Terminated(input, d.position)
    decreases |input| - c.position
  {
    if input[c.position] == 0 || IsEol(input[c.position]) then c else AfterComment(input, c.Advance(1))
  }

  /** Where a line ends: after its white space, and a comment if there may be one. */
  function LineEnd(input: Text, c: Cursor, comments: bool): (d: Cursor)
    requires Terminated(input, c.position)
    ensures c.position <= d.position && Terminated(input, d.position)
    ensures IsEol(input[c.position]) ==> d == c
  {
    var w := AfterWhiteSpace(input, c);
    if comments && input[w.position] == 35 then AfterComment(input, w) else w
  }

  /** `skipSeparationSpace`, with or without comments: the place after it, and the line breaks passed. */
  function Skipped(input: Text, c: Cursor, comments: bool): (r: (Cursor, nat))
    requires Terminated(input, c.position)
    ensures c.position <= r.0.position && Terminated(input, r.0.position)
    ensures IsEol(input[c.position]) ==> c.position < r.0.position
    decreases |input| - c.position
  {
    var d := LineEnd(input, c, comments);
    if input[c.position] == 0 || !IsEol(input[d.position]) then (d, 0)
    else
      var r := Skipped(input, AfterIndent(input, AfterLineBreak(input, d).(lineIndent := 0)), comments);
      (r.0, r.1 + 1)
  }

  /** One turn of its loop. */
  lemma SkipTurn(input: Text, c: Cursor, comments: bool)
    requires Terminated(input, c.position)
    ensures var d := LineEnd(input, c, comments);
            Skipped(input, c, comments) ==
            if input[c.position] == 0 || !IsEol(input[d.position]) then (d, 0)
            else
              var r := Skipped(input, AfterIndent(input, AfterLineBreak(input, d).(lineIndent := 0)), comments);
              (r.0, r.1 + 1)
    ensures input[c.position] == 0 ==> LineEnd(input, c, comments) == c
  {}

  /** `writeFoldedLines`: one line break folds to a space, more leave one less. */
  function Folded(breaks: nat): Text {
    if breaks == 0 then [] else if breaks == 1 then [32] else LineFeeds(breaks - 1)
  }

  function LineFeeds(n: nat): Text {
    if n == 0 then [] else [10] + LineFeeds(n - 1)
  }

  /** A line of three dashes or dots, ended by a space, a line break or the end. */
  predicate DocumentSeparator(input: Text, p: nat) {
    var c := At(input, p);
    && (c == 45 || c == 46) && At(input, p + 1) == c && At(input, p + 2) == c
    && var after := At(input, p + 3);
       after == 0 || IsWhiteSpace(after) || IsEol(after)
  }

  predicate ValidJson(input: Text, start: nat, end: nat)
    requires end <= |input|
  {
    forall i | start <= i < end :: input[i] == 9 || 32 <= input[i]
  }

  /** What the loader's pattern for non-printable characters finds: most controls, and lone surrogates. */
  predicate NonPrintableAt(s: Text, i: nat)
    requires i < |s|
  {
    var u := s[i];
    || u <= 8 || u == 11 || u == 12 || 14 <= u <= 31 || 127 <= u <= 132 || 134 <= u <= 159
    || u == 0xFFFE || u == 0xFFFF
    || (IsHigh(u) && !(i + 1 < |s| && IsLow(s[i + 1])))
    || (IsLow(u) && !(i > 0 && IsHigh(s[i - 1])))
  }

  predicate HasNonPrintable(s: Text) {
    exists i | 0 <= i < |s| :: NonPrintableAt(s, i)
  }

  /** `captureSegment`, with or without the JSON check. */
  function Captured(result: Text, input: Text, start: nat, end: nat, checkJson: bool): Option<Text>
    requires end <= |input|
  {
    if start >= end then Some(result)
    else if if checkJson then ValidJson(input, start, end) else !HasNonPrintable(input[start..end])
    then Some(result + input[start..end])
    else None
  }

  /** `simpleEscapeSequence`; no character for letters that are not such an escape. */
  function SimpleEscape(c: int): Option<CodeUnit> {
    match c
    case 48 => Some(0)
    case 97 => Some(7)
    case 98 => Some(8)
    case 116 => Some(9)
    case 9 => Some(9)
    case 110 => Some(10)
    case 118 => Some(11)
    case 102 => Some(12)
    case 114 => Some(13)
    case 101 => Some(27)
    case 32 => Some(32)
    case 34 => Some(34)
    case 47 => Some(47)
    case 92 => Some(92)
    case 78 => Some(133)
    case 95 => Some(160)
    case 76 => Some(8232)
    case 80 => Some(8233)
    case _ => None
  }

  function HexLength(c: int): nat {
    if c == 120 then 2 else if c == 117 then 4 else if c == 85 then 8 else 0
  }

  /** `<< 4` on a 32-bit signed integer. */
  function ShiftLeft4(x: int): int {
    var r := x * 16 % 0x1_0000_0000;
    if r >= 0x8000_0000 then r - 0x1_0000_0000 else r
  }

  /** The value of the next `count` hexadecimal characters after `p`. */
  function HexRead(input: Text, p: nat, count: nat, value: int): (r: Option<int>)
    ensures r.Some? ==> p + count < |input| || count == 0
    ensures r.Some? ==> forall i | p < i <= p + count :: DigitValue(At(input, i)) >= 0
    decreases count
  {
    if count == 0 then Some(value)
    else
      var digit := DigitValue(At(input, p + 1));
      if digit < 0 then None else HexRead(input, p + 1, count - 1, ShiftLeft4(value) + digit)
  }

  /** `charFromCodepoint`: `fromCharCode` keeps the low 16 bits of its arguments. */
  function CharFromCodepoint(n: int): Text {
    if n <= 0xFFFF then [n % 0x1_0000]
    else [(0xD800 + (n - 0x1_0000) / 1024) % 0x1_0000, (0xDC00 + (n - 0x1_0000) % 1024) % 0x1_0000]
  }

  /** The reader's loop from `c` on, with the raw text from `start` still to be captured. */
  function Scan(input: Text, c: Cursor, start: nat, end: nat, result: Text): Scanned
    requires Terminated(input, c.position) && start <= end <= c.position
    decreases |input| - c.position, 2
  {
    var ch := input[c.position];
    if ch == 0 then Failed("unexpected end of the stream within a double quoted scalar")
    else if ch == QUOTE then
      var captured := Captured(result, input, start, c.position, true);
      if captured.None? then Failed("expected valid JSON character") else Finished(c.Advance(1), captured.value)
    else if ch == BACKSLASH then
      var captured := Captured(result, input, start, c.position, true);
      if captured.None? then Failed("expected valid JSON character")
      else ScanEscape(input, c.Advance(1), captured.value)
    else if IsEol(ch) then ScanLineBreak(input, c, start, end, result)
    else ScanPlain(input, c, start, result)
  }

  /** One turn of the loop. */
  lemma ScanTurn(input: Text, c: Cursor, start: nat, end: nat, result: Text)
    requires Terminated(input, c.position) && start <= end <= c.position
    ensures var ch, captured := input[c.position], Captured(result, input, start, c.position, true);
            Scan(input, c, start, end, result) ==
            if ch == 0 then Failed("unexpected end of the stream within a double quoted scalar")
            else if (ch == QUOTE || ch == BACKSLASH) && captured.None? then Failed("expected valid JSON character")
            else if ch == QUOTE then Finished(c.Advance(1), captured.value)
            else if ch == BACKSLASH then ScanEscape(input, c.Advance(1), captured.value)
            else if IsEol(ch) then ScanLineBreak(input, c, start, end, result)
            else ScanPlain(input, c, start, result)
  {
    hide Captured, ScanEscape, ScanLineBreak, ScanPlain;
  }

  /** The loop's branch for a line break: white space before it stays in the segment, white space after it is skipped. */
  function ScanLineBreak(input: Text, c: Cursor, start: nat, end: nat, result: Text): Scanned
    requires Terminated(input, c.position) && start <= end <= c.position && IsEol(input[c.position])
    decreases |input| - c.position, 1
  {
    var captured := Captured(result, input, start, end, true);
    if captured.None? then Failed("expected valid JSON character")
    else
      var (d, breaks) := Skipped(input, c, false);
      Scan(input, d, d.position, d.position, captured.value + Folded(breaks))
  }

  /** The loop's branch for any other character. */
  function ScanPlain(input: Text, c: Cursor, start: nat, result: Text): Scanned
    requires Terminated(input, c.position) && start <= c.position && input[c.position] != 0
    decreases |input| - c.position, 1
  {
    if c.position == c.lineStart && DocumentSeparator(input, c.position) then
      Failed("unexpected end of the document within a double quoted scalar")
    else Scan(input, c.Advance(1), start, c.position + 1, result)
  }

  /** The loop's branch for a backslash, from the character after it on. */
  function ScanEscape(input: Text, c: Cursor, result: Text): Scanned
    requires Terminated(input, c.position)
    decreases |input| - c.position, 1
  {
    var ch := input[c.position];
    if IsEol(ch) then
      var d := Skipped(input, c, false).0;
      Scan(input, d, d.position, d.position, result)
    else if ch < 256 && SimpleEscape(ch).Some? then
      Scan(input, c.Advance(1), c.position + 1, c.position + 1, result + [SimpleEscape(ch).value])
    else if HexLength(ch) > 0 then ScanHex(input, c, HexLength(ch), result)
    else Failed("unknown escape sequence")
  }

  function ScanHex(input: Text, c: Cursor, width: nat, result: Text): Scanned
    requires Terminated(input, c.position) && width > 0
    decreases |input| - c.position, 0
  {
    var n := HexRead(input, c.position, width, 0);
    if n.None? then Failed("expected hexadecimal character")
    else
      LastIsNotHex(input, c.position, width);
      var p := c.position + width + 1;
      Scan(input, c.(position := p), p, p, result + CharFromCodepoint(n.value))
  }

  lemma LastIsNotHex(input: Text, p: nat, count: nat)
    requires Terminated(input, p) && count > 0 && p + count < |input|
    requires forall i | p < i <= p + count :: DigitValue(At(input, i)) >= 0
    ensures Terminated(input, p + count + 1)
  {
    assert DigitValue(At(input, p + count)) >= 0;
  }

  /** `readDoubleQuotedScalar`; `None` when the input does not start with a quote here. */
  function Read(input: Text, c: Cursor): Option<Scanned>
    requires Terminated(input, c.position)
  {
    if input[c.position] != QUOTE then None
    else Some(Scan(input, c.Advance(1), c.position + 1, c.position + 1, []))
  }
}
