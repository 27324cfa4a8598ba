/** The reader finishes exactly on the scalars, and gives what they stand for. */
module YamlReading {
  import opened CodeUnits
  import opened Options
  import opened YamlText
  import opened YamlReader
  import opened YamlRoundTrip
  import opened YamlScalars
  import opened YamlFolding

  // ---- Hexadecimal numbers of any width ----

  function Signed32(n: int): int {
    if n >= 0x8000_0000 then n - 0x1_0000_0000 else n
  }

  lemma ShiftAddsDigit(x: int, digit: int)
    requires 0 <= x < 0x1000_0000 && 0 <= digit < 16
    ensures ShiftLeft4(x) + digit == Signed32(16 * x + digit)
  {}

  lemma {:induction false} HexReadWide(input: Text, p: nat, t: Text)
    requires AllHex(t) && |t| <= 8 && p + |t| < |input| && input[p + 1..p + 1 + |t|] == t
    ensures HexRead(input, p, |t|, 0) == Some(Signed32(HexValue(t)))
  {
    if t == [] {
      assert HexValue(t) == 0;
    } else {
      hide DigitValue, HexRead, HexValue, AllHex;
      var front, last := t[..|t| - 1], t[|t| - 1];
      LastDigit(input, p, t);
      LastOfValue(t);
      HexReadWide(input, p, front);
      HexValueBound(front);
      Power16Of7(|front|);
      HexReadStep(input, p, |t|, HexValue(front), last);
    }
  }

  lemma HexReadStep(input: Text, p: nat, count: nat, n: nat, last: CodeUnit)
    requires count > 0 && At(input, p + count) == last && 0 <= DigitValue(last) < 16 && n < 0x1000_0000
    requires HexRead(input, p, count - 1, 0) == Some(Signed32(n))
    ensures HexRead(input, p, count, 0) == Some(Signed32(16 * n + DigitValue(last)))
  {
    hide HexRead, DigitValue, ShiftLeft4, Signed32;
    HexReadLast(input, p, count, 0);
    SmallIsSigned(n);
    ShiftAddsDigit(n, DigitValue(last));
  }

  lemma SmallIsSigned(n: int)
    requires n < 0x8000_0000
    ensures Signed32(n) == n
  {}

  lemma LastDigit(input: Text, p: nat, t: Text)
    requires t != [] && p + |t| < |input| && input[p + 1..p + 1 + |t|] == t
    ensures input[p + 1..p + 1 + |t[..|t| - 1]|] == t[..|t| - 1] && At(input, p + |t|) == t[|t| - 1]
  {
    var n := |t|;
    assert input[p + 1..p + 1 + n][..n - 1] == input[p + 1..p + n];
    assert input[p + 1..p + 1 + n][n - 1] == input[p + n];
  }

  lemma LastOfValue(t: Text)
    requires t != [] && AllHex(t)
    ensures HexValue(t) == 16 * HexValue(t[..|t| - 1]) + DigitValue(t[|t| - 1])
    ensures AllHex(t[..|t| - 1]) && 0 <= DigitValue(t[|t| - 1]) < 16
  {
    hide DigitValue;
  }

  lemma Power16Of7(k: nat)
    requires k <= 7
    ensures Power16(k) <= 0x1000_0000
  {
    hide Power16;
    PowerGrows(k, 7);
    Power16Is();
  }

  lemma Power16Is()
    ensures Power16(7) == 0x1000_0000
  {
    assert Power16(3) == 4096;
    assert Power16(5) == 0x10_0000;
  }

  lemma CodePointIsRead(n: nat)
    requires n < 0x1_0000_0000
    ensures CharFromCodepoint(Signed32(n)) == CodePointText(n)
  {
    if n >= 0x8000_0000 {
      LowBits(n - 0x1_0000_0000, n % 0x1_0000, n / 0x1_0000 - 0x1_0000);
    } else if n >= 0x1_0000 {
      var low := (n - 0x1_0000) % 1024;
      LowBits(0xDC00 + low, 0xDC00 + low, 0);
    }
  }

  lemma LowBits(n: int, r: nat, q: int)
    requires n == 0x1_0000 * q + r && r < 0x1_0000
    ensures n % 0x1_0000 == r
  {}

  // ---- One item ----

  /** The item stands in the input at `p`, and what follows does not belong to it. */
  predicate ItemAt(input: Text, p: nat, item: Item) {
    && IsItem(item) && p + |Source(item)| < |input| && input[p..p + |Source(item)|] == Source(item)
    && (item.Fold? || item.Join? ==> !IsBlank(input[p + |Source(item)|]))
  }

  /** The units since `start` are still to be captured, and may be. */
  predicate Ready(input: Text, c: Cursor, start: nat) {
    Terminated(input, c.position) && Placed(input, c) && start <= c.position && ValidJson(input, start, c.position)
  }

  predicate AtSeparator(input: Text, c: Cursor) {
    c.lineStart == c.position && DocumentSeparator(input, c.position)
  }

  /** The reader's place after the item. */
  function After(input: Text, c: Cursor, item: Item): (d: Cursor)
    requires Terminated(input, c.position) && ItemAt(input, c.position, item)
  {
    match item
    case Fold(_) => Skipped(input, c, false).0
    case Join(_) =>
      assert Terminated(input, c.position + 1);
      Skipped(input, c.Advance(1), false).0
    case _ => c.Advance(|Source(item)|)
  }

  lemma PlainStep(input: Text, c: Cursor, start: nat, result: Text)
    requires Terminated(input, c.position) && Placed(input, c) && start <= c.position && !AtSeparator(input, c)
    requires var u := input[c.position]; u != 0 && u != QUOTE && u != BACKSLASH && !IsEol(u)
    ensures var d := c.Advance(1);
            && Terminated(input, d.position) && Placed(input, d)
            && Scan(input, c, start, c.position, result) == Scan(input, d, start, d.position, result)
  {
    hide Scan, DocumentSeparator;
    ScanTurn(input, c, start, c.position, result);
  }

  lemma PlainIsRead(input: Text, c: Cursor, start: nat, result: Text, u: CodeUnit)
    requires Ready(input, c, start) && ItemAt(input, c.position, Plain(u)) && !AtSeparator(input, c)
    ensures var d := c.Advance(1);
            && Ready(input, d, start) && input[start..d.position] == input[start..c.position] + [u]
            && Scan(input, c, start, c.position, result) == Scan(input, d, start, d.position, result)
  {
    hide Scan, AtSeparator;
    assert input[c.position..c.position + 1][0] == u;
    PlainStep(input, c, start, result);
  }

  /** A backslash: the pending units are captured and the escape is read. */
  lemma EscapeStep(input: Text, c: Cursor, start: nat, result: Text)
    requires Ready(input, c, start) && input[c.position] == BACKSLASH
    ensures Terminated(input, c.position + 1) && Placed(input, c.Advance(1))
    ensures Scan(input, c, start, c.position, result) == ScanEscape(input, c.Advance(1), result + input[start..c.position])
  {
    hide Scan, ScanEscape, Captured, ValidJson;
    CapturedIs(result, input, start, c.position);
    ScanTurn(input, c, start, c.position, result);
  }

  lemma NamedIsRead(input: Text, c: Cursor, result: Text, letter: CodeUnit)
    requires Terminated(input, c.position) && input[c.position] == letter && Section57(letter).Some?
    ensures var d := c.Advance(1);
            && Terminated(input, d.position)
            && ScanEscape(input, c, result) == Scan(input, d, d.position, d.position, result + [Section57(letter).value])
  {
    hide Scan;
    EscapesAreStandard(letter);
  }

  lemma NumberedIsRead(input: Text, c: Cursor, result: Text, letter: CodeUnit, digits: Text)
    requires Terminated(input, c.position) && input[c.position] == letter
    requires IsItem(Numbered(letter, digits)) && c.position + |digits| < |input|
    requires input[c.position + 1..c.position + 1 + |digits|] == digits
    ensures var d := c.Advance(1 + |digits|);
            && Terminated(input, d.position)
            && ScanEscape(input, c, result) ==
               Scan(input, d, d.position, d.position, result + Value(Numbered(letter, digits)))
  {
    hide Scan, HexRead, SimpleEscape, Section57, HexValue, CodePointText, CharFromCodepoint;
    EscapesAreStandard(letter);
    LetterIsNotNamed(letter);
    HexReadWide(input, c.position, digits);
    NumberFits(digits);
    CodePointIsRead(HexValue(digits));
    assert ScanEscape(input, c, result) == ScanHex(input, c, |digits|, result);
  }

  lemma LetterIsNotNamed(letter: CodeUnit)
    requires Digits(letter) > 0
    ensures Section57(letter).None? && !IsEol(letter)
  {}

  lemma FoldIsRead(input: Text, c: Cursor, start: nat, result: Text, gap: Text)
    requires Ready(input, c, start) && ItemAt(input, c.position, Fold(gap))
    ensures var d := Skipped(input, c, false).0;
            && d.position == c.position + |gap| && Placed(input, d)
            && Scan(input, c, start, c.position, result) ==
               Scan(input, d, d.position, d.position, result + input[start..c.position] + Value(Fold(gap)))
  {
    hide Scan, ScanEscape, ScanPlain, Skipped, LineBreaks, Folded, Captured, ValidJson;
    GapAt(input, c, c.position, gap);
    CapturedIs(result, input, start, c.position);
    ScanTurn(input, c, start, c.position, result);
    FoldedIs(gap);
  }

  lemma JoinIsRead(input: Text, c: Cursor, result: Text, gap: Text)
    requires Terminated(input, c.position) && Placed(input, c) && ItemAt(input, c.position, Fold(gap))
    ensures var d := Skipped(input, c, false).0;
            && d.position == c.position + |gap| && Placed(input, d)
            && ScanEscape(input, c, result) == Scan(input, d, d.position, d.position, result)
  {
    hide Scan, Skipped, LineBreaks;
    GapAt(input, c, c.position, gap);
  }

  lemma GapAt(input: Text, c: Cursor, p: nat, gap: Text)
    requires Terminated(input, c.position) && Placed(input, c) && p == c.position && ItemAt(input, p, Fold(gap))
    ensures IsEol(input[p])
    ensures var (d, breaks) := Skipped(input, c, false);
            d.position == p + |gap| && breaks == LineBreaks(gap) && Placed(input, d)
  {
    hide Skipped, LineBreaks, Placed;
    var e := p + |gap|;
    assert input[p..e] == gap;
    forall i | p <= i < e
      ensures IsBlank(input[i])
    {
      assert input[p..e][i - p] == gap[i - p];
    }
    assert IsBlank(input[p]);
    assert input[p..e][0] == gap[0];
    GapIsSkipped(input, c, e);
  }

  lemma FoldedIs(gap: Text)
    requires IsGap(gap)
    ensures Folded(LineBreaks(gap)) == Value(Fold(gap))
  {
    hide LineBreaks, LineFeeds;
    GapBreaks(gap);
    if LineBreaks(gap) > 1 {
      LineFeedsAre(LineBreaks(gap) - 1);
    }
  }

  lemma FoldIsAfter(input: Text, c: Cursor, start: nat, result: Text, item: Item)
    requires Ready(input, c, start) && ItemAt(input, c.position, item) && item.Fold?
    ensures var d := After(input, c, item);
            && d.position == c.position + |Source(item)| && Placed(input, d)
            && Scan(input, c, start, c.position, result) ==
               Scan(input, d, d.position, d.position, result + input[start..c.position] + Value(item))
  {
    hide Scan, Skipped, IsItem, Value, Ready;
    FoldIsRead(input, c, start, result, item.gap);
  }

  lemma NothingPending(input: Text, d: Cursor)
    requires d.position < |input| && input[|input| - 1] == 0 && Placed(input, d)
    ensures Ready(input, d, d.position) && input[d.position..d.position] == []
  {}

  lemma ReadyIs(input: Text, c: Cursor, start: nat)
    requires Ready(input, c, start)
    ensures Terminated(input, c.position) && input[|input| - 1] == 0 && start <= c.position
  {}

  /** One item: what is read and what is pending grow together by what the item stands for. */
  lemma ItemIsRead(input: Text, c: Cursor, start: nat, result: Text, item: Item)
    returns (start': nat, result': Text)
    requires Ready(input, c, start) && ItemAt(input, c.position, item)
    requires item.Plain? ==> !AtSeparator(input, c)
    ensures var d := After(input, c, item);
            && d.position == c.position + |Source(item)| && Ready(input, d, start')
            && result' + input[start'..d.position] == result + input[start..c.position] + Value(item)
            && Scan(input, c, start, c.position, result) == Scan(input, d, start', d.position, result')
  {
    hide Scan, IsItem, Ready, ItemAt, AtSeparator, Value, Source, After;
    ReadyIs(input, c, start);
    InRange(input, c.position, item);
    if item.Plain? {
      start', result' := start, result;
      PlainIsAfter(input, c, start, result, item);
    } else {
      start', result' := After(input, c, item).position, result + input[start..c.position] + Value(item);
      if item.Fold? {
        FoldIsAfter(input, c, start, result, item);
      } else {
        EscapeIsRead(input, c, start, result, item);
      }
      NothingPending(input, After(input, c, item));
    }
  }

  lemma InRange(input: Text, p: nat, item: Item)
    requires ItemAt(input, p, item)
    ensures IsItem(item) && p + |Source(item)| < |input|
  {}

  lemma PlainIsAfter(input: Text, c: Cursor, start: nat, result: Text, item: Item)
    requires Ready(input, c, start) && ItemAt(input, c.position, item) && item.Plain? && !AtSeparator(input, c)
    ensures var d := After(input, c, item);
            && d.position == c.position + |Source(item)| && Ready(input, d, start)
            && result + input[start..d.position] == result + input[start..c.position] + Value(item)
            && Scan(input, c, start, c.position, result) == Scan(input, d, start, d.position, result)
  {
    hide Scan, IsItem, Ready, AtSeparator;
    ReadyIs(input, c, start);
    PlainIsRead(input, c, start, result, item.unit);
    PlainValue(item);
    Regroup(result, input[start..c.position], [item.unit]);
  }

  lemma PlainValue(item: Item)
    requires item.Plain? && IsItem(item)
    ensures Value(item) == [item.unit]
  {}

  lemma EscapeIsRead(input: Text, c: Cursor, start: nat, result: Text, item: Item)
    requires Ready(input, c, start) && ItemAt(input, c.position, item)
    requires item.Named? || item.Numbered? || item.Join?
    ensures var d := After(input, c, item);
            && d.position == c.position + |Source(item)| && Placed(input, d)
            && Scan(input, c, start, c.position, result) ==
               Scan(input, d, d.position, d.position, result + input[start..c.position] + Value(item))
  {
    hide Scan, ScanEscape, Skipped, ValidJson, IsItem, Value;
    var p, size := c.position, |Source(item)|;
    SliceOfSlice(input, p, Source(item), 0, 1);
    EscapeStep(input, c, start, result);
    var taken := result + input[start..p];
    hide ItemAt, Ready;
    if item.Join? {
      JoinAt(input, p, item.gap);
      JoinIsRead(input, c.Advance(1), taken, item.gap);
      JoinValue(taken, item);
    } else {
      LetterAt(input, p, item);
      if item.Named? {
        NamedValue(item);
        NamedIsRead(input, c.Advance(1), taken, item.letter);
      } else {
        NumberedIsRead(input, c.Advance(1), taken, item.letter, item.digits);
      }
    }
  }

  lemma SliceOfSlice(input: Text, p: nat, text: Text, i: nat, j: nat)
    requires p + |text| <= |input| && input[p..p + |text|] == text && i <= j <= |text|
    ensures input[p + i..p + j] == text[i..j]
    ensures i < j ==> input[p + i] == text[i] && input[p + j - 1] == text[j - 1]
  {
    forall k | 0 <= k < |text|
      ensures input[p + k] == text[k]
    {
      assert input[p..p + |text|][k] == input[p + k];
    }
    forall k | 0 <= k < j - i
      ensures input[p + i..p + j][k] == text[i..j][k]
    {
      assert input[p + (i + k)] == text[i + k];
    }
    assert i < j ==> input[p + (j - 1)] == text[j - 1];
  }

  lemma JoinAt(input: Text, p: nat, gap: Text)
    requires ItemAt(input, p, Join(gap))
    ensures ItemAt(input, p + 1, Fold(gap))
  {
    SliceOfSlice(input, p, Source(Join(gap)), 1, 1 + |gap|);
  }

  lemma JoinValue(t: Text, item: Item)
    requires item.Join? && IsItem(item)
    ensures t + Value(item) == t
  {}

  lemma NamedValue(item: Item)
    requires item.Named? && IsItem(item)
    ensures Section57(item.letter).Some? && Value(item) == [Section57(item.letter).value]
  {}

  lemma LetterAt(input: Text, p: nat, item: Item)
    requires ItemAt(input, p, item) && (item.Named? || item.Numbered?)
    ensures IsItem(item) && |Source(item)| > 1 && p + |Source(item)| < |input| && input[p + 1] == item.letter
    ensures !IsEol(input[p + |Source(item)| - 1])
    ensures item.Numbered? ==> input[p + 2..p + 2 + |item.digits|] == item.digits
  {
    var size := |Source(item)|;
    SliceOfSlice(input, p, Source(item), 1, size);
    LastIsPlain(item);
    if item.Numbered? {
      SliceOfSlice(input, p, Source(item), 2, size);
    }
  }

  /** The last unit of an escape, unless it is that of a line break, is no line break. */
  lemma LastIsPlain(item: Item)
    requires IsItem(item) && (item.Named? || item.Numbered?)
    ensures !IsEol(Source(item)[|Source(item)| - 1])
  {
    if item.Numbered? {
      var last := item.digits[|item.digits| - 1];
      assert Source(item)[|Source(item)| - 1] == last;
      assert DigitValue(last) >= 0;
    }
  }

  // ---- Every scalar is read ----

  /** What follows from here on is the rest of a scalar. */
  predicate ScalarFollows(input: Text, c: Cursor, items: seq<Item>) {
    && c.position + |Sources(items)| + 1 < |input| && IsScalar(items)
    && input[c.position..c.position + |Sources(items)| + 1] == Sources(items) + [QUOTE]
    && (c.lineStart == c.position ==> !StartsDocument(Sources(items) + [QUOTE]))
  }

  /** What stands before the closing quote decides whether a document separator is there. */
  lemma SeparatorIsLocal(input: Text, p: nat, text: Text)
    requires p + |text| <= |input| && input[p..p + |text|] == text
    requires text != [] && text[|text| - 1] == QUOTE
    ensures DocumentSeparator(input, p) <==> StartsDocument(text)
  {
    forall i | 0 <= i < |text|
      ensures At(input, p + i) == At(text, i)
    {
      assert input[p..p + |text|][i] == input[p + i];
    }
    assert At(input, p + |text| - 1) == QUOTE;
    assert At(input, p + 0) == At(text, 0);
  }

  lemma FirstItem(input: Text, c: Cursor, items: seq<Item>)
    requires ScalarFollows(input, c, items) && items != []
    ensures var h, q := items[0], c.position + |Source(items[0])|;
            && ItemAt(input, c.position, h)
            && input[q..q + |Sources(items[1..])| + 1] == Sources(items[1..]) + [QUOTE]
            && q + |Sources(items[1..])| + 1 < |input|
            && (h.Plain? && c.lineStart == c.position ==> !DocumentSeparator(input, c.position))
  {
    hide DocumentSeparator, StartsDocument, IsItem, Source, IsScalar, Sources;
    var h, rest := items[0], Sources(items[1..]) + [QUOTE];
    var text := Sources(items) + [QUOTE];
    FirstSource(items);
    SeparatorIsLocal(input, c.position, text);
    Split(input, c.position, text, Source(h), rest);
  }

  /** The first item of a scalar and what follows it. */
  lemma FirstSource(items: seq<Item>)
    requires IsScalar(items) && items != []
    ensures var rest := Sources(items[1..]) + [QUOTE];
            && Sources(items) + [QUOTE] == Source(items[0]) + rest && IsItem(items[0]) && IsScalar(items[1..])
            && (items[0].Fold? || items[0].Join? ==> Follows(items[0].gap, rest) && !IsBlank(rest[0]))
  {
    hide IsItem, Source, DocumentSeparator, StartsDocument;
    Regroup(Source(items[0]), Sources(items[1..]), [QUOTE]);
  }

  lemma Split(input: Text, p: nat, text: Text, front: Text, back: Text)
    requires text == front + back && back != []
    requires p + |text| <= |input| && input[p..p + |text|] == text
    ensures input[p..p + |front|] == front && input[p + |front|..p + |text|] == back
    ensures input[p + |front|] == back[0]
  {
    SliceOfSlice(input, p, text, 0, |front|);
    SliceOfSlice(input, p, text, |front|, |text|);
    assert text[0..|front|] == front && text[|front|..|text|] == back;
  }

  /** After an item that is no gap the reader is not at the start of a line. */
  lemma NotAtLineStart(input: Text, p: nat, item: Item)
    requires ItemAt(input, p, item) && !item.Fold? && !item.Join?
    ensures Source(item) != [] && !IsEol(input[p + |Source(item)| - 1])
  {
    if item.Plain? {
      SliceOfSlice(input, p, Source(item), 0, 1);
    } else {
      hide Source, IsItem, ItemAt;
      LetterAt(input, p, item);
    }
  }

  lemma GapLast(input: Text, p: nat, item: Item)
    requires ItemAt(input, p, item) && (item.Fold? || item.Join?)
    ensures IsGap(item.gap) && Source(item) != [] && input[p + |Source(item)| - 1] == item.gap[|item.gap| - 1]
  {
    SliceOfSlice(input, p, Source(item), |Source(item)| - 1, |Source(item)|);
  }

  lemma NextFollows(input: Text, c: Cursor, items: seq<Item>, d: Cursor)
    requires ScalarFollows(input, c, items) && items != []
    requires d.position == c.position + |Source(items[0])| && Placed(input, d)
    ensures ScalarFollows(input, d, items[1..])
  {
    hide DocumentSeparator, StartsDocument, Source, IsItem, ItemAt;
    FirstItem(input, c, items);
    if items[0].Fold? || items[0].Join? {
      GapLast(input, c.position, items[0]);
    } else {
      NotAtLineStart(input, c.position, items[0]);
    }
  }

  /** Reading goes on from any place where the rest of a scalar follows, to just after its closing quote. */
  lemma {:induction false} RestIsRead(input: Text, c: Cursor, start: nat, result: Text, items: seq<Item>)
    requires Ready(input, c, start) && ScalarFollows(input, c, items)
    ensures var s := Scan(input, c, start, c.position, result);
            && s.Finished? && s.result == result + input[start..c.position] + Values(items)
            && s.cursor.position == c.position + |Sources(items)| + 1
    decreases |items|
  {
    hide Scan, ItemAt, After;
    if items == [] {
      ClosingQuote(input, c);
      CloseQuote(input, c, start, result);
    } else {
      hide Ready, ScalarFollows;
      FirstItem(input, c, items);
      var start', result' := ItemIsRead(input, c, start, result, items[0]);
      var d := After(input, c, items[0]);
      AfterIsPlaced(input, d, start');
      NextFollows(input, c, items, d);
      RestIsRead(input, d, start', result', items[1..]);
      Regroup(result + input[start..c.position], Value(items[0]), Values(items[1..]));
    }
  }

  lemma ClosingQuote(input: Text, c: Cursor)
    requires ScalarFollows(input, c, [])
    ensures input[c.position] == QUOTE
  {
    assert input[c.position..c.position + 1][0] == QUOTE;
  }

  lemma AfterIsPlaced(input: Text, d: Cursor, start: nat)
    requires Ready(input, d, start)
    ensures Terminated(input, d.position) && Placed(input, d)
  {}

  // ---- Nothing else is read ----

  /** The escape at a backslash, when reading finishes. */
  lemma EscapeItem(input: Text, c: Cursor, result: Text) returns (item: Item)
    requires Terminated(input, c.position) && input[c.position] == BACKSLASH
    requires Terminated(input, c.position + 1) && ScanEscape(input, c.Advance(1), result).Finished?
    ensures ItemAt(input, c.position, item) && (item.Named? || item.Numbered? || item.Join?)
  {
    hide ScanEscape, Section57, ItemAt;
    if IsEol(input[c.position + 1]) {
      item := JoinItem(input, c.position);
    } else if Section57(input[c.position + 1]).Some? {
      item := NamedItem(input, c.position);
    } else {
      item := NumberedItem(input, c, result);
    }
  }

  lemma JoinItem(input: Text, p: nat) returns (item: Item)
    requires Terminated(input, p + 1) && input[p] == BACKSLASH && IsEol(input[p + 1])
    ensures ItemAt(input, p, item) && item.Join?
  {
    var gap := GapItem(input, p + 1);
    item := Join(gap);
    assert input[p..p + 1 + |gap|] == [BACKSLASH] + gap;
  }

  lemma NamedItem(input: Text, p: nat) returns (item: Item)
    requires Terminated(input, p + 1) && input[p] == BACKSLASH && Section57(input[p + 1]).Some?
    ensures ItemAt(input, p, item) && item.Named?
  {
    item := Named(input[p + 1]);
    assert input[p + 1] != 0;
    assert input[p..p + 2] == [BACKSLASH, input[p + 1]];
  }

  lemma NumberedItem(input: Text, c: Cursor, result: Text) returns (item: Item)
    requires Terminated(input, c.position + 1) && input[c.position] == BACKSLASH
    requires Section57(input[c.position + 1]).None? && !IsEol(input[c.position + 1])
    requires ScanEscape(input, c.Advance(1), result).Finished?
    ensures ItemAt(input, c.position, item) && item.Numbered?
  {
    hide Scan, HexRead, SimpleEscape, Section57, DigitValue, CharFromCodepoint;
    var p, letter := c.position, input[c.position + 1];
    EscapesAreStandard(letter);
    var width := HexLength(letter);
    assert width > 0;
    assert HexRead(input, p + 1, width, 0).Some?;
    var digits := input[p + 2..p + 2 + width];
    DigitsAreHex(input, p + 1, width);
    item := Numbered(letter, digits);
    assert input[p..p + 2 + width] == [BACKSLASH, letter] + digits;
    LastIsNotHex(input, p + 1, width);
  }

  lemma DigitsAreHex(input: Text, p: nat, count: nat)
    requires p + count < |input| && forall i | p < i <= p + count :: DigitValue(At(input, i)) >= 0
    ensures AllHex(input[p + 1..p + 1 + count])
  {
    var t := input[p + 1..p + 1 + count];
    forall k | 0 <= k < |t|
      ensures 0 <= DigitValue(t[k]) < 16
    {
      assert t[k] == At(input, p + 1 + k);
      DigitsAreHexadecimal(t[k]);
    }
  }

  function GapItem(input: Text, p: nat): (gap: Text)
    requires Terminated(input, p) && IsEol(input[p])
    ensures p + |gap| < |input| && gap == input[p..p + |gap|] && IsGap(gap) && !IsBlank(input[p + |gap|])
  {
    input[p..GapEnd(input, p)]
  }

  /** An item in front of the rest of a scalar. */
  lemma ItemInFront(input: Text, c: Cursor, item: Item, d: Cursor, rest: seq<Item>)
    requires ItemAt(input, c.position, item) && d.position == c.position + |Source(item)| && Placed(input, d)
    requires ScalarFollows(input, d, rest)
    requires c.lineStart == c.position ==> !DocumentSeparator(input, c.position)
    ensures ScalarFollows(input, c, [item] + rest)
  {
    hide DocumentSeparator, StartsDocument, Source, IsItem;
    var p, q := c.position, d.position;
    var back := Sources(rest) + [QUOTE];
    SourcesOf(item, rest);
    var text := Sources([item] + rest) + [QUOTE];
    Joined(input, p, Source(item), back);
    assert text == Source(item) + back;
    SeparatorIsLocal(input, p, text);
    assert input[q..q + |back|][0] == input[q];
    hide Sources, ItemAt;
    if item.Fold? || item.Join? {
      GapLast(input, p, item);
      assert Follows(item.gap, back);
    }
    InFrontIsScalar(item, rest);
  }

  lemma Joined(input: Text, p: nat, front: Text, back: Text)
    requires p + |front| + |back| <= |input|
    requires input[p..p + |front|] == front && input[p + |front|..p + |front| + |back|] == back
    ensures input[p..p + |front + back|] == front + back
  {
    var q := p + |front|;
    assert input[p..q + |back|] == input[p..q] + input[q..q + |back|];
  }

  lemma SourcesOf(item: Item, rest: seq<Item>)
    ensures Sources([item] + rest) + [QUOTE] == Source(item) + (Sources(rest) + [QUOTE])
  {
    assert ([item] + rest)[1..] == rest;
    Regroup(Source(item), Sources(rest), [QUOTE]);
  }

  lemma InFrontIsScalar(item: Item, rest: seq<Item>)
    requires IsItem(item) && IsScalar(rest)
    requires item.Fold? || item.Join? ==> Follows(item.gap, Sources(rest) + [QUOTE])
    ensures IsScalar([item] + rest)
  {
    assert ([item] + rest)[1..] == rest;
  }

  /** Reading does not finish at the start of a document separator, nor past units that may not be captured. */
  lemma FinishedTurn(input: Text, c: Cursor, start: nat, result: Text)
    requires Terminated(input, c.position) && start <= c.position
    requires Scan(input, c, start, c.position, result).Finished?
    ensures input[c.position] != 0
    ensures AtSeparator(input, c) ==> input[c.position] == QUOTE || input[c.position] == BACKSLASH || IsEol(input[c.position])
    ensures input[c.position] == QUOTE || input[c.position] == BACKSLASH || IsEol(input[c.position]) ==>
              ValidJson(input, start, c.position)
  {
    hide Scan, ScanEscape, DocumentSeparator;
    ScanTurn(input, c, start, c.position, result);
  }

  lemma NoSeparator(input: Text, p: nat)
    requires p < |input| && input[p] != 45 && input[p] != 46
    ensures !DocumentSeparator(input, p)
  {}

  /** The item at a backslash or a line break, when reading finishes. */
  lemma ItemHere(input: Text, c: Cursor, start: nat, result: Text) returns (item: Item)
    requires Ready(input, c, start) && Scan(input, c, start, c.position, result).Finished?
    requires input[c.position] == BACKSLASH || IsEol(input[c.position])
    ensures ItemAt(input, c.position, item) && !item.Plain?
  {
    hide Scan, ScanEscape, ItemAt, ValidJson;
    if input[c.position] == BACKSLASH {
      EscapeStep(input, c, start, result);
      item := EscapeItem(input, c, result + input[start..c.position]);
    } else {
      item := FoldItem(input, c.position);
    }
  }

  lemma FoldItem(input: Text, p: nat) returns (item: Item)
    requires Terminated(input, p) && IsEol(input[p])
    ensures ItemAt(input, p, item) && item.Fold?
  {
    item := Fold(GapItem(input, p));
  }

  lemma PlainItem(input: Text, c: Cursor, start: nat)
    requires Terminated(input, c.position + 1) && start <= c.position && ValidJson(input, start, c.position + 1)
    requires var u := input[c.position]; u != QUOTE && u != BACKSLASH
    ensures ItemAt(input, c.position, Plain(input[c.position])) && ValidJson(input, start, c.position)
  {
    assert input[c.position..c.position + 1] == [input[c.position]];
  }

  /** Whenever reading finishes, it has read the rest of a scalar. */
  lemma {:induction false} FinishedIsScalar(input: Text, c: Cursor, start: nat, result: Text) returns (items: seq<Item>)
    requires Terminated(input, c.position) && Placed(input, c) && start <= c.position
    requires Scan(input, c, start, c.position, result).Finished?
    ensures ValidJson(input, start, c.position) && ScalarFollows(input, c, items)
    decreases |input| - c.position
  {
    hide Scan, ItemAt, After, ScalarFollows, DocumentSeparator, StartsDocument, ValidJson, Source;
    FinishedTurn(input, c, start, result);
    var u := input[c.position];
    if u == QUOTE {
      items := [];
      NothingFollows(input, c);
    } else if u == BACKSLASH || IsEol(u) {
      var item := ItemHere(input, c, start, result);
      var start', result' := ItemIsRead(input, c, start, result, item);
      SourceIsSomething(input, c.position, item);
      var rest := FinishedIsScalar(input, After(input, c, item), start', result');
      NoSeparator(input, c.position);
      ItemInFront(input, c, item, After(input, c, item), rest);
      items := [item] + rest;
    } else {
      PlainStep(input, c, start, result);
      var rest := FinishedIsScalar(input, c.Advance(1), start, result);
      PlainItem(input, c, start);
      PlainSource(u);
      ItemInFront(input, c, Plain(u), c.Advance(1), rest);
      items := [Plain(u)] + rest;
    }
  }

  lemma SourceIsSomething(input: Text, p: nat, item: Item)
    requires ItemAt(input, p, item)
    ensures |Source(item)| > 0
  {}

  lemma PlainSource(u: CodeUnit)
    ensures |Source(Plain(u))| == 1
  {}

  lemma NothingFollows(input: Text, c: Cursor)
    requires Terminated(input, c.position) && input[c.position] == QUOTE
    ensures ScalarFollows(input, c, [])
  {
    assert input[c.position..c.position + 1] == [QUOTE];
  }

  // ---- What the reader accepts, and what it makes of it ----

  /** A scalar in quotes stands in the input at `p`. */
  ghost predicate ScalarAt(input: Text, p: nat, items: seq<Item>) {
    IsScalar(items) && p < |input| && [QUOTE] + Sources(items) + [QUOTE] <= input[p..]
  }

  /**
    The reader finishes exactly where a scalar in quotes stands, and then with what the scalar stands for and
    just after its closing quote: line breaks are folded, escapes are those of the standard, everything else fails.
  */
  lemma ReadsExactlyScalars(input: Text, c: Cursor)
    requires Terminated(input, c.position) && c.lineStart <= c.position
    ensures var outcome := Read(input, c);
            outcome.Some? && outcome.value.Finished? <==> exists items :: ScalarAt(input, c.position, items)
    ensures forall items | ScalarAt(input, c.position, items) ::
              var outcome := Read(input, c);
              && outcome.Some? && outcome.value.Finished? && outcome.value.result == Values(items)
              && outcome.value.cursor.position == c.position + |Sources(items)| + 2
  {
    hide Scan, ScalarFollows, Sources, Values;
    forall items | ScalarAt(input, c.position, items)
      ensures var outcome := Read(input, c);
              && outcome.Some? && outcome.value.Finished? && outcome.value.result == Values(items)
              && outcome.value.cursor.position == c.position + |Sources(items)| + 2
    {
      ScalarIsRead(input, c, items);
    }
    if Read(input, c).Some? && Read(input, c).value.Finished? {
      var items := FinishedIsScalar(input, c.Advance(1), c.position + 1, []);
      AfterQuote(input, c, items);
    }
  }

  lemma AfterQuote(input: Text, c: Cursor, items: seq<Item>)
    requires Terminated(input, c.position) && c.lineStart <= c.position && input[c.position] == QUOTE
    ensures ScalarAt(input, c.position, items) <==> ScalarFollows(input, c.Advance(1), items)
  {
    var p, text := c.position, Sources(items) + [QUOTE];
    hide IsScalar, Sources, DocumentSeparator, StartsDocument;
    assert [QUOTE] + Sources(items) + [QUOTE] == [QUOTE] + text;
    assert input[p..] == [QUOTE] + input[p + 1..];
  }

  lemma ScalarIsRead(input: Text, c: Cursor, items: seq<Item>)
    requires Terminated(input, c.position) && c.lineStart <= c.position && ScalarAt(input, c.position, items)
    ensures var outcome := Read(input, c);
            && outcome.Some? && outcome.value.Finished? && outcome.value.result == Values(items)
            && outcome.value.cursor.position == c.position + |Sources(items)| + 2
  {
    hide Scan, IsScalar, Sources, ScalarFollows;
    assert input[c.position] == input[c.position..][0] == QUOTE;
    AfterQuote(input, c, items);
    var d := c.Advance(1);
    NothingIsJson(input, d.position);
    RestIsRead(input, d, d.position, [], items);
    assert [] + input[d.position..d.position] + Values(items) == Values(items);
  }
}
