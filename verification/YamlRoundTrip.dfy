/** Printing a string in double quotes and reading it back gives the string. */
module YamlRoundTrip {
  import opened CodeUnits
  import opened Options
  import opened YamlText
  import opened YamlReader

  // ---- Hexadecimal escapes ----

  lemma {:induction false} HexReadLast(input: Text, p: nat, count: nat, value: int)
    requires count > 0
    ensures var before := HexRead(input, p, count - 1, value);
            var digit := DigitValue(At(input, p + count));
            HexRead(input, p, count, value) ==
            if before.None? || digit < 0 then None else Some(ShiftLeft4(before.value) + digit)
    decreases count
  {
    if count > 1 {
      var digit := DigitValue(At(input, p + 1));
      if digit >= 0 {
        HexReadLast(input, p + 1, count - 1, ShiftLeft4(value) + digit);
      }
    }
  }

  lemma ShiftIsTimes16(x: int)
    requires 0 <= x < 0x800_0000
    ensures ShiftLeft4(x) == 16 * x
  {}

  lemma {:induction false} HexValueBound(t: Text)
    requires AllHex(t)
    ensures 0 <= HexValue(t) < Power16(|t|)
  {
    if t != [] {
      HexValueBound(t[..|t| - 1]);
    }
  }

  lemma {:induction false} HexReadIsValue(input: Text, p: nat, t: Text)
    requires AllHex(t) && |t| <= 4 && p + |t| < |input|
    requires forall k | 0 <= k < |t| :: At(input, p + 1 + k) == t[k]
    ensures HexRead(input, p, |t|, 0) == Some(HexValue(t))
  {
    if t != [] {
      var front := t[..|t| - 1];
      HexReadIsValue(input, p, front);
      HexReadLast(input, p, |t|, 0);
      assert At(input, p + 1 + (|t| - 1)) == t[|t| - 1];
      HexValueBound(front);
      PowerGrows(|front|, 3);
      assert Power16(3) == 16 * 16 * 16;
      ShiftIsTimes16(HexValue(front));
    }
  }

  lemma {:induction false} PowerGrows(j: nat, k: nat)
    requires j <= k
    ensures Power16(j) <= Power16(k)
    decreases k
  {
    if j < k {
      PowerGrows(j, k - 1);
    }
  }

  // ---- The single code units ----

  lemma ShortEscapeReadsBack(n: nat)
    requires ShortEscape(n).Some?
    ensures var letter := ShortEscape(n).value;
            !IsEol(letter) && letter < 256 && SimpleEscape(letter) == Some(n)
  {}

  lemma PrintableIsPlain(n: nat)
    requires IsPrintable(n) && ShortEscape(n).None?
    ensures n != 0 && n != QUOTE && n != BACKSLASH && !IsEol(n) && 32 <= n
  {}

  /** The text from here on is `piece` and then `rest`. */
  predicate Continues(input: Text, p: nat, piece: Text, rest: Text)
  {
    p <= |input| && input[p..] == piece + rest
  }

  lemma AfterPiece(input: Text, p: nat, piece: Text, rest: Text)
    requires Continues(input, p, piece, rest)
    ensures p + |piece| <= |input| && input[p + |piece|..] == rest
    ensures input[p..p + |piece|] == piece
    ensures forall k | 0 <= k < |piece| :: input[p + k] == piece[k]
  {
    assert input[p + |piece|..] == input[p..][|piece|..];
    assert input[p..p + |piece|] == input[p..][..|piece|];
    forall k | 0 <= k < |piece|
      ensures input[p + k] == piece[k]
    {
      assert input[p..][k] == piece[k];
    }
  }

  // ---- One piece of the escaped text, read from its first unit ----

  /** A unit the printer leaves as it is only makes the pending raw text longer. */
  lemma RawUnit(input: Text, c: Cursor, start: nat, result: Text, u: CodeUnit)
    requires Terminated(input, c.position) && start <= c.position && c.lineStart < c.position
    requires input[c.position] == u && u != 0 && u != QUOTE && u != BACKSLASH && !IsEol(u)
    ensures Terminated(input, c.position + 1)
    ensures Scan(input, c, start, c.position, result) == Scan(input, c.Advance(1), start, c.position + 1, result)
  {
    assert Scan(input, c, start, c.position, result) == ScanPlain(input, c, start, result);
  }

  lemma ShortPiece(input: Text, c: Cursor, start: nat, result: Text, n: CodeUnit)
    requires Terminated(input, c.position) && start <= c.position && ValidJson(input, start, c.position)
    requires ShortEscape(n).Some? && c.position + 1 < |input|
    requires input[c.position] == BACKSLASH && input[c.position + 1] == ShortEscape(n).value
    ensures Terminated(input, c.position + 2)
    ensures var d := c.Advance(2);
            Scan(input, c, start, c.position, result) ==
            Scan(input, d, d.position, d.position, result + input[start..c.position] + [n])
  {
    ShortEscapeReadsBack(n);
    CapturedIs(result, input, start, c.position);
    hide Captured, Scan, ShortEscape, SimpleEscape, ValidJson;
    ScanTurn(input, c, start, c.position, result);
    assert c.Advance(1).Advance(1) == c.Advance(2);
  }

  lemma CapturedIs(result: Text, input: Text, start: nat, end: nat)
    requires start <= end <= |input| && ValidJson(input, start, end)
    ensures Captured(result, input, start, end, true) == Some(result + input[start..end])
  {
    if start == end {
      assert result + input[start..end] == result;
    }
  }

  lemma HexPiece(input: Text, c: Cursor, start: nat, result: Text, n: CodeUnit)
    requires Terminated(input, c.position) && start <= c.position && ValidJson(input, start, c.position)
    requires c.position + |EncodeHex(n)| < |input|
    requires forall k | 0 <= k < |EncodeHex(n)| :: input[c.position + k] == EncodeHex(n)[k]
    ensures Terminated(input, c.position + |EncodeHex(n)|)
    ensures var d := c.Advance(|EncodeHex(n)|);
            Scan(input, c, start, c.position, result) ==
            Scan(input, d, d.position, d.position, result + input[start..c.position] + [n])
  {
    hide Scan, ScanEscape, HexText;
    var p := c.position;
    assert EncodeHex(n)[0] == BACKSLASH && input[p + 0] == EncodeHex(n)[0];
    hide EncodeHex;
    CapturedIs(result, input, start, c.position);
    hide Captured, ValidJson;
    ScanTurn(input, c, start, p, result);
    HexEscape(input, c.Advance(1), result + input[start..p], n);
  }

  lemma HexEscape(input: Text, c: Cursor, result: Text, n: CodeUnit)
    requires Terminated(input, c.position) && c.position > 0 && c.position - 1 + |EncodeHex(n)| < |input|
    requires forall k | 0 <= k < |EncodeHex(n)| :: input[c.position - 1 + k] == EncodeHex(n)[k]
    ensures |EncodeHex(n)| >= 2 && Terminated(input, c.position - 1 + |EncodeHex(n)|)
    ensures var d := c.Advance(|EncodeHex(n)| - 1);
            ScanEscape(input, c, result) == Scan(input, d, d.position, d.position, result + [n])
  {
    var width := if n <= 0xFF then 2 else 4;
    var t := HexPart(n);
    assert input[c.position - 1 + 1] == EncodeHex(n)[1];
    forall k | 0 <= k < |t|
      ensures At(input, c.position + 1 + k) == t[k]
    {
      assert input[c.position - 1 + (k + 2)] == EncodeHex(n)[k + 2];
    }
    HexReadIsValue(input, c.position, t);
    HexIsRead(input, c, result, width, n);
  }

  lemma HexPart(n: CodeUnit) returns (t: Text)
    ensures |t| == (if n <= 0xFF then 2 else 4) && AllHex(t) && HexValue(t) == n
    ensures EncodeHex(n) == [BACKSLASH, if n <= 0xFF then 120 else 117] + t
  {
    assert Power16(2) == 16 * 16 && Power16(4) == 16 * 16 * 16 * 16;
    t := PaddedHex(n, if n <= 0xFF then 2 else 4);
    PaddedHexValue(n, if n <= 0xFF then 2 else 4);
  }

  lemma HexIsRead(input: Text, c: Cursor, result: Text, width: nat, n: CodeUnit)
    requires Terminated(input, c.position) && (input[c.position] == 120 || input[c.position] == 117)
    requires width == HexLength(input[c.position]) && HexRead(input, c.position, width, 0) == Some(n)
    ensures Terminated(input, c.position + width + 1)
    ensures var d := c.Advance(width + 1);
            ScanEscape(input, c, result) == Scan(input, d, d.position, d.position, result + [n])
  {
    hide Scan, HexRead;
    LastIsNotHex(input, c.position, width);
    assert ScanEscape(input, c, result) == ScanHex(input, c, width, result);
  }

  // ---- The whole text ----

  /** Reading one piece: the result and the pending raw text grow by what the piece stands for. */
  lemma ReadPiece(input: Text, c: Cursor, start: nat, result: Text, s: Text, i: nat, size: nat)
    returns (start': nat, result': Text)
    requires i < |s| && start <= c.position && c.lineStart < c.position && Terminated(input, c.position)
    requires size == |Piece(s, i)| && c.position + size < |input| && input[c.position..c.position + size] == Piece(s, i)
    requires ValidJson(input, start, c.position)
    ensures start' <= c.position + size && Terminated(input, c.position + size)
    ensures ValidJson(input, start', c.position + size)
    ensures result' + input[start'..c.position + size] == result + input[start..c.position] + s[i..Next(s, i)]
    ensures Scan(input, c, start, c.position, result) ==
            Scan(input, c.Advance(size), start', c.position + size, result')
  {
    hide Scan, ShortEscape, IsPrintable, Piece, Next, CodePointAt, ValidJson;
    var p := c.position;
    forall k | 0 <= k < size
      ensures input[p + k] == Piece(s, i)[k]
    {
      assert input[p..p + size][k] == input[p + k];
    }
    if ShortEscape(CodePointAt(s, i)).None? && IsPrintable(CodePointAt(s, i)) {
      RawPiece(input, c, start, result, s, i);
      start', result' := start, result;
      Regroup(result, input[start..p], s[i..Next(s, i)]);
    } else {
      EscapePiece(input, c, start, result, s, i);
      start', result' := p + size, result + input[start..p] + [s[i]];
      assert s[i..Next(s, i)] == [s[i]];
      assert input[start'..p + size] == [];
      NothingIsJson(input, p + size);
    }
  }

  lemma NothingIsJson(input: Text, p: nat)
    requires p <= |input|
    ensures ValidJson(input, p, p)
  {}

  lemma Regroup(t: Text, u: Text, v: Text)
    ensures t + (u + v) == t + u + v
  {}

  /** What the reader has to find from `c` on to read the rest of `s` from `i` on. */
  ghost predicate Awaits(input: Text, c: Cursor, start: nat, s: Text, i: nat, post: Text)
    requires i <= |s|
  {
    && start <= c.position && c.lineStart < c.position
    && Continues(input, c.position, Escaped(s, i), [QUOTE] + post)
    && Terminated(input, c.position) && ValidJson(input, start, c.position)
  }

  /**
    Reading goes on from any place where the escaped rest of `s` follows: the reader ends just after
    the closing quote, with the raw text still pending and the rest of `s` added to the result.
  */
  lemma {:induction false} ScanEscaped(input: Text, c: Cursor, start: nat, result: Text, s: Text, i: nat, post: Text)
    requires i <= |s| && Awaits(input, c, start, s, i, post)
    ensures Scan(input, c, start, c.position, result) ==
            Finished(c.Advance(|Escaped(s, i)| + 1), result + input[start..c.position] + s[i..])
    decreases |s| - i
  {
    hide Scan, Piece;
    if i == |s| {
      AtQuote(input, c, s, post);
      CloseQuote(input, c, start, result);
      assert s[i..] == [];
    } else {
      hide Awaits, Next, Escaped;
      var size, j := |Piece(s, i)|, Next(s, i);
      var start', result' := NextPiece(input, c, start, result, s, i, post, size, j);
      ScanEscaped(input, c.Advance(size), start', result', s, j, post);
      Regroup(result + input[start..c.position], s[i..j], s[j..]);
      assert s[i..] == s[i..j] + s[j..];
    }
  }

  lemma AtQuote(input: Text, c: Cursor, s: Text, post: Text)
    requires Continues(input, c.position, Escaped(s, |s|), [QUOTE] + post)
    ensures c.position < |input| && input[c.position] == QUOTE && Escaped(s, |s|) == []
  {
    assert input[c.position..][0] == QUOTE;
  }

  lemma NextPiece(input: Text, c: Cursor, start: nat, result: Text, s: Text, i: nat, post: Text, size: nat, j: nat)
    returns (start': nat, result': Text)
    requires i < |s| && Awaits(input, c, start, s, i, post) && size == |Piece(s, i)| && j == Next(s, i)
    ensures i < j <= |s| && |Escaped(s, i)| == size + |Escaped(s, j)|
    ensures Awaits(input, c.Advance(size), start', s, j, post)
    ensures result' + input[start'..c.position + size] == result + input[start..c.position] + s[i..j]
    ensures Scan(input, c, start, c.position, result) ==
            Scan(input, c.Advance(size), start', c.position + size, result')
  {
    hide Scan;
    SplitPiece(input, c, s, i, post);
    start', result' := ReadPiece(input, c, start, result, s, i, size);
  }

  lemma SplitPiece(input: Text, c: Cursor, s: Text, i: nat, post: Text)
    requires i < |s| && Continues(input, c.position, Escaped(s, i), [QUOTE] + post)
    ensures var size, j := |Piece(s, i)|, Next(s, i);
            && |Escaped(s, i)| == size + |Escaped(s, j)|
            && c.position + size < |input| && input[c.position..c.position + size] == Piece(s, i)
            && Continues(input, c.position + size, Escaped(s, j), [QUOTE] + post)
  {
    hide Piece, CodePointAt;
    Regroup(Piece(s, i), Escaped(s, Next(s, i)), [QUOTE] + post);
    AfterPiece(input, c.position, Piece(s, i), Escaped(s, Next(s, i)) + ([QUOTE] + post));
  }

  lemma CloseQuote(input: Text, c: Cursor, start: nat, result: Text)
    requires Terminated(input, c.position) && start <= c.position && input[c.position] == QUOTE
    requires ValidJson(input, start, c.position)
    ensures Scan(input, c, start, c.position, result) == Finished(c.Advance(1), result + input[start..c.position] + [])
  {
    CapturedIs(result, input, start, c.position);
  }

  lemma EscapePiece(input: Text, c: Cursor, start: nat, result: Text, s: Text, i: nat)
    requires i < |s| && start <= c.position && Terminated(input, c.position)
    requires ShortEscape(CodePointAt(s, i)).Some? || !IsPrintable(CodePointAt(s, i))
    requires ValidJson(input, start, c.position) && c.position + |Piece(s, i)| < |input|
    requires forall k | 0 <= k < |Piece(s, i)| :: input[c.position + k] == Piece(s, i)[k]
    ensures Next(s, i) == i + 1 && Terminated(input, c.position + |Piece(s, i)|)
    ensures var d := c.Advance(|Piece(s, i)|);
            Scan(input, c, start, c.position, result) ==
            Scan(input, d, d.position, d.position, result + input[start..c.position] + [s[i]])
  {
    SupplementaryIsPrintable(s, i);
    if ShortEscape(CodePointAt(s, i)).Some? {
      assert input[c.position + 0] == Piece(s, i)[0] && input[c.position + 1] == Piece(s, i)[1];
      ShortPiece(input, c, start, result, s[i]);
    } else {
      HexPiece(input, c, start, result, s[i]);
    }
  }

  lemma SupplementaryIsPrintable(s: Text, i: nat)
    requires i < |s|
    ensures CodePointAt(s, i) >= 0x1_0000 ==> IsPrintable(CodePointAt(s, i)) && ShortEscape(CodePointAt(s, i)).None?
  {}

  /** Printable units may follow pending raw text. */
  lemma MoreRawText(input: Text, start: nat, p: nat, piece: Text)
    requires start <= p && p + |piece| <= |input| && ValidJson(input, start, p)
    requires forall k | 0 <= k < |piece| :: input[p + k] == piece[k] >= 32
    ensures input[start..p + |piece|] == input[start..p] + piece && ValidJson(input, start, p + |piece|)
  {
    assert forall i | p <= i < p + |piece| :: input[i] == piece[i - p];
  }

  /** A code point that is printed as it is. */
  lemma RawUnits(s: Text, i: nat)
    requires i < |s| && ShortEscape(CodePointAt(s, i)).None? && IsPrintable(CodePointAt(s, i))
    ensures i < Next(s, i) <= i + 2 && Next(s, i) <= |s| && Piece(s, i) == s[i..Next(s, i)]
    ensures forall k | i <= k < Next(s, i) ::
              s[k] != QUOTE && s[k] != BACKSLASH && !IsEol(s[k]) && 32 <= s[k]
  {
    hide ShortEscape, IsPrintable;
    PrintableIsPlain(CodePointAt(s, i));
    if CodePointAt(s, i) >= 0x1_0000 {
      assert IsHigh(s[i]) && IsLow(s[i + 1]) && Next(s, i) == i + 2;
      assert s[i..i + 2] == [s[i], s[i + 1]];
    } else {
      assert CodePointAt(s, i) == s[i] && Next(s, i) == i + 1;
      assert s[i..i + 1] == [s[i]];
    }
  }

  lemma RawPiece(input: Text, c: Cursor, start: nat, result: Text, s: Text, i: nat)
    requires i < |s| && start <= c.position && c.lineStart < c.position && Terminated(input, c.position)
    requires ShortEscape(CodePointAt(s, i)).None? && IsPrintable(CodePointAt(s, i))
    requires ValidJson(input, start, c.position) && c.position + |Piece(s, i)| < |input|
    requires forall k | 0 <= k < |Piece(s, i)| :: input[c.position + k] == Piece(s, i)[k]
    ensures Piece(s, i) == s[i..Next(s, i)]
    ensures var d := c.Advance(|Piece(s, i)|);
            && Terminated(input, d.position)
            && input[start..d.position] == input[start..c.position] + s[i..Next(s, i)]
            && ValidJson(input, start, d.position)
            && Scan(input, c, start, c.position, result) == Scan(input, d, start, d.position, result)
  {
    hide Scan, ShortEscape, IsPrintable, Next, Piece, CodePointAt, ValidJson;
    RawUnits(s, i);
    MoreRawText(input, start, c.position, Piece(s, i));
    assert input[c.position + 0] == Piece(s, i)[0] == s[i];
    RawUnit(input, c, start, result, s[i]);
    if Next(s, i) == i + 2 {
      assert input[c.position + 1] == Piece(s, i)[1] == s[i + 1];
      RawUnit(input, c.Advance(1), start, result, s[i + 1]);
      assert c.Advance(1).Advance(1) == c.Advance(2);
    }
  }

  /**
    The round trip: a double-quoted string printed by the writer, anywhere in an input, is consumed
    exactly, raises no error, and yields the string, whatever code units it is made of.
  */
  lemma RoundTrip(pre: Text, s: Text, post: Text, c: Cursor)
    requires c.position == |pre| && c.lineStart <= |pre| && post != [] && post[|post| - 1] == 0
    ensures var input := pre + ([QUOTE] + (Escaped(s, 0) + ([QUOTE] + post)));
            && Terminated(input, c.position)
            && Read(input, c) == Some(Finished(c.Advance(|Escaped(s, 0)| + 2), s))
  {
    hide Scan, Escaped;
    var rest := Escaped(s, 0) + ([QUOTE] + post);
    var input := pre + ([QUOTE] + rest);
    assert input[|input| - 1] == post[|post| - 1];
    assert input[|pre|] == QUOTE && input[|pre| + 1..] == rest;
    ReadPrinted(input, s, post, c);
  }

  lemma ReadPrinted(input: Text, s: Text, post: Text, c: Cursor)
    requires c.position < |input| && c.lineStart <= c.position && post != [] && post[|post| - 1] == 0
    requires input[c.position] == QUOTE && Continues(input, c.position + 1, Escaped(s, 0), [QUOTE] + post)
    requires Terminated(input, c.position)
    ensures Read(input, c) == Some(Finished(c.Advance(|Escaped(s, 0)| + 2), s))
  {
    hide Scan, Escaped;
    var d := c.Advance(1);
    assert input[d.position..d.position] == [];
    ScanEscaped(input, d, d.position, [], s, 0, post);
    assert [] + [] + s[0..] == s;
    assert d.Advance(|Escaped(s, 0)| + 1) == c.Advance(|Escaped(s, 0)| + 2);
  }
}
