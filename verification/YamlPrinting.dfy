/** What the printer writes for each character, and that it is printable throughout. */
module YamlPrinting {
  import opened CodeUnits
  import opened Options
  import opened YamlText
  import opened YamlReader
  import opened YamlRoundTrip
  import opened YamlScalars

  /** The printable characters of section 5.1 of YAML 1.2. */
  predicate InSection51(n: nat) {
    || n == 0x09 || n == 0x0A || n == 0x0D || 0x20 <= n <= 0x7E || n == 0x85
    || 0xA0 <= n <= 0xD7FF || 0xE000 <= n <= 0xFFFD || 0x1_0000 <= n <= 0x10_FFFF
  }

  /** The characters that are written with a letter of section 5.7. */
  predicate HasLetter(n: nat) {
    || n == 0x00 || 0x07 <= n <= 0x0D || n == 0x1B || n == '"' as int || n == '\\' as int
    || n == 0x85 || n == 0xA0 || n == 0x2028 || n == 0x2029
  }

  /** The digits the printer uses. */
  predicate UpperHex(t: Text) {
    forall i | 0 <= i < |t| :: '0' as int <= t[i] <= '9' as int || 'A' as int <= t[i] <= 'F' as int
  }

  /**
    Each character is written as itself if it is printable, has no letter and is no byte order mark; with its letter
    of section 5.7 if it has one; and else with two hexadecimal digits, or four if it needs them.
  */
  lemma PieceIs(e: Text, i: nat)
    requires i < |e|
    ensures var n, p := CodePointAt(e, i), Piece(e, i);
            if HasLetter(n) then |p| == 2 && p[0] == BACKSLASH && 32 < p[1] <= 126 && Section57(p[1]) == Some(n)
            else if InSection51(n) && n != 0xFEFF then p == e[i..Next(e, i)]
            else
              && |p| == 2 + (if n < 0x100 then 2 else 4) && p[0] == BACKSLASH
              && p[1] == (if n < 0x100 then 'x' as int else 'u' as int)
              && UpperHex(p[2..]) && AllHex(p[2..]) && HexValue(p[2..]) == n
  {
    var n := CodePointAt(e, i);
    hide HexText, ZeroDigits, HexValue, AllHex;
    LettersAre(n);
    PrintableIs(n);
    hide ShortEscape, IsPrintable, Section57;
    if HasLetter(n) {
    } else if IsPrintable(n) {
      WrittenAsItself(e, i);
    } else {
      CodePointIsUnit(e, i);
      HexPartIs(n);
    }
  }

  lemma LettersAre(n: nat)
    ensures ShortEscape(n).Some? <==> HasLetter(n)
    ensures ShortEscape(n).Some? ==> 32 < ShortEscape(n).value <= 126 && Section57(ShortEscape(n).value) == Some(n)
  {}

  lemma PrintableIs(n: nat)
    ensures !HasLetter(n) ==> (IsPrintable(n) <==> InSection51(n) && n != 0xFEFF)
  {}

  lemma WrittenAsItself(e: Text, i: nat)
    requires i < |e| && ShortEscape(CodePointAt(e, i)).None? && IsPrintable(CodePointAt(e, i))
    ensures Piece(e, i) == e[i..Next(e, i)]
  {
    hide ShortEscape, IsPrintable;
  }

  lemma CodePointIsUnit(e: Text, i: nat)
    requires i < |e| && !IsPrintable(CodePointAt(e, i))
    ensures CodePointAt(e, i) < 0x1_0000
  {}

  lemma HexPartIs(n: nat)
    requires n < 0x1_0000
    ensures var p := EncodeHex(n);
            && |p| == 2 + (if n < 0x100 then 2 else 4) && p[0] == BACKSLASH
            && p[1] == (if n < 0x100 then 'x' as int else 'u' as int)
            && UpperHex(p[2..]) && AllHex(p[2..]) && HexValue(p[2..]) == n
  {
    hide HexText, ZeroDigits, HexValue, AllHex, PaddedHex;
    var width := if n < 0x100 then 2 else 4;
    PowersAre();
    PaddedHexValue(n, width);
    PaddedIsUpper(n, width);
    assert EncodeHex(n)[2..] == PaddedHex(n, width);
  }

  lemma PowersAre()
    ensures Power16(2) == 0x100 && Power16(4) == 0x1_0000
  {}

  lemma {:induction false} HexTextIsUpper(n: nat)
    ensures UpperHex(HexText(n))
  {
    if n >= 16 {
      HexTextIsUpper(n / 16);
    }
  }

  lemma PaddedIsUpper(n: nat, width: nat)
    ensures UpperHex(PaddedHex(n, width))
  {
    hide HexText, ZeroDigits;
    HexTextIsUpper(n);
    if |HexText(n)| < width {
      ZerosAreHex(width - |HexText(n)|);
    }
  }

  // ---- Everything written is printable ----

  lemma PrintableJoins(t: Text, u: Text)
    requires !HasNonPrintable(t) && !HasNonPrintable(u)
    ensures !HasNonPrintable(t + u)
  {
    forall i | 0 <= i < |t + u|
      ensures !NonPrintableAt(t + u, i)
    {
      if i < |t| {
        assert !NonPrintableAt(t, i);
      } else {
        assert !NonPrintableAt(u, i - |t|);
      }
    }
  }

  /** Printable ASCII text. */
  lemma AsciiIsPrintable(t: Text)
    requires forall i | 0 <= i < |t| :: 32 <= t[i] <= 126
    ensures !HasNonPrintable(t)
  {}

  lemma PieceIsPrintable(e: Text, i: nat)
    requires i < |e|
    ensures !HasNonPrintable(Piece(e, i))
  {
    var n, p := CodePointAt(e, i), Piece(e, i);
    PieceIs(e, i);
    hide Piece, HexValue, AllHex, HasNonPrintable, UpperHex, HasLetter, InSection51, Section57, CodePointAt, Next;
    if HasLetter(n) {
      AsciiIsPrintable(p);
    } else if InSection51(n) && n != 0xFEFF {
      UnitsArePrintable(e, i);
    } else {
      DigitsAreAscii(p);
      AsciiIsPrintable(p);
    }
  }

  lemma DigitsAreAscii(p: Text)
    requires |p| >= 2 && 32 <= p[0] <= 126 && 32 <= p[1] <= 126 && UpperHex(p[2..])
    ensures forall i | 0 <= i < |p| :: 32 <= p[i] <= 126
  {
    assert forall k | 2 <= k < |p| :: p[k] == p[2..][k - 2];
  }

  lemma UnitsArePrintable(e: Text, i: nat)
    requires i < |e| && InSection51(CodePointAt(e, i)) && !HasLetter(CodePointAt(e, i))
    ensures !HasNonPrintable(e[i..Next(e, i)])
  {
    if CodePointAt(e, i) >= 0x1_0000 {
      assert e[i..i + 2] == [e[i], e[i + 1]];
    } else {
      assert e[i..i + 1] == [e[i]];
    }
  }

  /** What is written has no character that the loader refuses as non-printable, lone surrogates included. */
  lemma {:induction false} WrittenIsPrintable(e: Text, i: nat)
    requires i <= |e|
    ensures !HasNonPrintable(Escaped(e, i))
    decreases |e| - i
  {
    hide Piece, Next, HasNonPrintable;
    if i < |e| {
      WrittenIsPrintable(e, Next(e, i));
      PieceIsPrintable(e, i);
      PrintableJoins(Piece(e, i), Escaped(e, Next(e, i)));
    } else {
      AsciiIsPrintable([]);
    }
  }
}
