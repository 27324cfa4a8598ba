/** The double-quoted printer of the bundle's YAML writer, over UTF-16 code units. */
module YamlText {
  import opened CodeUnits
  import opened Options

  const QUOTE: CodeUnit := 34
  const BACKSLASH: CodeUnit := 92

  /** The code point at `i`: a surrogate pair is read as one, a lone surrogate as itself. */
  function CodePointAt(e: Text, i: nat): (n: nat)
    requires i < |e|
    ensures n >= 0x1_0000 ==> i + 1 < |e|
    ensures n < 0x1_0000 ==> n == e[i]
  {
    if IsHigh(e[i]) && i + 1 < |e| && IsLow(e[i + 1]) then Combined(e[i], e[i + 1]) else e[i]
  }

  predicate IsPrintable(n: nat) {
    || 32 <= n <= 126
    || (161 <= n <= 55295 && n != 8232 && n != 8233)
    || (57344 <= n <= 65533 && n != 65279)
    || 65536 <= n <= 1114111
  }

  /** The letter of the code points that have an escape of their own. */
  function ShortEscape(n: nat): Option<CodeUnit> {
    match n
    case 0 => Some(48)        // \0
    case 7 => Some(97)        // \a
    case 8 => Some(98)        // \b
    case 9 => Some(116)       // \t
    case 10 => Some(110)      // \n
    case 11 => Some(118)      // \v
    case 12 => Some(102)      // \f
    case 13 => Some(114)      // \r
    case 27 => Some(101)      // \e
    case 34 => Some(34)       // \"
    case 92 => Some(92)       // \\
    case 133 => Some(78)      // \N
    case 160 => Some(95)      // \_
    case 8232 => Some(76)     // \L
    case 8233 => Some(80)     // \P
    case _ => None
  }

  function HexDigit(d: nat): CodeUnit
    requires d < 16
  {
    if d < 10 then 48 + d else 55 + d
  }

  /** `toString(16).toUpperCase()`. */
  function HexText(n: nat): (t: Text)
    ensures |t| > 0
  {
    if n < 16 then [HexDigit(n)] else HexText(n / 16) + [HexDigit(n % 16)]
  }

  function ZeroDigits(k: nat): (t: Text)
    ensures |t| == k
  {
    if k == 0 then [] else [48] + ZeroDigits(k - 1)
  }

  /** The digits with zeros in front, at least `width` of them. */
  function PaddedHex(n: nat, width: nat): Text {
    var t := HexText(n);
    if |t| < width then ZeroDigits(width - |t|) + t else t
  }

  /** Code points of a string never exceed 0xFFFFFFFF, the one case the source rejects. */
  function EncodeHex(n: nat): Text {
    if n <= 0xFF then [BACKSLASH, 120] + PaddedHex(n, 2)
    else if n <= 0xFFFF then [BACKSLASH, 117] + PaddedHex(n, 4)
    else [BACKSLASH, 85] + PaddedHex(n, 8)
  }

  /** The text for the code point at `i`. */
  function Piece(e: Text, i: nat): Text
    requires i < |e|
  {
    var n := CodePointAt(e, i);
    var short := ShortEscape(n);
    if short.Some? then [BACKSLASH, short.value]
    else if IsPrintable(n) then if n >= 0x1_0000 then [e[i], e[i + 1]] else [e[i]]
    else EncodeHex(n)
  }

  function Next(e: Text, i: nat): (j: nat)
    requires i < |e|
    ensures i < j <= |e|
  {
    if CodePointAt(e, i) >= 0x1_0000 then i + 2 else i + 1
  }

  /** The escaped text of `e` from `i` on. */
  function Escaped(e: Text, i: nat): Text
    requires i <= |e|
    decreases |e| - i
  {
    if i == |e| then [] else Piece(e, i) + Escaped(e, Next(e, i))
  }

  /** The writer's loop. */
  method EscapeString(e: Text) returns (r: Text)
    ensures r == Escaped(e, 0)
  {
    r := [];
    var i, n := 0, 0;
    while i < |e|
      invariant i <= |e|
      invariant r + Escaped(e, i) == Escaped(e, 0)
    {
      n := CodePointAt(e, i);
      var t := ShortEscape(n);
      PieceAdded(r, e, i);
      if t.None? && IsPrintable(n) {
        r := r + [e[i]];
        if n >= 0x1_0000 {
          r := r + [e[i + 1]];
        }
      } else {
        r := r + if t.Some? then [BACKSLASH, t.value] else EncodeHex(n);
      }
      i := if n >= 0x1_0000 then i + 2 else i + 1;
    }
  }

  lemma PieceAdded(r: Text, e: Text, i: nat)
    requires i < |e|
    ensures (r + Piece(e, i)) + Escaped(e, Next(e, i)) == r + Escaped(e, i)
    ensures CodePointAt(e, i) >= 0x1_0000 ==> r + [e[i]] + [e[i + 1]] == r + [e[i], e[i + 1]]
  {
    var piece, rest := Piece(e, i), Escaped(e, Next(e, i));
    assert Escaped(e, i) == piece + rest;
    Associative(r, piece, rest);
  }

  lemma Associative(t: Text, u: Text, v: Text)
    ensures (t + u) + v == t + (u + v)
  {}

  // ---- What the hexadecimal digits stand for ----

  /** The digits read back, most significant first. */
  function HexValue(t: Text): int {
    if t == [] then 0 else HexValue(t[..|t| - 1]) * 16 + DigitValue(t[|t| - 1])
  }

  /** `fromHexCode`: either case is accepted; -1 for anything else. */
  function DigitValue(c: int): int {
    if 48 <= c <= 57 then c - 48
    else
      var lower := if c / 32 % 2 == 1 then c else c + 32;
      if 97 <= lower <= 102 then lower - 97 + 10 else -1
  }

  predicate AllHex(t: Text) {
    forall i | 0 <= i < |t| :: 0 <= DigitValue(t[i]) < 16
  }

  lemma {:induction false} HexTextValue(n: nat)
    ensures AllHex(HexText(n)) && HexValue(HexText(n)) == n
  {
    if n >= 16 {
      HexTextValue(n / 16);
      var t := HexText(n);
      assert t[..|t| - 1] == HexText(n / 16);
    }
  }

  lemma {:induction false} HexTextWidth(n: nat, width: nat)
    requires n < Power16(width) && width > 0
    ensures |HexText(n)| <= width
  {
    if n >= 16 {
      HexTextWidth(n / 16, width - 1);
    }
  }

  function Power16(k: nat): nat {
    if k == 0 then 1 else 16 * Power16(k - 1)
  }

  lemma {:induction false} ZerosInFront(k: nat, t: Text)
    requires AllHex(t)
    ensures AllHex(ZeroDigits(k) + t) && HexValue(ZeroDigits(k) + t) == HexValue(t)
    decreases |t|, k
  {
    if t != [] {
      ZerosInFront(k, t[..|t| - 1]);
      assert (ZeroDigits(k) + t)[..|ZeroDigits(k) + t| - 1] == ZeroDigits(k) + t[..|t| - 1];
      ZerosAreHex(k);
    } else if k > 0 {
      ZerosAreHex(k);
      ZerosInFront(k - 1, t);
      assert ZeroDigits(k) + t == ZeroDigits(k);
      assert ZeroDigits(k - 1) + t == ZeroDigits(k - 1);
      ZerosAreHex(k - 1);
      assert ZeroDigits(k)[..k - 1] == ZeroDigits(k - 1);
    }
  }

  lemma {:induction false} ZerosAreHex(k: nat)
    ensures forall i | 0 <= i < k :: ZeroDigits(k)[i] == 48
  {
    if k > 0 {
      ZerosAreHex(k - 1);
    }
  }

  lemma PaddedHexValue(n: nat, width: nat)
    requires n < Power16(width) && width > 0
    ensures |PaddedHex(n, width)| == width
    ensures AllHex(PaddedHex(n, width)) && HexValue(PaddedHex(n, width)) == n
  {
    hide HexText, ZeroDigits, HexValue, DigitValue;
    HexTextWidth(n, width);
    HexTextValue(n);
    if |HexText(n)| < width {
      ZerosInFront(width - |HexText(n)|, HexText(n));
    }
  }
}
