/** What a double-quoted scalar is and what it stands for, without a reader: sections 5.7, 6.5 and 7.3.1 of YAML 1.2. */
module YamlScalars {
  import opened CodeUnits
  import opened Options
  import opened YamlText
  import opened YamlReader
  import opened YamlRoundTrip

  // ---- The items of a scalar ----

  /** What stands between the quotes, one item after the other. */
  datatype Item =
    | Plain(unit: CodeUnit)                // a code unit that stands for itself
    | Named(letter: CodeUnit)              // a backslash and a letter
    | Numbered(letter: CodeUnit, digits: Text) // a backslash, an x, u or U, and hexadecimal digits
    | Fold(gap: Text)                      // line breaks and white space
    | Join(gap: Text)                      // a backslash, line breaks and white space

  /** The escape letters of section 5.7 and the characters they stand for. */
  function Section57(c: CodeUnit): Option<CodeUnit> {
    if c == '0' as int then Some(0x00)
    else if c == 'a' as int then Some(0x07)
    else if c == 'b' as int then Some(0x08)
    else if c == 't' as int || c == '\t' as int then Some(0x09)
    else if c == 'n' as int then Some(0x0A)
    else if c == 'v' as int then Some(0x0B)
    else if c == 'f' as int then Some(0x0C)
    else if c == 'r' as int then Some(0x0D)
    else if c == 'e' as int then Some(0x1B)
    else if c == ' ' as int then Some(0x20)
    else if c == '"' as int then Some(0x22)
    else if c == '/' as int then Some(0x2F)
    else if c == '\\' as int then Some(0x5C)
    else if c == 'N' as int then Some(0x85)
    else if c == '_' as int then Some(0xA0)
    else if c == 'L' as int then Some(0x2028)
    else if c == 'P' as int then Some(0x2029)
    else None
  }

  /** How many digits follow the letter of a numbered escape. */
  function Digits(c: CodeUnit): nat {
    if c == 'x' as int then 2 else if c == 'u' as int then 4 else if c == 'U' as int then 8 else 0
  }

  /** The UTF-16 text of a code point; larger numbers, which are no code points, lose the bits that do not fit. */
  function CodePointText(n: nat): Text
    requires n < 0x1_0000_0000
  {
    if n < 0x1_0000 || n >= 0x8000_0000 then [n % 0x1_0000]
    else [(0xD800 + (n - 0x1_0000) / 1024) % 0x1_0000, 0xDC00 + (n - 0x1_0000) % 1024]
  }

  /** A line feed or a carriage return. */
  predicate IsBreak(c: int) {
    c == 0x0A || c == 0x0D
  }

  predicate IsBlank(c: int) {
    c == ' ' as int || c == '\t' as int || IsBreak(c)
  }

  predicate IsGap(gap: Text) {
    gap != [] && IsBreak(gap[0]) && forall i | 0 <= i < |gap| :: IsBlank(gap[i])
  }

  /** Line feeds, and carriage returns that no line feed follows. */
  function LineBreaks(gap: Text): nat {
    if gap == [] then 0
    else (if gap[0] == 10 || (gap[0] == 13 && At(gap, 1) != 10) then 1 else 0) + LineBreaks(gap[1..])
  }

  /** A gap has a line break. */
  lemma {:induction false} GapBreaks(gap: Text)
    requires IsGap(gap)
    ensures LineBreaks(gap) > 0
  {
    if gap[0] == 13 && At(gap, 1) == 10 {
      assert gap[1..][0] == 10;
    }
  }

  predicate IsItem(item: Item) {
    match item
    case Plain(u) => (u == 9 || 32 <= u) && u != QUOTE && u != BACKSLASH
    case Named(letter) => Section57(letter).Some?
    case Numbered(letter, digits) => Digits(letter) > 0 && |digits| == Digits(letter) && AllHex(digits)
    case Fold(gap) => IsGap(gap)
    case Join(gap) => IsGap(gap)
  }

  /** How an item is written. */
  function Source(item: Item): Text {
    match item
    case Plain(u) => [u]
    case Named(letter) => [BACKSLASH, letter]
    case Numbered(letter, digits) => [BACKSLASH, letter] + digits
    case Fold(gap) => gap
    case Join(gap) => [BACKSLASH] + gap
  }

  /** What an item stands for: a single line break is folded to a space, of more the first is dropped. */
  function Value(item: Item): Text
    requires IsItem(item)
  {
    match item
    case Plain(u) => [u]
    case Named(letter) => [Section57(letter).value]
    case Numbered(_, digits) =>
      NumberFits(digits);
      CodePointText(HexValue(digits))
    case Fold(gap) => if LineBreaks(gap) <= 1 then [32] else seq(LineBreaks(gap) - 1, _ => 10)
    case Join(_) => []
  }

  lemma NumberFits(digits: Text)
    requires AllHex(digits) && |digits| <= 8
    ensures 0 <= HexValue(digits) < 0x1_0000_0000
  {
    hide HexValue, AllHex;
    HexValueBound(digits);
    PowerGrows(|digits|, 8);
    assert Power16(4) == 0x1_0000;
    assert Power16(8) == 0x1_0000_0000;
  }

  /** The document markers of section 9.1: three dashes or dots, and then white space, a line break or the end. */
  predicate StartsDocument(text: Text) {
    && |text| > 3 && (text[3] == 0 || IsBlank(text[3]))
    && ((forall i | 0 <= i < 3 :: text[i] == '-' as int) || (forall i | 0 <= i < 3 :: text[i] == '.' as int))
  }

  /** A gap is as long as it can be, and no document marker starts the line it ends in. */
  predicate Follows(gap: Text, rest: Text) {
    && rest != [] && !IsBlank(rest[0])
    && (gap != [] && IsBreak(gap[|gap| - 1]) ==> !StartsDocument(rest))
  }

  function Sources(items: seq<Item>): Text {
    if items == [] then [] else Source(items[0]) + Sources(items[1..])
  }

  predicate IsScalar(items: seq<Item>) {
    items == [] ||
    (&& IsItem(items[0]) && IsScalar(items[1..])
     && (items[0].Fold? || items[0].Join? ==> Follows(items[0].gap, Sources(items[1..]) + [QUOTE])))
  }

  function Values(items: seq<Item>): Text
    requires IsScalar(items)
  {
    if items == [] then [] else Value(items[0]) + Values(items[1..])
  }

  // ---- The tables of the reader and the printer ----

  /** The reader knows exactly the letters of section 5.7, and the printer writes only those. */
  lemma EscapesAreStandard(c: CodeUnit)
    ensures SimpleEscape(c) == Section57(c) && HexLength(c) == Digits(c)
    ensures Section57(c).Some? ==> c < 256 && !IsEol(c) && HexLength(c) == 0
    ensures ShortEscape(c).Some? ==> Section57(ShortEscape(c).value) == Some(c)
  {}

  /** The digits are those of base 16, of either case. */
  lemma DigitsAreHexadecimal(c: CodeUnit)
    ensures '0' as int <= c <= '9' as int ==> DigitValue(c) == c - '0' as int
    ensures 'a' as int <= c <= 'f' as int ==> DigitValue(c) == 10 + c - 'a' as int
    ensures 'A' as int <= c <= 'F' as int ==> DigitValue(c) == 10 + c - 'A' as int
    ensures DigitValue(c) < 0 <==> !('0' as int <= c <= '9' as int || 'a' as int <= c <= 'f' as int || 'A' as int <= c <= 'F' as int)
    ensures DigitValue(c) < 16
  {
    assert c == 32 * (c / 32) + c % 32;
  }

  /** The digits that are written are upper case. */
  lemma DigitsAreUpperCase(d: nat)
    requires d < 16
    ensures HexDigit(d) == "0123456789ABCDEF"[d] as int && DigitValue(HexDigit(d)) == d
  {}

  /** A code point up to 0x10FFFF is read as itself or as its surrogate pair. */
  lemma CodePointIsWritten(n: nat)
    requires n <= 0x10_FFFF
    ensures var t := CodePointText(n);
            if n < 0x1_0000 then t == [n] else |t| == 2 && IsHigh(t[0]) && IsLow(t[1]) && Combined(t[0], t[1]) == n
  {}
}
