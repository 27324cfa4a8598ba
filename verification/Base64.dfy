/** The bundle's base64 codec. */
module Base64 {
  import opened Bytes
  import opened CodeUnits
  import opened Options
  import Words

  type Sextet = v: nat | v < 64

  const PAD: CodeUnit := 61

  // ---- Section 4 of RFC 4648 ----

  /** Table 1: A-Z, a-z, 0-9, + and /. */
  function CharOf(v: Sextet): (c: CodeUnit)
    ensures c != PAD
  {
    if v < 26 then 65 + v else if v < 52 then 71 + v else if v < 62 then v - 4 else if v == 62 then 43 else 47
  }

  function Chars(vs: seq<Sextet>): (t: Text)
    ensures |t| == |vs| && forall i | 0 <= i < |vs| :: t[i] == CharOf(vs[i])
  {
    seq(|vs|, i requires 0 <= i < |vs| => CharOf(vs[i]))
  }

  /** The bits of a number, most significant first. */
  function Bits(n: nat, width: nat): (r: seq<bool>)
    ensures |r| == width
  {
    if width == 0 then [] else Bits(n / 2, width - 1) + [n % 2 == 1]
  }

  function AllBits(b: seq<Byte>): seq<bool> {
    if b == [] then [] else Bits(b[0], 8) + AllBits(b[1..])
  }

  function ValueOf(bits: seq<bool>): nat {
    if bits == [] then 0 else 2 * ValueOf(bits[..|bits| - 1]) + if bits[|bits| - 1] then 1 else 0
  }

  lemma {:induction false} ValueOfBits(n: nat, width: nat)
    ensures ValueOf(Bits(n, width)) == n % Words.Pow2(width)
  {
    if width > 0 {
      ValueOfBits(n / 2, width - 1);
      assert Bits(n, width)[..width - 1] == Bits(n / 2, width - 1);
      HalvesRemainder(n, Words.Pow2(width - 1));
    }
  }

  lemma HalvesRemainder(n: nat, p: nat)
    requires p > 0
    ensures n % (2 * p) == 2 * (n / 2 % p) + n % 2
  {
    var q, r := n / 2 / p, n / 2 % p;
    assert q * (2 * p) == 2 * (q * p);
    RemainderIs(n, 2 * p, q, 2 * r + n % 2);
  }

  /** The bits six at a time, the last ones filled up with zeros. */
  function Sextets(bits: seq<bool>): seq<nat>
    decreases |bits|
  {
    if bits == [] then []
    else if |bits| < 6 then [ValueOf(bits + Falses(6 - |bits|))]
    else [ValueOf(bits[..6])] + Sextets(bits[6..])
  }

  function Falses(k: nat): (r: seq<bool>)
    ensures |r| == k
  {
    if k == 0 then [] else [false] + Falses(k - 1)
  }

  // ---- The encoder ----

  /** The four characters of three bytes. */
  function Quad(x: Byte, y: Byte, z: Byte): (vs: seq<Sextet>)
    ensures |vs| == 4
  {
    var n := Joined3(x, y, z);
    [n / 0x4_0000 % 64, n / 4096 % 64, n / 64 % 64, n % 64]
  }

  function Joined3(x: nat, y: nat, z: nat): nat {
    x * 0x1_0000 + y * 256 + z
  }

  function Joined2(x: nat, y: nat): nat {
    x * 256 + y
  }

  /** The characters of a last byte, and of two last bytes. */
  function Rest1(x: nat): (vs: seq<Sextet>)
    requires x < 256
    ensures |vs| == 2
  {
    [x / 4, x * 16 % 64]
  }

  function Rest2(x: Byte, y: Byte): (vs: seq<Sextet>)
    ensures |vs| == 3
  {
    var n := Joined2(x, y);
    [n / 1024, n / 16 % 64, n * 4 % 64]
  }

  /** The sextets of all bytes, the rest of one or two bytes included. */
  function EncodedSextets(b: seq<Byte>): seq<Sextet>
    decreases |b|
  {
    if |b| == 0 then []
    else if |b| == 1 then Rest1(b[0])
    else if |b| == 2 then Rest2(b[0], b[1])
    else Quad(b[0], b[1], b[2]) + EncodedSextets(b[3..])
  }

  function Padding(length: nat): Text {
    if length % 3 == 1 then [PAD, PAD] else if length % 3 == 2 then [PAD] else []
  }

  function Encoded(b: seq<Byte>): Text {
    Chars(EncodedSextets(b)) + Padding(|b|)
  }

  lemma {:induction false} SextetsJoin(x: seq<Byte>, y: seq<Byte>)
    requires |x| % 3 == 0
    ensures EncodedSextets(x + y) == EncodedSextets(x) + EncodedSextets(y)
    decreases |x|
  {
    hide Quad, Rest1, Rest2;
    if x == [] {
      assert x + y == y;
    } else {
      SextetsJoin(x[3..], y);
      assert (x + y)[3..] == x[3..] + y;
    }
  }

  lemma CharsJoin(u: seq<Sextet>, v: seq<Sextet>)
    ensures Chars(u + v) == Chars(u) + Chars(v)
  {}

  /** `encodeChunk`. */
  method EncodeChunk(b: seq<Byte>, start: nat, end: nat) returns (t: Text)
    requires start <= end <= |b| && (end - start) % 3 == 0
    ensures t == Chars(EncodedSextets(b[start..end]))
  {
    hide Quad, Chars, EncodedSextets;
    t := [];
    var s := start;
    NoSextets();
    assert b[start..start] == [];
    while s < end
      invariant start <= s <= end && (s - start) % 3 == 0
      invariant t == Chars(EncodedSextets(b[start..s]))
    {
      OneQuad(b[start..s], b[s], b[s + 1], b[s + 2]);
      assert b[start..s] + [b[s], b[s + 1], b[s + 2]] == b[start..s + 3];
      t := t + Chars(Quad(b[s], b[s + 1], b[s + 2]));
      s := s + 3;
    }
  }

  lemma NoSextets()
    ensures Chars(EncodedSextets([])) == []
  {}

  lemma OneQuad(b: seq<Byte>, x: Byte, y: Byte, z: Byte)
    requires |b| % 3 == 0
    ensures Chars(EncodedSextets(b + [x, y, z])) == Chars(EncodedSextets(b)) + Chars(Quad(x, y, z))
  {
    hide Quad, Chars;
    SextetsOfThree(x, y, z);
    hide EncodedSextets;
    SextetsJoin(b, [x, y, z]);
    CharsJoin(EncodedSextets(b), Quad(x, y, z));
  }

  lemma SextetsOfThree(x: Byte, y: Byte, z: Byte)
    ensures EncodedSextets([x, y, z]) == Quad(x, y, z)
  {
    hide Quad;
    assert [x, y, z][3..] == [];
    assert EncodedSextets([x, y, z]) == Quad(x, y, z) + EncodedSextets([]);
  }

  const MAX_CHUNK_LENGTH: nat := 16383

  /** The loop of `fromByteArray`: in chunks, which are whole groups of three bytes. */
  method EncodeWhole(b: seq<Byte>, whole: nat) returns (t: Text)
    requires whole <= |b| && whole % 3 == 0
    ensures t == Chars(EncodedSextets(b[..whole]))
  {
    hide EncodedSextets, Chars;
    t := [];
    var s := 0;
    NoSextets();
    assert b[0..0] == [];
    while s < whole
      invariant 0 <= s && (s <= whole || s < whole + MAX_CHUNK_LENGTH) && s % 3 == 0
      invariant t == Chars(EncodedSextets(b[..if s < whole then s else whole]))
    {
      var end := if s + MAX_CHUNK_LENGTH > whole then whole else s + MAX_CHUNK_LENGTH;
      var chunk := EncodeChunk(b, s, end);
      SextetsJoin(b[..s], b[s..end]);
      CharsJoin(EncodedSextets(b[..s]), EncodedSextets(b[s..end]));
      assert b[..s] + b[s..end] == b[..end];
      t := t + chunk;
      s := s + MAX_CHUNK_LENGTH;
    }
  }

  /** `fromByteArray`. */
  method FromByteArray(b: seq<Byte>) returns (t: Text)
    ensures t == Encoded(b)
  {
    hide EncodedSextets, Chars, Rest1, Rest2;
    var extra := |b| % 3;
    var whole := |b| - extra;
    t := EncodeWhole(b, whole);
    EncodedInTwo(b, whole);
    NoSextets();
    hide Encoded, Padding;
    if extra == 1 {
      t := t + Chars(Rest1(b[|b| - 1])) + [PAD, PAD];
    } else if extra == 2 {
      t := t + Chars(Rest2(b[|b| - 2], b[|b| - 1])) + [PAD];
    }
  }

  /** The whole groups, the rest and the padding. */
  lemma EncodedInTwo(b: seq<Byte>, whole: nat)
    requires whole <= |b| < whole + 3 && whole % 3 == 0
    ensures Encoded(b) == Chars(EncodedSextets(b[..whole])) +
              if |b| == whole then Chars(EncodedSextets([]))
              else if |b| == whole + 1 then Chars(Rest1(b[|b| - 1])) + [PAD, PAD]
              else Chars(Rest2(b[|b| - 2], b[|b| - 1])) + [PAD]
  {
    hide EncodedSextets, Chars, Rest1, Rest2;
    var front, rest := b[..whole], b[whole..];
    assert front + rest == b;
    SextetsJoin(front, rest);
    CharsJoin(EncodedSextets(front), EncodedSextets(rest));
    Rest(rest);
    PaddingOfRest(|b|, whole, |rest|);
    var pads := Padding(|b|);
    assert Encoded(b) == Chars(EncodedSextets(front)) + (Chars(EncodedSextets(rest)) + pads);
    if |b| == whole {
      assert rest == [] && Chars(EncodedSextets([])) + [] == Chars(EncodedSextets([]));
    }
  }

  lemma Rest(b: seq<Byte>)
    requires |b| < 3
    ensures EncodedSextets(b) == if |b| == 0 then [] else if |b| == 1 then Rest1(b[0]) else Rest2(b[0], b[1])
  {}

  // ---- The encoder follows the standard ----

  lemma QuadDigits(x: Byte, y: Byte, z: Byte)
    ensures Quad(x, y, z) == [x / 4, x % 4 * 16 + y / 16, y % 16 * 4 + z / 64, z % 64]
  {
    FourSextets(x / 4, x % 4 * 16 + y / 16, y % 16 * 4 + z / 64, z % 64);
    assert Joined3(x, y, z) == Joined4(x / 4, x % 4 * 16 + y / 16, y % 16 * 4 + z / 64, z % 64);
  }

  function Joined4(a: nat, b: nat, c: nat, d: nat): nat {
    a * 0x4_0000 + b * 4096 + c * 64 + d
  }

  lemma FourSextets(a: nat, b: nat, c: nat, d: nat)
    requires a < 64 && b < 64 && c < 64 && d < 64
    ensures var n := Joined4(a, b, c, d); n / 0x4_0000 % 64 == a && n / 4096 % 64 == b && n / 64 % 64 == c && n % 64 == d
  {
    var n := Joined4(a, b, c, d);
    RemainderIs(n, 0x4_0000, a, b * 4096 + c * 64 + d);
    RemainderIs(n, 4096, a * 64 + b, c * 64 + d);
    RemainderIs(n, 64, a * 4096 + b * 64 + c, d);
    RemainderIs(a * 64 + b, 64, a, b);
    RemainderIs(a * 4096 + b * 64 + c, 64, a * 64 + b, c);
  }

  lemma Nested(n: nat)
    ensures n / 1024 == n / 16 / 64
  {
    RemainderIs(n, 1024, n / 16 / 64, 16 * (n / 16 % 64) + n % 16);
  }

  lemma RestDigits(x: Byte, y: Byte)
    ensures Rest1(x) == [x / 4, x % 4 * 16]
    ensures Rest2(x, y) == [x / 4, x % 4 * 16 + y / 16, y % 16 * 4]
  {
    var n, b: nat := Joined2(x, y), x % 4 * 16 + y / 16;
    var m: nat := x;
    RemainderIs(m * 16, 64, m / 4, m % 4 * 16);
    RemainderIs(n, 16, 64 * (x / 4) + b, y % 16);
    RemainderIs(64 * (x / 4) + b, 64, x / 4, b);
    Nested(n);
    RemainderIs(n * 4, 64, 64 * (x / 4) + b, y % 16 * 4);
  }

  /** The bits of a number with `low` in its last `k` places. */
  lemma {:induction false} BitsJoin(high: nat, low: nat, j: nat, k: nat)
    requires low < Words.Pow2(k)
    ensures Bits(high * Words.Pow2(k) + low, j + k) == Bits(high, j) + Bits(low, k)
  {
    if k > 0 {
      Doubled(high, Words.Pow2(k - 1));
      BitsJoin(high, low / 2, j, k - 1);
      HalfOf(high * Words.Pow2(k - 1), low);
    }
  }

  lemma Doubled(m: nat, p: nat)
    ensures m * (2 * p) == 2 * (m * p)
  {}

  lemma HalfOf(m: nat, low: nat)
    ensures (2 * m + low) / 2 == m + low / 2 && (2 * m + low) % 2 == low % 2
  {}

  /** The ways in which bytes and sextets cut each other. */
  lemma Cuts(high: nat, low: nat)
    ensures low < 4 ==> Bits(high * 4 + low, 8) == Bits(high, 6) + Bits(low, 2)
    ensures low < 16 ==> Bits(high * 16 + low, 8) == Bits(high, 4) + Bits(low, 4)
    ensures low < 16 ==> Bits(high * 16 + low, 6) == Bits(high, 2) + Bits(low, 4)
    ensures low < 4 ==> Bits(high * 4 + low, 6) == Bits(high, 4) + Bits(low, 2)
    ensures low < 64 ==> Bits(high * 64 + low, 8) == Bits(high, 2) + Bits(low, 6)
  {
    hide Bits;
    assert Words.Pow2(1) == 2 && Words.Pow2(2) == 4 && Words.Pow2(3) == 8 && Words.Pow2(4) == 16 && Words.Pow2(5) == 32 && Words.Pow2(6) == 64;
    hide Words.Pow2;
    if low < 4 {
      BitsJoin(high, low, 6, 2);
      BitsJoin(high, low, 4, 2);
    }
    if low < 16 {
      BitsJoin(high, low, 4, 4);
      BitsJoin(high, low, 2, 4);
    }
    if low < 64 {
      BitsJoin(high, low, 2, 6);
    }
  }

  lemma TakeSextet(v: nat, bits: seq<bool>)
    requires v < 64
    ensures Sextets(Bits(v, 6) + bits) == [v] + Sextets(bits)
  {
    hide Bits, ValueOf;
    ValueOfBits(v, 6);
    assert Words.Pow2(2) == 4 && Words.Pow2(4) == 16 && Words.Pow2(6) == 64;
    assert (Bits(v, 6) + bits)[..6] == Bits(v, 6) && (Bits(v, 6) + bits)[6..] == bits;
  }

  lemma TakeLast(v: nat, k: nat)
    requires (k == 2 && v < 4) || (k == 4 && v < 16)
    ensures Sextets(Bits(v, k)) == [v * Words.Pow2(6 - k)]
  {
    hide Bits, ValueOf;
    assert Words.Pow2(2) == 4 && Words.Pow2(4) == 16 && Words.Pow2(6) == 64;
    NoBits(6 - k);
    BitsJoin(v, 0, k, 6 - k);
    ValueOfBits(v * Words.Pow2(6 - k), 6);
  }

  lemma {:induction false} NoBits(k: nat)
    ensures Bits(0, k) == Falses(k)
  {
    if k > 0 {
      NoBits(k - 1);
      assert Falses(k) == Falses(k - 1) + [false] by {
        FalsesAre(k);
        FalsesAre(k - 1);
      }
    }
  }

  lemma {:induction false} FalsesAre(k: nat)
    ensures forall i | 0 <= i < k :: !Falses(k)[i]
  {
    if k > 0 {
      FalsesAre(k - 1);
    }
  }

  lemma QuadBits(x: Byte, y: Byte, z: Byte, bits: seq<bool>)
    ensures Sextets(Bits(x, 8) + Bits(y, 8) + Bits(z, 8) + bits) == Quad(x, y, z) + Sextets(bits)
  {
    hide Bits, Sextets, Quad;
    QuadDigits(x, y, z);
    var a, b, c, d: nat := x / 4, x % 4 * 16 + y / 16, y % 16 * 4 + z / 64, z % 64;
    Cuts(x / 4, x % 4);
    Cuts(y / 16, y % 16);
    Cuts(z / 64, z % 64);
    Cuts(x % 4, y / 16);
    Cuts(y % 16, z / 64);
    var rest := Bits(d, 6) + bits;
    assert Bits(x, 8) + Bits(y, 8) + Bits(z, 8) + bits == Bits(a, 6) + (Bits(b, 6) + (Bits(c, 6) + rest));
    TakeSextet(a, Bits(b, 6) + (Bits(c, 6) + rest));
    TakeSextet(b, Bits(c, 6) + rest);
    TakeSextet(c, rest);
    TakeSextet(d, bits);
  }

  lemma OneRestBits(x: Byte)
    ensures Sextets(Bits(x, 8)) == Rest1(x)
  {
    hide Bits, Sextets, Rest1;
    RestDigits(x, 0);
    assert Words.Pow2(4) == 16;
    hide Words.Pow2;
    Cuts(x / 4, x % 4);
    TakeSextet(x / 4, Bits(x % 4, 2));
    TakeLast(x % 4, 2);
  }

  lemma TwoPairs(s: seq<bool>, t: seq<bool>, u: seq<bool>, v: seq<bool>)
    ensures (s + t) + (u + v) == s + ((t + u) + v)
  {}

  lemma TwoRestBits(x: Byte, y: Byte)
    ensures Sextets(Bits(x, 8) + Bits(y, 8)) == Rest2(x, y)
  {
    hide Bits, Sextets, Rest1, Rest2;
    RestDigits(x, y);
    assert Words.Pow2(2) == 4;
    hide Words.Pow2;
    var b: nat := x % 4 * 16 + y / 16;
    Cuts(x / 4, x % 4);
    Cuts(y / 16, y % 16);
    Cuts(x % 4, y / 16);
    TwoPairs(Bits(x / 4, 6), Bits(x % 4, 2), Bits(y / 16, 4), Bits(y % 16, 4));
    TakeSextet(x / 4, Bits(b, 6) + Bits(y % 16, 4));
    TakeSextet(b, Bits(y % 16, 4));
    TakeLast(y % 16, 4);
  }

  /**
    The output is that of the standard: the bits of all bytes six at a time, zeros at the end, each six
    as a character of the alphabet, and padding to a multiple of four characters.
  */
  lemma EncodedIsStandard(b: seq<Byte>)
    ensures EncodedSextets(b) == Sextets(AllBits(b))
    ensures |Encoded(b)| % 4 == 0 && |Padding(|b|)| < 3
  {
    hide EncodedSextets, Sextets, AllBits;
    SextetsAreStandard(b);
    CountOfSextets(b);
  }

  lemma {:induction false} CountOfSextets(b: seq<Byte>)
    ensures (|EncodedSextets(b)| + |Padding(|b|)|) % 4 == 0
    decreases |b|
  {
    hide Quad, Rest1, Rest2;
    if |b| >= 3 {
      RestIsWhole(|b|, 3);
      CountOfSextets(b[3..]);
    }
  }

  lemma {:induction false} SextetsAreStandard(b: seq<Byte>)
    ensures EncodedSextets(b) == Sextets(AllBits(b))
    decreases |b|
  {
    hide Bits, Sextets, Quad, Rest1, Rest2, AllBits;
    if |b| >= 3 {
      SextetsAreStandard(b[3..]);
      QuadBits(b[0], b[1], b[2], AllBits(b[3..]));
      AllBitsOfThree(b);
    } else if |b| == 2 {
      TwoRestBits(b[0], b[1]);
      AllBitsStep(b);
      AllBitsOfOne(b[1..]);
    } else if |b| == 1 {
      OneRestBits(b[0]);
      AllBitsOfOne(b);
    } else {
      NoSextetsOfNoBits();
    }
  }

  lemma AllBitsOfOne(b: seq<Byte>)
    requires |b| == 1
    ensures AllBits(b) == Bits(b[0], 8)
  {
    hide Bits;
    assert Bits(b[0], 8) + [] == Bits(b[0], 8);
  }

  // ---- Its characters ----

  /** Table 1 of RFC 4648 by its letters. */
  predicate IsLetterOf(c: CodeUnit, v: nat) {
    if v < 26 then c == 'A' as int + v
    else if v < 52 then c == 'a' as int + (v - 26)
    else if v < 62 then c == '0' as int + (v - 52)
    else if v == 62 then c == '+' as int
    else v == 63 && c == '/' as int
  }

  /** Six bits from a place on, with zeros after the last one. */
  function SixBits(bits: seq<bool>, p: nat): (r: seq<bool>)
    requires p < |bits|
    ensures |r| == 6
  {
    if p + 6 <= |bits| then bits[p..p + 6] else bits[p..] + Falses(p + 6 - |bits|)
  }

  lemma {:induction false} SextetAt(bits: seq<bool>, i: nat)
    ensures 6 * i < |bits| <==> i < |Sextets(bits)|
    ensures i < |Sextets(bits)| ==> Sextets(bits)[i] == ValueOf(SixBits(bits, 6 * i))
    decreases |bits|
  {
    hide ValueOf, SixBits;
    if |bits| >= 6 && i > 0 {
      SextetAt(bits[6..], i - 1);
      if 6 * i < |bits| {
        SixBitsLater(bits, 6 * i);
      }
    } else if bits != [] && i == 0 {
      FirstSixBits(bits);
    }
  }

  lemma SixBitsLater(bits: seq<bool>, p: nat)
    requires 6 <= p < |bits|
    ensures SixBits(bits[6..], p - 6) == SixBits(bits, p)
  {
    hide Falses;
    if p + 6 <= |bits| {
      SliceOfRest(bits, p - 6, p);
    } else {
      SliceOfRest(bits, p - 6, |bits| - 6);
      ToTheEnd(bits[6..], p - 6);
      ToTheEnd(bits, p);
    }
  }

  lemma ToTheEnd(s: seq<bool>, i: nat)
    requires i <= |s|
    ensures s[i..] == s[i..|s|]
  {}

  lemma SliceOfRest(s: seq<bool>, i: nat, j: nat)
    requires i <= j && 6 + j <= |s|
    ensures s[6..][i..j] == s[6 + i..6 + j]
  {}

  lemma FirstSixBits(bits: seq<bool>)
    requires bits != []
    ensures SixBits(bits, 0) == if |bits| >= 6 then bits[..6] else bits + Falses(6 - |bits|)
  {
    assert bits[0..] == bits;
  }

  lemma {:induction false} BitsPerByte(b: seq<Byte>)
    ensures |AllBits(b)| == 8 * |b|
  {
    if b != [] {
      BitsPerByte(b[1..]);
    }
  }

  /** Character i stands for the i-th six bits of all bytes, as long as there are any, and is '=' after that. */
  lemma CharactersAreStandard(b: seq<Byte>, i: nat)
    requires i < |Encoded(b)|
    ensures |AllBits(b)| == 8 * |b|
    ensures if 6 * i < 8 * |b| then IsLetterOf(Encoded(b)[i], ValueOf(SixBits(AllBits(b), 6 * i)))
            else Encoded(b)[i] == '=' as int
  {
    hide EncodedSextets, Sextets, AllBits, ValueOf, SixBits;
    SextetsAreStandard(b);
    BitsPerByte(b);
    SextetAt(AllBits(b), i);
  }

  lemma NoSextetsOfNoBits()
    ensures Sextets(AllBits([])) == []
  {}

  lemma AllBitsOfThree(b: seq<Byte>)
    requires |b| >= 3
    ensures AllBits(b) == Bits(b[0], 8) + Bits(b[1], 8) + Bits(b[2], 8) + AllBits(b[3..])
  {
    hide Bits, AllBits;
    AllBitsStep(b);
    AllBitsStep(b[1..]);
    AllBitsStep(b[2..]);
    assert b[1..][1..] == b[2..] && b[2..][1..] == b[3..];
    var x, y, z, rest := Bits(b[0], 8), Bits(b[1], 8), Bits(b[2], 8), AllBits(b[3..]);
    assert AllBits(b) == x + (y + (z + rest));
    FourJoined(x, y, z, rest);
  }

  lemma FourJoined(x: seq<bool>, y: seq<bool>, z: seq<bool>, rest: seq<bool>)
    ensures x + (y + (z + rest)) == x + y + z + rest
  {}

  lemma AllBitsStep(b: seq<Byte>)
    requires b != []
    ensures AllBits(b) == Bits(b[0], 8) + AllBits(b[1..])
  {}

  // ---- The decoder ----

  /** The decoder's table; characters it does not know count as zero. */
  function Lookup(c: CodeUnit): (v: Sextet)
  {
    if 65 <= c <= 90 then c - 65
    else if 97 <= c <= 122 then c - 71
    else if 48 <= c <= 57 then c + 4
    else if c == 43 || c == 45 then 62
    else if c == 47 || c == 95 then 63
    else 0
  }

  /** The alphabet read backwards, with '-' and '_' as a second way to write 62 and 63; all else counts as zero. */
  lemma LookupIs(c: CodeUnit)
    ensures 'A' as int <= c <= 'Z' as int ==> Lookup(c) == c - 'A' as int
    ensures 'a' as int <= c <= 'z' as int ==> Lookup(c) == 26 + (c - 'a' as int)
    ensures '0' as int <= c <= '9' as int ==> Lookup(c) == 52 + (c - '0' as int)
    ensures c == '+' as int || c == '-' as int ==> Lookup(c) == 62
    ensures c == '/' as int || c == '_' as int ==> Lookup(c) == 63
    ensures (forall v: Sextet :: !IsLetterOf(c, v)) && c != '-' as int && c != '_' as int ==> Lookup(c) == 0
  {
    assert IsLetterOf(c, Lookup(c)) || Lookup(c) == 0 || c == '-' as int || c == '_' as int;
  }

  lemma LookupOfChar(v: Sextet)
    ensures Lookup(CharOf(v)) == v
  {}

  function FirstPad(t: Text): (i: nat)
    ensures i <= |t| && (i < |t| ==> t[i] == PAD) && forall j | 0 <= j < i :: t[j] != PAD
  {
    if t == [] || t[0] == PAD then 0 else 1 + FirstPad(t[1..])
  }

  /** `getLens`: the characters before the first padding, and the padding there should be. */
  function Lengths(t: Text): Option<(nat, nat)> {
    if |t| % 4 > 0 then None
    else
      var valid := FirstPad(t);
      Some((valid, if valid == |t| then 0 else 4 - valid % 4))
  }

  /** `byteLength`; it can be negative on text that is not base64. */
  function ByteLength(t: Text): (r: Option<int>)
    ensures r.Some? <==> Lengths(t).Some?
  {
    var lengths := Lengths(t);
    if lengths.None? then None
    else Some(3 * (lengths.value.0 + lengths.value.1) / 4 - lengths.value.1)
  }

  /** The three bytes of four characters. */
  function QuadBytes(t: Text): (b: seq<Byte>)
    requires |t| == 4
    ensures |b| == 3
  {
    var n := Joined4(Lookup(t[0]), Lookup(t[1]), Lookup(t[2]), Lookup(t[3]));
    [n / 0x1_0000 % 256, n / 256 % 256, n % 256]
  }

  /** The bytes of whole groups of four characters. */
  function GroupBytes(t: Text): (b: seq<Byte>)
    requires |t| % 4 == 0
    ensures |b| == |t| / 4 * 3
    decreases |t|
  {
    if t == [] then []
    else
      RestIsWhole(|t|, 4);
      QuadBytes(t[..4]) + GroupBytes(t[4..])
  }

  function TailBytes2(t: Text): (b: seq<Byte>)
    requires |t| == 2
    ensures |b| == 1
  {
    var n: nat := Lookup(t[0]) as int * 4 + Lookup(t[1]) / 16;
    [n % 256]
  }

  function TailBytes3(t: Text): (b: seq<Byte>)
    requires |t| == 3
    ensures |b| == 2
  {
    var n: nat := Lookup(t[0]) as int * 1024 + Lookup(t[1]) as int * 16 + Lookup(t[2]) / 4;
    [n / 256 % 256, n % 256]
  }

  /** Where the whole groups of four end. */
  function GroupsEnd(valid: nat, pads: nat): int {
    if pads == 0 then valid else valid - 4 + pads - (if pads == 4 then 4 else 0)
  }

  /** The bytes after the whole groups, when there is padding. */
  function Tail(t: Text, i: nat, pads: nat): seq<Byte>
    requires i + (if pads == 2 then 2 else if pads == 1 then 3 else 0) <= |t|
  {
    if pads == 2 then TailBytes2(t[i..i + 2])
    else if pads == 1 then TailBytes3(t[i..i + 3])
    else if pads == 4 then [0, 0]
    else []
  }

  /** What `toByteArray` returns; four pads are text with padding where a group of four would start. */
  function Decoded(t: Text): Option<seq<Byte>> {
    var lengths := Lengths(t);
    if lengths.None? then None
    else
      var (v, pads) := lengths.value;
      var i := GroupsEnd(v, pads);
      SizeOfParts(t);
      hide Lengths, GroupsEnd, ByteLength;
      if i < 0 then None else Some(GroupBytes(t[..i]) + Tail(t, i, pads))
  }

  lemma {:induction false} GroupsJoin(t: Text, u: Text)
    requires |t| % 4 == 0 && |u| == 4
    ensures GroupBytes(t + u) == GroupBytes(t) + QuadBytes(u)
    decreases |t|
  {
    hide QuadBytes;
    if t == [] {
      assert t + u == u && u[..4] == u && u[4..] == [];
      assert GroupBytes(u) == QuadBytes(u) + GroupBytes([]);
    } else {
      RestIsWhole(|t|, 4);
      GroupsJoin(t[4..], u);
      assert (t + u)[..4] == t[..4] && (t + u)[4..] == t[4..] + u;
    }
  }

  /** The array has room for the whole groups and for what comes after them. */
  lemma SizeOfParts(t: Text)
    requires Lengths(t).Some?
    ensures var (v, pads) := Lengths(t).value;
            var i, size := GroupsEnd(v, pads), ByteLength(t).value;
            && v <= |t| && |t| % 4 == 0 && (size < 0 <==> i < 0) && i % 4 == 0
            && i + (if pads == 2 then 2 else if pads == 1 then 3 else 0) <= v
            && size == i / 4 * 3 + (if pads == 1 || pads == 4 then 2 else if pads == 2 then 1 else 0)
            && (if pads > 0 then v - 4 else v) <= i < (if pads > 0 then v - 4 else v) + 4
  {
    hide FirstPad;
    var v := Lengths(t).value.0;
    RoundedUp(v / 4, v % 4);
  }

  /** A length rounded up to whole groups of four, in quarters. */
  lemma RoundedUp(q: nat, r: nat)
    requires r < 4
    ensures (4 * q + r) % 4 == r && 3 * (4 * q) / 4 == 3 * q && 3 * (4 * q + 4) / 4 == 3 * q + 3
    ensures 4 * q / 4 == q && (4 * q - 4) / 4 == q - 1 && (4 * q) % 4 == (4 * q - 4) % 4 == 0
  {}

  /** `toByteArray`: `None` where it throws. */
  method ToByteArray(t: Text) returns (r: Option<seq<Byte>>)
    ensures r == Decoded(t)
  {
    hide QuadBytes, GroupBytes, TailBytes2, TailBytes3, FirstPad, Lengths, ByteLength, GroupsEnd;
    var lengths := Lengths(t);
    if lengths.None? {
      return None;
    }
    SizeOfParts(t);
    var size := ByteLength(t).value;
    if size < 0 {
      return None;
    }
    var (v, pads) := lengths.value;
    var u := new Byte[size](_ => 0);
    var f: int := v;
    if pads > 0 {
      f := f - 4;
    }
    var i := DecodeGroups(t, u, f);
    assert i == GroupsEnd(v, pads);
    var c, tail := i / 4 * 3, Tail(t, i, pads);
    if pads == 2 {
      u[c] := tail[0];
    } else if pads == 1 {
      u[c], u[c + 1] := tail[0], tail[1];
    }
    assert u[..] == u[..c] + tail;
    r := Some(u[..]);
  }

  /** The loop of `toByteArray`, over the groups of four that start before `f`. */
  method DecodeGroups(t: Text, u: array<Byte>, f: int) returns (i: nat)
    requires f <= |t| && |t| % 4 == 0 && (f + 3) / 4 * 3 <= u.Length && forall k | 0 <= k < u.Length :: u[k] == 0
    modifies u
    ensures i % 4 == 0 && i <= |t| && if f <= 0 then i == 0 else f <= i < f + 4
    ensures i / 4 * 3 <= u.Length && u[..i / 4 * 3] == GroupBytes(t[..i])
    ensures forall k | i / 4 * 3 <= k < u.Length :: u[k] == 0
  {
    hide QuadBytes, GroupBytes;
    NoGroups();
    assert t[..0] == [];
    i := 0;
    var c := 0;
    while i < f
      invariant 0 <= i <= |t| && i % 4 == 0 && (if f <= 0 then i == 0 else i < f + 4)
      invariant c == i / 4 * 3 <= u.Length
      invariant u[..c] == GroupBytes(t[..i])
      invariant forall k | c <= k < u.Length :: u[k] == 0
    {
      GroupsJoin(t[..i], t[i..i + 4]);
      assert t[..i] + t[i..i + 4] == t[..i + 4];
      var b := QuadBytes(t[i..i + 4]);
      u[c], u[c + 1], u[c + 2] := b[0], b[1], b[2];
      assert u[..c + 3] == u[..c] + b;
      c := c + 3;
      i := i + 4;
    }
  }

  lemma NoGroups()
    ensures GroupBytes([]) == []
  {}

  // ---- The round trip ----

  lemma QuadBytesOfQuad(x: Byte, y: Byte, z: Byte)
    ensures QuadBytes(Chars(Quad(x, y, z))) == [x, y, z]
  {
    QuadDigits(x, y, z);
    hide Quad, CharOf, Lookup;
    var vs := Quad(x, y, z);
    LookupOfChar(vs[0]);
    LookupOfChar(vs[1]);
    LookupOfChar(vs[2]);
    LookupOfChar(vs[3]);
    var n := Joined3(x, y, z);
    assert n == Joined4(vs[0], vs[1], vs[2], vs[3]);
    RemainderIs(n, 0x1_0000, x, Joined2(y, z));
    RemainderIs(n, 256, Joined2(x, y), z);
    RemainderIs(Joined2(x, y), 256, x, y);
  }

  lemma TailBytesOfRest(x: Byte, y: Byte)
    ensures TailBytes2(Chars(Rest1(x))) == [x] && TailBytes3(Chars(Rest2(x, y))) == [x, y]
  {
    RestDigits(x, y);
    hide Rest1, Rest2, CharOf, Lookup;
    var us, vs := Rest1(x), Rest2(x, y);
    LookupOfChar(us[0]);
    LookupOfChar(us[1]);
    LookupOfChar(vs[0]);
    LookupOfChar(vs[1]);
    LookupOfChar(vs[2]);
    RemainderIs(x % 4 * 16, 16, x % 4, 0);
    RemainderIs(y % 16 * 4, 4, y % 16, 0);
    RemainderIs(Joined2(x, y), 256, x, y);
  }

  lemma {:induction false} SextetsLength(b: seq<Byte>)
    requires |b| % 3 == 0
    ensures |EncodedSextets(b)| == |b| / 3 * 4
    decreases |b|
  {
    hide Quad, Rest1, Rest2;
    if b != [] {
      RestIsWhole(|b|, 3);
      SextetsLength(b[3..]);
    }
  }

  lemma {:induction false} GroupBytesOfSextets(b: seq<Byte>, t: Text)
    requires |b| % 3 == 0 && |t| % 4 == 0 && t == Chars(EncodedSextets(b))
    ensures GroupBytes(t) == b
    decreases |b|
  {
    hide Quad, QuadBytes, Rest1, Rest2, Chars;
    if b != [] {
      RestIsWhole(|b|, 3);
      QuadBytesOfQuad(b[0], b[1], b[2]);
      var first, rest := Quad(b[0], b[1], b[2]), EncodedSextets(b[3..]);
      SextetsLength(b[3..]);
      CharsJoin(first, rest);
      assert t == Chars(first) + Chars(rest);
      assert t[..4] == Chars(first) && t[4..] == Chars(rest);
      GroupBytesOfSextets(b[3..], t[4..]);
      assert b == [b[0], b[1], b[2]] + b[3..];
    }
  }

  lemma {:induction false} FirstPadIs(t: Text, pads: Text)
    requires forall i | 0 <= i < |t| :: t[i] != PAD
    requires pads == [] || pads[0] == PAD
    ensures FirstPad(t + pads) == |t|
    decreases |t|
  {
    if t == [] {
      assert t + pads == pads;
    } else {
      FirstPadIs(t[1..], pads);
      assert (t + pads)[1..] == t[1..] + pads;
    }
  }

  /** The parts of an encoding. */
  lemma EncodedParts(b: seq<Byte>, front: seq<Byte>, rest: seq<Byte>)
    requires b == front + rest && |front| % 3 == 0 && |rest| < 3
    ensures Encoded(b) == Chars(EncodedSextets(front)) + Chars(EncodedSextets(rest)) + Padding(|b|)
  {
    hide EncodedSextets, Padding, Chars, CharOf;
    SextetsJoin(front, rest);
    CharsJoin(EncodedSextets(front), EncodedSextets(rest));
  }

  lemma PaddingOfRest(n: nat, whole: nat, rest: nat)
    requires whole % 3 == 0 && rest < 3 && n == whole + rest
    ensures var pads := Padding(n); |pads| == (if rest == 0 then 0 else 3 - rest) && (pads == [] || pads[0] == PAD)
  {
    RemainderIs(n, 3, whole / 3, rest);
  }

  lemma LengthsOfParts(t: Text, u: Text, pads: Text)
    requires forall i | 0 <= i < |t| :: t[i] != PAD
    requires forall i | 0 <= i < |u| :: u[i] != PAD
    requires pads == [] || pads[0] == PAD
    requires |t| % 4 == 0 && |u| + |pads| == if pads == [] then 0 else 4
    ensures var s := t + u + pads;
            && Lengths(s) == Some((|t| + |u|, |pads|))
            && s[..|t|] == t && s[|t|..|t| + |u|] == u
  {
    hide FirstPad;
    FirstPadIs(t + u, pads);
  }

  /** Decoding the encoding of any bytes gives them back, and `byteLength` of the text is their number. */
  lemma RoundTrip(b: seq<Byte>)
    ensures Decoded(Encoded(b)) == Some(b) && ByteLength(Encoded(b)) == Some(|b|)
  {
    hide EncodedSextets, GroupBytes, TailBytes2, TailBytes3, FirstPad, Rest1, Rest2, Encoded, Lengths, Chars, CharOf,
         Padding;
    var whole := |b| / 3 * 3;
    var front, rest := b[..whole], b[whole..];
    assert b == front + rest;
    EncodedParts(b, front, rest);
    PaddingOfRest(|b|, whole, |rest|);
    SextetsLength(front);
    Rest(rest);
    var t, u := Chars(EncodedSextets(front)), Chars(EncodedSextets(rest));
    LengthsOfParts(t, u, Padding(|b|));
    GroupBytesOfSextets(front, t);
    DecodedParts(t, u, Padding(|b|), front, rest);
  }

  lemma DecodedParts(t: Text, u: Text, pads: Text, front: seq<Byte>, rest: seq<Byte>)
    requires |t| % 4 == 0 && GroupBytes(t) == front && |rest| < 3 && |front| == |t| / 4 * 3
    requires u == Chars(if |rest| == 0 then [] else if |rest| == 1 then Rest1(rest[0]) else Rest2(rest[0], rest[1]))
    requires |pads| == if |rest| == 0 then 0 else 3 - |rest|
    requires Lengths(t + u + pads) == Some((|t| + |u|, |pads|))
    ensures Decoded(t + u + pads) == Some(front + rest) && ByteLength(t + u + pads) == Some(|front| + |rest|)
  {
    hide GroupBytes, TailBytes2, TailBytes3, Rest1, Rest2, Lengths, Chars;
    var s := t + u + pads;
    if |rest| == 1 {
      TailBytesOfRest(rest[0], 0);
      assert rest == [rest[0]] && s[..|t|] == t && s[|t|..|t| + 2] == u;
    } else if |rest| == 2 {
      TailBytesOfRest(rest[0], rest[1]);
      assert rest == [rest[0], rest[1]] && s[..|t|] == t && s[|t|..|t| + 3] == u;
    } else {
      assert s[..|t|] == t && front + [] == front && rest == [];
    }
  }
}
