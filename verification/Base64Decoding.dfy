/** What the base64 decoder makes of any text: the six bits of each character, cut into bytes. */
module Base64Decoding {
  import opened Base64
  import opened Bytes
  import opened CodeUnits
  import opened Options

  /** Six bits for each character. */
  function LetterBits(t: Text): (r: seq<bool>)
    ensures |r| == 6 * |t|
  {
    if t == [] then [] else Bits(Lookup(t[0]), 6) + LetterBits(t[1..])
  }

  // ---- One group ----

  /** A group of four characters in bytes: the sextets cut at eight and sixteen bits. */
  lemma QuadBytesAre(t: Text)
    requires |t| == 4
    ensures var a, b, c, d := Lookup(t[0]), Lookup(t[1]), Lookup(t[2]), Lookup(t[3]);
            QuadBytes(t) == [a * 4 + b / 16, b % 16 * 16 + c / 4, c % 4 * 64 + d]
  {
    hide Lookup;
    var a: nat, b: nat, c: nat, d: nat := Lookup(t[0]), Lookup(t[1]), Lookup(t[2]), Lookup(t[3]);
    var x, y, z := a * 4 + b / 16, b % 16 * 16 + c / 4, c % 4 * 64 + d;
    ThreeBytes(Joined4(a, b, c, d), x, y, z);
  }

  lemma ThreeBytes(n: nat, x: nat, y: nat, z: nat)
    requires n == x * 0x1_0000 + y * 256 + z && x < 256 && y < 256 && z < 256
    ensures n / 0x1_0000 % 256 == x && n / 256 % 256 == y && n % 256 == z
  {
    RemainderIs(n, 0x1_0000, x, y * 256 + z);
    RemainderIs(n, 256, x * 256 + y, z);
    RemainderIs(x * 256 + y, 256, x, y);
  }

  lemma BitsOfQuad(t: Text)
    requires |t| == 4
    ensures AllBits(QuadBytes(t)) == LetterBits(t)
  {
    hide Bits, Lookup, QuadBytes, AllBits, LetterBits;
    var a: nat, b: nat, c: nat, d: nat := Lookup(t[0]), Lookup(t[1]), Lookup(t[2]), Lookup(t[3]);
    QuadBytesAre(t);
    BitsOfThree(a * 4 + b / 16, b % 16 * 16 + c / 4, c % 4 * 64 + d);
    BitsOfFour(t);
    Cuts(a, b / 16);
    Cuts(b % 16, c / 4);
    Cuts(c % 4, d);
    Cuts(b / 16, b % 16);
    Cuts(c / 4, c % 4);
    SixPieces(Bits(a, 6), Bits(b / 16, 2), Bits(b % 16, 4), Bits(c / 4, 4), Bits(c % 4, 2), Bits(d, 6));
  }

  lemma SixPieces(p: seq<bool>, q: seq<bool>, r: seq<bool>, s: seq<bool>, t: seq<bool>, u: seq<bool>)
    ensures (p + q) + (r + s) + (t + u) == p + (q + r) + (s + t) + u
  {}

  lemma BitsOfThree(x: Byte, y: Byte, z: Byte)
    ensures AllBits([x, y, z]) == Bits(x, 8) + Bits(y, 8) + Bits(z, 8)
  {
    hide Bits, AllBits;
    BytesJoin([x, y], [z]);
    BitsOfBytes(x, y);
    BitsOfByte(z);
    assert [x, y] + [z] == [x, y, z];
  }

  lemma BitsOfByte(x: Byte)
    ensures AllBits([x]) == Bits(x, 8)
  {
    AllBitsOfOne([x]);
  }

  lemma BitsOfFour(t: Text)
    requires |t| == 4
    ensures LetterBits(t) ==
            Bits(Lookup(t[0]), 6) + Bits(Lookup(t[1]), 6) + Bits(Lookup(t[2]), 6) + Bits(Lookup(t[3]), 6)
  {
    hide Bits, Lookup;
    BitsOfTwo(t[2..]);
    assert t[1..][1..] == t[2..] && t[1..][0] == t[1];
    assert LetterBits(t) == Bits(Lookup(t[0]), 6) + (Bits(Lookup(t[1]), 6) + LetterBits(t[2..]));
  }

  lemma BitsOfTwo(t: Text)
    requires |t| == 2
    ensures LetterBits(t) == Bits(Lookup(t[0]), 6) + Bits(Lookup(t[1]), 6)
  {
    hide Bits, Lookup;
    assert t[1..][1..] == [] && LetterBits([]) == [];
    assert LetterBits(t[1..]) == Bits(Lookup(t[1]), 6) + [];
  }

  lemma {:induction false} LettersJoin(t: Text, u: Text)
    ensures LetterBits(t + u) == LetterBits(t) + LetterBits(u)
  {
    hide LetterBits, Bits, Lookup;
    if t == [] {
      assert t + u == u;
      NoBits();
    } else {
      LettersJoin(t[1..], u);
      assert (t + u)[1..] == t[1..] + u;
      FirstLetter(t);
      FirstLetter(t + u);
      ThreeJoined(Bits(Lookup(t[0]), 6), LetterBits(t[1..]), LetterBits(u));
    }
  }

  lemma FirstLetter(t: Text)
    requires t != []
    ensures LetterBits(t) == Bits(Lookup(t[0]), 6) + LetterBits(t[1..])
  {}

  lemma ThreeJoined(x: seq<bool>, y: seq<bool>, z: seq<bool>)
    ensures x + (y + z) == x + y + z
  {}

  lemma {:induction false} BytesJoin(b: seq<Byte>, c: seq<Byte>)
    ensures AllBits(b + c) == AllBits(b) + AllBits(c)
  {
    hide AllBits, Bits;
    if b == [] {
      assert b + c == c;
      NoBits();
    } else {
      BytesJoin(b[1..], c);
      assert (b + c)[1..] == b[1..] + c;
      AllBitsStep(b);
      AllBitsStep(b + c);
      ThreeJoined(Bits(b[0], 8), AllBits(b[1..]), AllBits(c));
    }
  }

  // ---- All groups and the tail ----

  lemma {:induction false} BitsOfGroups(t: Text)
    requires |t| % 4 == 0
    ensures AllBits(GroupBytes(t)) == LetterBits(t)
    decreases |t|
  {
    hide QuadBytes, AllBits, LetterBits;
    if t == [] {
      NoBits();
    } else {
      RestIsWhole(|t|, 4);
      BitsOfGroups(t[4..]);
      BitsOfQuad(t[..4]);
      BytesJoin(QuadBytes(t[..4]), GroupBytes(t[4..]));
      LettersJoin(t[..4], t[4..]);
      assert t[..4] + t[4..] == t;
    }
  }

  lemma NoBits()
    ensures AllBits([]) == [] && LetterBits([]) == []
  {}

  lemma BitsOfTail2(t: Text)
    requires |t| == 2
    ensures AllBits(TailBytes2(t)) == LetterBits(t)[..8]
  {
    hide Bits, Lookup;
    var a: nat, b: nat := Lookup(t[0]), Lookup(t[1]);
    assert TailBytes2(t) == [a * 4 + b / 16];
    Cuts(a, b / 16);
    Cuts(b / 16, b % 16);
    BitsOfTwo(t);
    hide LetterBits;
    assert AllBits([a * 4 + b / 16]) == Bits(a * 4 + b / 16, 8) + [];
    assert Bits(a, 6) + (Bits(b / 16, 2) + Bits(b % 16, 4)) == (Bits(a, 6) + Bits(b / 16, 2)) + Bits(b % 16, 4);
  }

  lemma BitsOfTail3(t: Text)
    requires |t| == 3
    ensures AllBits(TailBytes3(t)) == LetterBits(t)[..16]
  {
    hide Bits, Lookup, LetterBits, AllBits;
    var a: nat, b: nat, c: nat := Lookup(t[0]), Lookup(t[1]), Lookup(t[2]);
    TailBytes3Are(t);
    Cuts(a, b / 16);
    Cuts(b % 16, c / 4);
    Cuts(b / 16, b % 16);
    Cuts(c / 4, c % 4);
    BitsOfThreeLetters(t);
    BitsOfBytes(a * 4 + b / 16, b % 16 * 16 + c / 4);
    SixteenOf(Bits(a, 6), Bits(b / 16, 2), Bits(b % 16, 4), Bits(c / 4, 4), Bits(c % 4, 2));
  }

  lemma SixteenOf(p: seq<bool>, q: seq<bool>, r: seq<bool>, s: seq<bool>, t: seq<bool>)
    requires |p| + |q| + |r| + |s| == 16
    ensures (p + q) + (r + s) == (p + (q + r) + (s + t))[..16]
  {}

  lemma BitsOfBytes(x: Byte, y: Byte)
    ensures AllBits([x, y]) == Bits(x, 8) + Bits(y, 8)
  {
    hide Bits, AllBits;
    BytesJoin([x], [y]);
    BitsOfByte(x);
    BitsOfByte(y);
    assert [x] + [y] == [x, y];
  }

  lemma BitsOfThreeLetters(t: Text)
    requires |t| == 3
    ensures LetterBits(t) == Bits(Lookup(t[0]), 6) + Bits(Lookup(t[1]), 6) + Bits(Lookup(t[2]), 6)
  {
    hide Bits, Lookup;
    BitsOfTwo(t[1..]);
  }

  lemma TailBytes3Are(t: Text)
    requires |t| == 3
    ensures var a, b, c := Lookup(t[0]), Lookup(t[1]), Lookup(t[2]);
            TailBytes3(t) == [a * 4 + b / 16, b % 16 * 16 + c / 4]
  {
    hide Lookup;
    var a: nat, b: nat, c: nat := Lookup(t[0]), Lookup(t[1]), Lookup(t[2]);
    ThreeBytes(a * 1024 + b * 16 + c / 4, 0, a * 4 + b / 16, b % 16 * 16 + c / 4);
  }

  // ---- The law of the decoder ----

  /** The bytes of the first `q` groups. */
  function FrontBytes(t: Text, q: nat): (b: seq<Byte>)
    requires 4 * q <= |t|
    ensures |b| == 3 * q
  {
    Groups(q);
    hide GroupBytes;
    GroupBytes(t[..4 * q])
  }

  lemma Groups(q: nat)
    ensures 4 * q % 4 == 0 && 4 * q / 4 == q
  {}

  lemma BitsOfFront(t: Text, q: nat)
    requires 4 * q <= |t|
    ensures AllBits(FrontBytes(t, q)) == LetterBits(t[..4 * q])
  {
    hide AllBits, LetterBits, GroupBytes;
    Groups(q);
    BitsOfGroups(t[..4 * q]);
  }

  lemma LengthsAre(t: Text, q: nat, r: nat) returns (pads: nat, i: int)
    requires |t| % 4 == 0 && FirstPad(t) == 4 * q + r && r < 4
    ensures Lengths(t) == Some((4 * q + r, pads)) && GroupsEnd(4 * q + r, pads) == i
    ensures pads == if r == 0 && 4 * q == |t| then 0 else 4 - r
    ensures i == if r == 0 && 4 * q < |t| then 4 * q - 4 else 4 * q
  {
    hide FirstPad;
    RoundedUp(q, r);
    pads := Lengths(t).value.1;
    i := GroupsEnd(4 * q + r, pads);
  }

  lemma DecodedIs(t: Text, v: nat, pads: nat, i: int)
    requires Lengths(t) == Some((v, pads)) && GroupsEnd(v, pads) == i
    ensures i < 0 <==> Decoded(t).None?
    ensures i >= 0 ==>
              && i <= |t| && i % 4 == 0 && i + (if pads == 2 then 2 else if pads == 1 then 3 else 0) <= |t|
              && Decoded(t) == Some(GroupBytes(t[..i]) + Tail(t, i, pads))
  {
    SizeOfParts(t);
    hide Lengths, GroupsEnd, ByteLength, GroupBytes, Tail;
  }

  /** The bytes after the `q` groups, by how many characters come before the first padding. */
  function LastBytes(t: Text, q: nat, r: nat): (b: seq<Byte>)
    requires r < 4 && 4 * q + r <= |t|
    ensures |b| == if r > 0 then r - 1 else 0
  {
    if r == 2 then TailBytes2(t[4 * q..4 * q + 2])
    else if r == 3 then TailBytes3(t[4 * q..4 * q + 3])
    else []
  }

  /** Padding where a group would start. */
  lemma MisplacedParts(t: Text, q: nat)
    requires |t| % 4 == 0 && FirstPad(t) == 4 * q < |t|
    ensures Decoded(t) == if q == 0 then None else Some(FrontBytes(t, q - 1) + [0, 0])
  {
    hide FirstPad, GroupBytes, Lengths, GroupsEnd, Decoded, Tail, FrontBytes;
    var pads, i := LengthsAre(t, q, 0);
    DecodedIs(t, 4 * q, pads, i);
    if q > 0 {
      FrontIs(t, q - 1);
      TailOfFour(t, i);
    }
  }

  /** How the decoder cuts any other text of whole groups, with `q` of them and `r` characters before the first padding. */
  lemma Parts(t: Text, q: nat, r: nat)
    requires |t| % 4 == 0 && FirstPad(t) == 4 * q + r && r < 4 && !(r == 0 && 4 * q < |t|)
    ensures Decoded(t) == Some(FrontBytes(t, q) + LastBytes(t, q, r))
  {
    hide FirstPad, GroupBytes, Lengths, GroupsEnd, Decoded, Tail, LastBytes, FrontBytes;
    var pads, i := LengthsAre(t, q, r);
    DecodedIs(t, 4 * q + r, pads, i);
    FrontIs(t, q);
    TailIsLast(t, q, r, pads);
  }

  lemma FrontIs(t: Text, q: nat)
    requires 4 * q <= |t|
    ensures 4 * q % 4 == 0 && FrontBytes(t, q) == GroupBytes(t[..4 * q])
  {
    hide GroupBytes;
  }

  lemma TailOfFour(t: Text, i: nat)
    requires i <= |t|
    ensures Tail(t, i, 4) == [0, 0]
  {}

  lemma TailIsLast(t: Text, q: nat, r: nat, pads: nat)
    requires r < 4 && 4 * q + r <= |t| && pads == (if r == 0 then 0 else 4 - r)
    ensures Tail(t, 4 * q, pads) == LastBytes(t, q, r)
  {
    hide TailBytes2, TailBytes3;
  }

  lemma BitsOfLast(t: Text, q: nat, r: nat)
    requires r < 4 && 4 * q + r <= |t|
    ensures AllBits(LastBytes(t, q, r)) == LetterBits(t[4 * q..4 * q + r])[..8 * |LastBytes(t, q, r)|]
  {
    hide AllBits, LetterBits, TailBytes2, TailBytes3;
    if r == 2 {
      BitsOfTail2(t[4 * q..4 * q + 2]);
    } else if r == 3 {
      BitsOfTail3(t[4 * q..4 * q + 3]);
    } else {
      NoBits();
    }
  }

  /** Whole groups and then a shorter one, cut after the last whole byte. */
  lemma BitsOfParts(t: Text, q: nat, r: nat)
    requires r < 4 && 4 * q + r <= |t|
    ensures var b := FrontBytes(t, q) + LastBytes(t, q, r);
            |b| == 3 * q + (if r > 0 then r - 1 else 0) && AllBits(b) == LetterBits(t[..4 * q + r])[..8 * |b|]
  {
    hide AllBits, LetterBits, FrontBytes, LastBytes;
    BitsOfFront(t, q);
    BitsOfLast(t, q, r);
    BytesJoin(FrontBytes(t, q), LastBytes(t, q, r));
    LettersJoin(t[..4 * q], t[4 * q..4 * q + r]);
    assert t[..4 * q] + t[4 * q..4 * q + r] == t[..4 * q + r];
    Front(LetterBits(t[..4 * q]), LetterBits(t[4 * q..4 * q + r]), 8 * |LastBytes(t, q, r)|);
  }

  lemma Front(x: seq<bool>, y: seq<bool>, n: nat)
    requires n <= |y|
    ensures x + y[..n] == (x + y)[..|x| + n]
  {}

  /**
    Of a text with `q` groups and `r` characters before its first padding the decoder takes just these, six bits
    each, and as many whole bytes as they make. It fails on a length that is no multiple of four; and padding
    where a group would start loses the group before it, for two zeros, or fails if there is none.
  */
  lemma DecodedIsStandard(t: Text, q: nat, r: nat)
    requires FirstPad(t) == 4 * q + r && r < 4
    ensures |t| % 4 != 0 ==> Decoded(t).None?
    ensures |t| % 4 == 0 && !(r == 0 && 4 * q < |t|) ==>
              && Decoded(t).Some? && |Decoded(t).value| == 3 * q + (if r > 0 then r - 1 else 0)
              && AllBits(Decoded(t).value) == LetterBits(t[..4 * q + r])[..8 * |Decoded(t).value|]
    ensures |t| % 4 == 0 && r == 0 && 4 * q < |t| ==>
              if q == 0 then Decoded(t).None?
              else
                && Decoded(t).Some? && |Decoded(t).value| == 3 * q - 1
                && AllBits(Decoded(t).value) == LetterBits(t[..4 * q - 4]) + AllBits([0, 0])
  {
    hide FirstPad, Decoded, AllBits, LetterBits, FrontBytes, LastBytes;
    if |t| % 4 != 0 {
      NotWhole(t);
    } else if r == 0 && 4 * q < |t| {
      MisplacedParts(t, q);
      if q > 0 {
        BitsOfFront(t, q - 1);
        BytesJoin(FrontBytes(t, q - 1), [0, 0]);
      }
    } else {
      Parts(t, q, r);
      BitsOfParts(t, q, r);
    }
  }

  lemma NotWhole(t: Text)
    requires |t| % 4 != 0
    ensures Decoded(t).None?
  {}
}
