/** 32-bit population count as the trie computes it, with the set bits it counts. */
module Bitmaps {

  /** Bit `c` of `b` is set. */
  predicate Has(b: bv32, c: bv32)
    requires c < 32
  {
    b & (1 << c) != 0
  }

  /** How many of the bits below position `c` are set, one bit at a time. */
  function Count(b: bv32, c: bv32): nat
    requires c <= 32
  {
    if c == 0 then 0 else Count(b, c - 1) + if Has(b, c - 1) then 1 else 0
  }

  function Pairs(b: bv32): bv32 {
    b - ((b >> 1) & 0x5555_5555)
  }

  function Nibbles(e: bv32): bv32 {
    (0x3333_3333 & e) + ((e >> 2) & 0x3333_3333)
  }

  function Bytes(e: bv32): bv32 {
    (e + (e >> 4)) & 0x0F0F_0F0F
  }

  function Total(e: bv32): bv32 {
    var f := e + (e >> 8);
    127 & (f + (f >> 16))
  }

  /** The bundle's `popCount`: sums of 1-bit fields into 2, 4, 8 and 32 bits. */
  function PopCount(b: bv32): nat {
    Total(Bytes(Nibbles(Pairs(b)))) as nat
  }

  // ---- The value of a word field: what a sum of small fields is as a number ----

  function Field(e: bv32, s: bv32, mask: bv32): nat
    requires s <= 32
  {
    ((e >> s) & mask) as nat
  }

  lemma AddTo4(u: bv32, v: bv32)
    requires u <= 4 && v <= 4
    ensures (u + v) as nat == u as nat + v as nat
  {}

  lemma AddTo16(u: bv32, v: bv32)
    requires u <= 16 && v <= 16
    ensures (u + v) as nat == u as nat + v as nat
  {}

  lemma PairField(b: bv32, s: bv32)
    requires s < 32 && s & 1 == 0
    ensures (Pairs(b) >> s) & 3 == ((b >> s) & 1) + ((b >> (s + 1)) & 1)
  {
    PairsAsSum(b);
    SumOfPairs(b & 0x5555_5555, (b >> 1) & 0x5555_5555, s);
  }

  /** Subtracting the odd bits halved leaves the even bits plus the odd bits. */
  lemma PairsAsSum(b: bv32)
    ensures Pairs(b) == (b & 0x5555_5555) + ((b >> 1) & 0x5555_5555)
  {}

  lemma SumOfPairs(u: bv32, v: bv32, s: bv32)
    requires s < 32 && s & 1 == 0
    requires u & 0xAAAA_AAAA == 0 && v & 0xAAAA_AAAA == 0
    ensures ((u + v) >> s) & 3 == ((u >> s) & 1) + ((v >> s) & 1)
  {}

  lemma PairsBounded(b: bv32)
    ensures Pairs(b) & 0xAAAA_AAAA & (Pairs(b) << 1) == 0
  {}

  lemma NibbleField(e: bv32, s: bv32)
    requires s < 32 && s & 3 == 0
    requires e & 0xAAAA_AAAA & (e << 1) == 0
    ensures (e >> s) & 3 <= 2 && (e >> (s + 2)) & 3 <= 2
    ensures (Nibbles(e) >> s) & 15 == ((e >> s) & 3) + ((e >> (s + 2)) & 3)
  {}

  lemma NibbleSum(e: bv32, s: bv32)
    requires s < 32 && s & 3 == 0
    requires e & 0xAAAA_AAAA & (e << 1) == 0
    ensures Field(Nibbles(e), s, 15) == Field(e, s, 3) + Field(e, s + 2, 3)
  {
    NibbleField(e, s);
    AddTo4((e >> s) & 3, (e >> (s + 2)) & 3);
  }

  /** Every 4-bit field of `e` is at most 4. */
  predicate NibblesBounded(e: bv32) {
    && e & 0x8888_8888 == 0
    && e & (e << 1) & 0x4444_4444 == 0
    && e & (e << 2) & 0x4444_4444 == 0
  }

  lemma NibblesAreBounded(e: bv32)
    requires e & 0xAAAA_AAAA & (e << 1) == 0
    ensures NibblesBounded(Nibbles(e))
  {}

  lemma ByteField(e: bv32, s: bv32)
    requires s < 32 && s & 7 == 0
    requires NibblesBounded(e)
    ensures (e >> s) & 15 <= 4 && (e >> (s + 4)) & 15 <= 4
    ensures (Bytes(e) >> s) & 255 == ((e >> s) & 15) + ((e >> (s + 4)) & 15)
  {}

  lemma ByteSum(e: bv32, s: bv32)
    requires s < 32 && s & 7 == 0
    requires NibblesBounded(e)
    ensures Field(Bytes(e), s, 255) == Field(e, s, 15) + Field(e, s + 4, 15)
  {
    ByteField(e, s);
    AddTo4((e >> s) & 15, (e >> (s + 4)) & 15);
  }

  /** Every byte of `e` is at most 8. */
  predicate BytesBounded(e: bv32) {
    e & 0xF0F0_F0F0 == 0 && e & 0x0808_0808 & ((e << 1) | (e << 2) | (e << 3)) == 0
  }

  lemma BytesAreBounded(e: bv32)
    requires NibblesBounded(e)
    ensures BytesBounded(Bytes(e))
  {}

  lemma TotalField(e: bv32)
    requires BytesBounded(e)
    ensures e & 255 <= 8 && (e >> 8) & 255 <= 8 && (e >> 16) & 255 <= 8 && (e >> 24) & 255 <= 8
    ensures Total(e) == ((e & 255) + ((e >> 8) & 255)) + (((e >> 16) & 255) + ((e >> 24) & 255))
  {}

  lemma TotalIsSum(e: bv32)
    requires BytesBounded(e)
    ensures Total(e) as nat == Field(e, 0, 255) + Field(e, 8, 255) + Field(e, 16, 255) + Field(e, 24, 255)
  {
    TotalField(e);
    SumOfFour(e & 255, (e >> 8) & 255, (e >> 16) & 255, (e >> 24) & 255);
  }

  lemma SumOfFour(t: bv32, u: bv32, v: bv32, w: bv32)
    requires t <= 8 && u <= 8 && v <= 8 && w <= 8
    ensures ((t + u) + (v + w)) as nat == t as nat + u as nat + v as nat + w as nat
  {
    AddTo16(t, u);
    AddTo16(v, w);
    AddTo16(t + u, v + w);
  }

  lemma BitField(b: bv32, s: bv32)
    requires s < 32
    ensures (b >> s) & 1 <= 1
    ensures Field(b, s, 1) == if Has(b, s) then 1 else 0
  {}

  lemma CountPair(b: bv32, s: bv32)
    requires s < 32 && s & 1 == 0
    ensures s + 2 <= 32 && Count(b, s + 2) == Count(b, s) + Field(Pairs(b), s, 3)
  {
    PairField(b, s);
    BitField(b, s);
    BitField(b, s + 1);
    AddTo4((b >> s) & 1, (b >> (s + 1)) & 1);
    assert s + 2 - 1 == s + 1 && s + 1 - 1 == s;
  }

  lemma CountNibble(b: bv32, s: bv32)
    requires s < 32 && s & 3 == 0
    ensures s + 4 <= 32 && Count(b, s + 4) == Count(b, s) + Field(Nibbles(Pairs(b)), s, 15)
  {
    CountPair(b, s);
    CountPair(b, s + 2);
    PairsBounded(b);
    var e := Pairs(b);
    NibbleSum(e, s);
    assert s + 2 + 2 == s + 4;
  }

  lemma CountByte(b: bv32, s: bv32)
    requires s < 32 && s & 7 == 0
    ensures s + 8 <= 32 && Count(b, s + 8) == Count(b, s) + Field(Bytes(Nibbles(Pairs(b))), s, 255)
  {
    CountNibble(b, s);
    CountNibble(b, s + 4);
    PairsBounded(b);
    NibblesAreBounded(Pairs(b));
    var e := Nibbles(Pairs(b));
    ByteSum(e, s);
    assert s + 4 + 4 == s + 8;
  }

  /** The field sums count exactly the set bits of the word. */
  lemma PopCountIsCount(b: bv32)
    ensures PopCount(b) == Count(b, 32)
  {
    CountByte(b, 0);
    CountByte(b, 8);
    CountByte(b, 16);
    CountByte(b, 24);
    PairsBounded(b);
    NibblesAreBounded(Pairs(b));
    BytesAreBounded(Nibbles(Pairs(b)));
    TotalIsSum(Bytes(Nibbles(Pairs(b))));
  }

  // ---- The bitmap as 32 booleans: what the trie's node proofs reason about ----

  /** The 32 positions of a bitmap, lowest first. */
  function Bits(b: bv32): (s: seq<bool>)
    ensures |s| == 32
  {
    seq(32, i requires 0 <= i < 32 => BitAt(b, i))
  }

  predicate BitAt(b: bv32, i: nat) {
    if i == 0 then b & 1 != 0 else BitAt(b >> 1, i - 1)
  }

  lemma {:induction false} BitIs(b: bv32, i: nat)
    requires i < 32
    ensures Bits(b)[i] == BitAt(b, i) == Has(b, Position(i))
  {
    if i != 0 {
      BitIs(b >> 1, i - 1);
      PositionIs(i - 1);
      Successor(Position(i - 1));
      HasShifted(b, Position(i - 1));
    }
  }

  lemma HasShifted(b: bv32, p: bv32)
    requires p < 31
    ensures Has(b >> 1, p) == Has(b, p + 1)
  {}

  /** A position as a machine word. */
  function Position(i: nat): (c: bv32)
    requires i < 32
    ensures c < 32
  {
    if i == 0 then 0 else (Position(i - 1) + 1) & 31
  }

  lemma {:induction false} PositionIs(i: nat)
    requires i < 32
    ensures Position(i) as nat == i
  {
    if i != 0 {
      PositionIs(i - 1);
      Successor(Position(i - 1));
    }
  }

  lemma Successor(c: bv32)
    requires c as nat < 31
    ensures c + 1 < 32 && (c + 1) & 31 == c + 1 && (c + 1) as nat == c as nat + 1
  {}

  lemma Widened(c: bv32)
    ensures (c as nat) as bv32 == c
  {}

  lemma SameNumber(c: bv32, d: bv32)
    ensures c as nat == d as nat <==> c == d
  {
    Widened(c);
    Widened(d);
  }

  /** How many of the first `i` positions are occupied. */
  function Rank(s: seq<bool>, i: nat): nat
    requires i <= |s|
  {
    if i == 0 then 0 else Rank(s, i - 1) + if s[i - 1] then 1 else 0
  }

  lemma CountStep(b: bv32, p: bv32)
    requires p < 32
    ensures Count(b, p + 1) == Count(b, p) + if Has(b, p) then 1 else 0
  {
    assert p + 1 - 1 == p;
  }

  lemma {:induction false} CountIsRank(b: bv32, i: nat)
    requires i < 32
    ensures Count(b, Position(i) + 1) == Rank(Bits(b), i + 1)
  {
    CountStep(b, Position(i));
    BitIs(b, i);
    if i != 0 {
      PositionIs(i - 1);
      Successor(Position(i - 1));
      CountIsRank(b, i - 1);
    }
  }

  /** The bundle's popcount of a whole bitmap is the number of occupied positions. */
  lemma PopCountIsRank(b: bv32)
    ensures PopCount(b) == Rank(Bits(b), 32)
  {
    PopCountIsCount(b);
    CountIsRank(b, 31);
    PositionIs(31);
    SameNumber(Position(31), 31);
  }

  // ---- What `&`, `|`, `^` and `- 1` do with the bit of a position ----

  lemma MaskedBelow(b: bv32, c: bv32, d: bv32)
    requires d < c < 32
    ensures Has(b & ((1 << c) - 1), d) == Has(b, d)
  {}

  lemma MaskedAbove(b: bv32, c: bv32, d: bv32)
    requires c <= d < 32
    ensures !Has(b & ((1 << c) - 1), d)
  {}

  lemma HasAfterOr(b: bv32, c: bv32, d: bv32)
    requires c < 32 && d < 32
    ensures Has(b | (1 << c), d) == (d == c || Has(b, d))
  {}

  lemma HasAfterXor(b: bv32, c: bv32, d: bv32)
    requires c < 32 && d < 32
    ensures Has(b ^ (1 << c), d) == if d == c then !Has(b, d) else Has(b, d)
  {}

  lemma PositionsOrdered(p: nat, i: nat)
    requires p < 32 && i < 32
    ensures (Position(i) < Position(p)) == (i < p)
    ensures (Position(i) == Position(p)) == (i == p)
  {
    PositionIs(p);
    PositionIs(i);
    ByNumber(Position(p), Position(i));
  }

  lemma ByNumber(c: bv32, d: bv32)
    requires c < 32 && d < 32
    ensures (c < d) == (c as nat < d as nat)
    ensures (c == d) == (c as nat == d as nat)
  {
    SameNumber(c, d);
  }

  /** `1 << p`. */
  function Bit(p: nat): bv32
    requires p < 32
  {
    1 << Position(p)
  }

  lemma MaskedAt(b: bv32, masked: bv32, c: bv32, p: nat, i: nat)
    requires p < 32 && i < 32 && c == Position(p) && Has(masked, Position(i)) == (Position(i) < c && Has(b, Position(i)))
    ensures Bits(masked)[i] == (i < p && Bits(b)[i])
  {
    PositionsOrdered(p, i);
    BitIs(b, i);
    BitIs(masked, i);
  }

  lemma MaskedHas(b: bv32, masked: bv32, c: bv32, d: bv32)
    requires c < 32 && d < 32 && masked == b & ((1 << c) - 1)
    ensures Has(masked, d) == (d < c && Has(b, d))
  {
    if d < c {
      MaskedBelow(b, c, d);
    } else {
      MaskedAbove(b, c, d);
    }
  }

  lemma OrAt(b: bv32, p: nat, i: nat)
    requires p < 32 && i < 32
    ensures Bits(b | Bit(p))[i] == (i == p || Bits(b)[i])
  {
    HasAfterOr(b, Position(p), Position(i));
    PositionsOrdered(p, i);
    BitIs(b, i);
    BitIs(b | Bit(p), i);
  }

  lemma XorAt(b: bv32, p: nat, i: nat)
    requires p < 32 && i < 32
    ensures Bits(b ^ Bit(p))[i] == if i == p then !Bits(b)[i] else Bits(b)[i]
  {
    HasAfterXor(b, Position(p), Position(i));
    PositionsOrdered(p, i);
    BitIs(b, i);
    BitIs(b ^ Bit(p), i);
  }

  // ---- The operations of the trie on a bitmap ----

  /** `bitmap & bit`. */
  predicate Occupies(b: bv32, p: nat): (r: bool)
    requires p < 32
    ensures r == Bits(b)[p]
  {
    BitIs(b, p);
    Has(b, Position(p))
  }

  /** The child slot `popCount(bitmap & bit - 1)`: the number of occupied positions before `p`. */
  function SlotBefore(b: bv32, p: nat): (i: nat)
    requires p < 32
    ensures i == Rank(Bits(b), p)
  {
    SlotIsRank(b, b & (Bit(p) - 1), Position(p), p);
    PopCount(b & (Bit(p) - 1))
  }

  lemma SlotIsRank(b: bv32, masked: bv32, c: bv32, p: nat)
    requires p < 32 && c < 32 && c == Position(p) && masked == b & ((1 << c) - 1)
    ensures PopCount(masked) == Rank(Bits(b), p)
  {
    PopCountIsRank(masked);
    var s, t := Bits(b), Bits(masked);
    forall i: nat | i < 32
      ensures t[i] == (i < p && s[i])
    {
      MaskedHas(b, masked, c, Position(i));
      MaskedAt(b, masked, c, p, i);
    }
    RankOfPrefix(s, t, p, 32);
  }

  /** `bitmap | bit`. */
  function WithBit(b: bv32, p: nat): (r: bv32)
    requires p < 32
    ensures Bits(r) == Bits(b)[p := true]
  {
    BitsAfterOr(b, p, b | Bit(p));
    b | Bit(p)
  }

  lemma BitsAfterOr(b: bv32, p: nat, r: bv32)
    requires p < 32 && r == b | Bit(p)
    ensures Bits(r) == Bits(b)[p := true]
  {
    var s, t := Bits(b), Bits(r);
    forall i: nat | i < 32
      ensures t[i] == if i == p then true else s[i]
    {
      OrAt(b, p, i);
    }
    Updated(s, t, p, true);
  }

  /** `bitmap ^ bit`, used only where the bit is set. */
  function WithoutBit(b: bv32, p: nat): (r: bv32)
    requires p < 32 && Bits(b)[p]
    ensures Bits(r) == Bits(b)[p := false]
  {
    BitsAfterXor(b, p, b ^ Bit(p));
    b ^ Bit(p)
  }

  lemma BitsAfterXor(b: bv32, p: nat, r: bv32)
    requires p < 32 && Bits(b)[p] && r == b ^ Bit(p)
    ensures Bits(r) == Bits(b)[p := false]
  {
    var s, t := Bits(b), Bits(r);
    forall i: nat | i < 32
      ensures t[i] == if i == p then false else s[i]
    {
      XorAt(b, p, i);
    }
    Updated(s, t, p, false);
  }

  lemma Updated(s: seq<bool>, t: seq<bool>, c: nat, v: bool)
    requires |s| == |t| && c < |s|
    requires forall i: nat | i < |s| :: t[i] == if i == c then v else s[i]
    ensures t == s[c := v]
  {}

  // ---- Ranks under update ----

  lemma {:induction false} RankOfPrefix(s: seq<bool>, t: seq<bool>, k: nat, i: nat)
    requires |s| == |t| && i <= |s| && k <= |s|
    requires forall j: nat | j < |s| :: t[j] == (j < k && s[j])
    ensures Rank(t, i) == Rank(s, if i < k then i else k)
  {
    if i != 0 {
      RankOfPrefix(s, t, k, i - 1);
    }
  }

  lemma {:induction false} RankBounds(s: seq<bool>, i: nat, j: nat)
    requires i <= j <= |s|
    ensures Rank(s, i) <= Rank(s, j) <= Rank(s, i) + (j - i)
    decreases j
  {
    if i < j {
      RankBounds(s, i, j - 1);
    }
  }

  lemma {:induction false} RankAfterSet(s: seq<bool>, c: nat, i: nat)
    requires c < |s| && i <= |s| && !s[c]
    ensures Rank(s[c := true], i) == Rank(s, i) + if c < i then 1 else 0
  {
    if i != 0 {
      RankAfterSet(s, c, i - 1);
    }
  }

  lemma {:induction false} RankAfterClear(s: seq<bool>, c: nat, i: nat)
    requires c < |s| && i <= |s| && s[c]
    ensures Rank(s[c := false], i) + (if c < i then 1 else 0) == Rank(s, i)
  {
    if i != 0 {
      RankAfterClear(s, c, i - 1);
    }
  }

  /** Every slot below the rank belongs to an occupied position. */
  lemma {:induction false} PositionOfSlot(s: seq<bool>, slot: nat, i: nat) returns (c: nat)
    requires i <= |s| && slot < Rank(s, i)
    ensures c < i && s[c] && Rank(s, c) == slot
  {
    if slot < Rank(s, i - 1) {
      c := PositionOfSlot(s, slot, i - 1);
    } else {
      c := i - 1;
    }
  }

  /** Two occupied positions have different slots, in order. */
  lemma SlotsOrdered(s: seq<bool>, c: nat, d: nat)
    requires c < d < |s| && s[c]
    ensures Rank(s, c) < Rank(s, d)
  {
    RankBounds(s, c + 1, d);
  }

  lemma {:induction false} RankOfNone(s: seq<bool>, i: nat)
    requires i <= |s| && forall j :: 0 <= j < |s| ==> !s[j]
    ensures Rank(s, i) == 0
  {
    if i != 0 {
      RankOfNone(s, i - 1);
    }
  }

  lemma {:induction false} ZeroBits(i: nat)
    ensures !BitAt(0, i)
  {
    if i != 0 {
      ZeroBits(i - 1);
    }
  }

  lemma OneBit(p: nat)
    requires p < 32
    ensures Bits(Bit(p)) == seq(32, i => false)[p := true]
  {
    BitsAfterOr(0, p, Bit(p));
    forall i: nat | i < 32
      ensures !BitAt(0, i)
    {
      ZeroBits(i);
    }
    assert Bits(0) == seq(32, i => false);
  }

  /** `1 << s | 1 << c`. */
  function TwoBits(s: nat, c: nat): (r: bv32)
    requires s < 32 && c < 32
    ensures Bits(r) == seq(32, i => false)[s := true][c := true]
  {
    OneBit(s);
    BitsAfterOr(Bit(s), c, Bit(s) | Bit(c));
    Bit(s) | Bit(c)
  }

  /** The bitmap of a node just made for one or two positions. */
  lemma RankOfTwo(none: seq<bool>, s: nat, c: nat, i: nat)
    requires none == seq(32, i => false) && s < 32 && c < 32 && i <= 32
    ensures Rank(none[s := true][c := true], i) ==
            if s == c then (if c < i then 1 else 0)
            else (if s < i then 1 else 0) + (if c < i then 1 else 0)
  {
    RankOfNone(none, i);
    RankAfterSet(none, s, i);
    if s == c {
      assert none[s := true][c := true] == none[s := true];
    } else {
      RankAfterSet(none[s := true], c, i);
    }
  }

  // ---- Walking a bitmap bit by bit ----

  /** `u <<= 1` steps to the next position's bit. */
  lemma NextBit(p: nat)
    requires p < 31
    ensures Bit(p) << 1 == Bit(p + 1)
  {
    PositionIs(p);
    Successor(Position(p));
    ShiftOnce(Position(p));
  }

  lemma ShiftOnce(q: bv32)
    requires q < 31
    ensures ((1 as bv32) << q) << 1 == (1 as bv32) << (q + 1)
  {}

  /** The largest word left after `p` right shifts. */
  function Largest(p: nat): bv32
    requires p <= 32
  {
    if p == 32 then 0 else 0xFFFF_FFFF >> Position(p)
  }

  lemma ShiftedWord(r: bv32, p: nat)
    requires p < 32 && r <= Largest(p)
    ensures r >> 1 <= Largest(p + 1)
  {
    PositionIs(p);
    if p < 31 {
      Successor(Position(p));
      ShiftDown(r, Position(p));
    } else {
      SameNumber(Position(31), 31);
    }
  }

  lemma ShiftDown(r: bv32, q: bv32)
    requires q < 31 && r <= 0xFFFF_FFFF >> q
    ensures r >> 1 <= 0xFFFF_FFFF >> (q + 1)
  {}
}
