/** SHA-512 on 32-bit halves: the bundle's `_update` computes the compression function of the standard. */
module Sha512 {
  import opened Bytes
  import opened Words

  type UInt32 = n: nat | n < 0x1_0000_0000

  const ROUND_0: seq<UInt32> := [
    1116352408, 3609767458, 1899447441, 602891725, 3049323471, 3964484399, 3921009573, 2173295548,
    961987163, 4081628472, 1508970993, 3053834265, 2453635748, 2937671579, 2870763221, 3664609560
  ]

  const ROUND_1: seq<UInt32> := [
    3624381080, 2734883394, 310598401, 1164996542, 607225278, 1323610764, 1426881987, 3590304994,
    1925078388, 4068182383, 2162078206, 991336113, 2614888103, 633803317, 3248222580, 3479774868
  ]

  const ROUND_2: seq<UInt32> := [
    3835390401, 2666613458, 4022224774, 944711139, 264347078, 2341262773, 604807628, 2007800933,
    770255983, 1495990901, 1249150122, 1856431235, 1555081692, 3175218132, 1996064986, 2198950837
  ]

  const ROUND_3: seq<UInt32> := [
    2554220882, 3999719339, 2821834349, 766784016, 2952996808, 2566594879, 3210313671, 3203337956,
    3336571891, 1034457026, 3584528711, 2466948901, 113926993, 3758326383, 338241895, 168717936
  ]

  const ROUND_4: seq<UInt32> := [
    666307205, 1188179964, 773529912, 1546045734, 1294757372, 1522805485, 1396182291, 2643833823,
    1695183700, 2343527390, 1986661051, 1014477480, 2177026350, 1206759142, 2456956037, 344077627
  ]

  const ROUND_5: seq<UInt32> := [
    2730485921, 1290863460, 2820302411, 3158454273, 3259730800, 3505952657, 3345764771, 106217008,
    3516065817, 3606008344, 3600352804, 1432725776, 4094571909, 1467031594, 275423344, 851169720
  ]

  const ROUND_6: seq<UInt32> := [
    430227734, 3100823752, 506948616, 1363258195, 659060556, 3750685593, 883997877, 3785050280,
    958139571, 3318307427, 1322822218, 3812723403, 1537002063, 2003034995, 1747873779, 3602036899
  ]

  const ROUND_7: seq<UInt32> := [
    1955562222, 1575990012, 2024104815, 1125592928, 2227730452, 2716904306, 2361852424, 442776044,
    2428436474, 593698344, 2756734187, 3733110249, 3204031479, 2999351573, 3329325298, 3815920427
  ]

  const ROUND_8: seq<UInt32> := [
    3391569614, 3928383900, 3515267271, 566280711, 3940187606, 3454069534, 4118630271, 4000239992,
    116418474, 1914138554, 174292421, 2731055270, 289380356, 3203993006, 460393269, 320620315
  ]

  const ROUND_9: seq<UInt32> := [
    685471733, 587496836, 852142971, 1086792851, 1017036298, 365543100, 1126000580, 2618297676,
    1288033470, 3409855158, 1501505948, 4234509866, 1607167915, 987167468, 1816402316, 1246189591
  ]

  function RoundRow(k: nat): (r: seq<UInt32>)
    requires k < 10
    ensures |r| == 16
  {
    match k
    case 0 => ROUND_0
    case 1 => ROUND_1
    case 2 => ROUND_2
    case 3 => ROUND_3
    case 4 => ROUND_4
    case 5 => ROUND_5
    case 6 => ROUND_6
    case 7 => ROUND_7
    case 8 => ROUND_8
    case _ => ROUND_9
  }

  function Rows(k: nat): (r: seq<UInt32>)
    requires k <= 10
    ensures |r| == 16 * k
  {
    if k == 0 then [] else Rows(k - 1) + RoundRow(k - 1)
  }

  lemma {:induction false} RowsAt(k: nat, i: nat)
    requires k <= 10 && i < 16 * k
    ensures Rows(k)[i] == RoundRow(i / 16)[i % 16]
  {
    hide RoundRow;
    if i < 16 * (k - 1) {
      RowsAt(k - 1, i);
    }
  }

  /** The round constants, the high half of each before the low one. */
  const ROUND_CONSTANTS: seq<UInt32> := Rows(10)

  /** The initial hash value, in the same layout. */
  const INITIAL_VALUE: seq<UInt32> := [
    1779033703, 4089235720, 3144134277, 2227873595, 1013904242, 4271175723, 2773480762, 1595750129,
    1359893119, 2917565137, 2600822924, 725511199, 528734635, 4215389547, 1541459225, 327033209
  ]

  function ToHalf(n: nat): Half {
    FromNum(n, 32)
  }

  function ToWord(n: nat): Word {
    FromNum(n, 64)
  }

  // ---- Sections 4.1.3 and 6.4.2 of FIPS 180-4 ----

  function Ch(x: Word, y: Word, z: Word): Word {
    Xor(And(x, y), And(Not(x), z))
  }

  function Maj(x: Word, y: Word, z: Word): Word {
    Xor(Xor(And(x, y), And(x, z)), And(y, z))
  }

  function BigSigma0(x: Word): Word {
    Xor(Xor(Rotr(x, 28), Rotr(x, 34)), Rotr(x, 39))
  }

  function BigSigma1(x: Word): Word {
    Xor(Xor(Rotr(x, 14), Rotr(x, 18)), Rotr(x, 41))
  }

  function SmallSigma0(x: Word): Word {
    Xor(Xor(Rotr(x, 1), Rotr(x, 8)), Shr(x, 7))
  }

  function SmallSigma1(x: Word): Word {
    Xor(Xor(Rotr(x, 19), Rotr(x, 61)), Shr(x, 6))
  }

  /** The message schedule. */
  function Schedule(block: seq<Byte>, t: nat): Word
    requires |block| == 128
  {
    if t < 16 then ToWord(NumberOf(block[8 * t..8 * t + 8]))
    else
      Add(Add(Add(SmallSigma1(Schedule(block, t - 2)), Schedule(block, t - 7)), SmallSigma0(Schedule(block, t - 15))),
          Schedule(block, t - 16))
  }

  function JoinHalves(high: nat, low: nat): nat {
    high * 0x1_0000_0000 + low
  }

  datatype Chain = Chain(a: Word, b: Word, c: Word, d: Word, e: Word, f: Word, g: Word, h: Word)

  function RoundConstant(t: nat): nat
    requires t < 80
  {
    JoinHalves(ROUND_CONSTANTS[2 * t], ROUND_CONSTANTS[2 * t + 1])
  }

  function Round(s: Chain, k: Word, w: Word): Chain {
    var t1 := Add(Add(Add(Add(s.h, BigSigma1(s.e)), Ch(s.e, s.f, s.g)), k), w);
    var t2 := Add(BigSigma0(s.a), Maj(s.a, s.b, s.c));
    Chain(Add(t1, t2), s.a, s.b, s.c, Add(s.d, t1), s.e, s.f, s.g)
  }

  function Rounds(s: Chain, block: seq<Byte>, t: nat): Chain
    requires |block| == 128 && t <= 80
  {
    if t == 0 then s else Round(Rounds(s, block, t - 1), ToWord(RoundConstant(t - 1)), Schedule(block, t - 1))
  }

  function Added(s: Chain, r: Chain): Chain {
    Chain(Add(s.a, r.a), Add(s.b, r.b), Add(s.c, r.c), Add(s.d, r.d),
          Add(s.e, r.e), Add(s.f, r.f), Add(s.g, r.g), Add(s.h, r.h))
  }

  function Compress(s: Chain, block: seq<Byte>): Chain
    requires |block| == 128
  {
    var r := Rounds(s, block, 80);
    Added(s, r)
  }

  // ---- The bundle's functions on halves ----

  function ChHalf(e: Half, t: Half, r: Half): Half {
    Xor(r, And(e, Xor(t, r)))
  }

  function MajHalf(e: Half, t: Half, r: Half): Half {
    Or(And(e, t), And(r, Or(e, t)))
  }

  function Sigma0Half(e: Half, t: Half): Half {
    Xor(Xor(Or(Shr(e, 28), Shl(t, 4)), Or(Shr(t, 2), Shl(e, 30))), Or(Shr(t, 7), Shl(e, 25)))
  }

  function Sigma1Half(e: Half, t: Half): Half {
    Xor(Xor(Or(Shr(e, 14), Shl(t, 18)), Or(Shr(e, 18), Shl(t, 14))), Or(Shr(t, 9), Shl(e, 23)))
  }

  function Gamma0High(e: Half, t: Half): Half {
    Xor(Xor(Or(Shr(e, 1), Shl(t, 31)), Or(Shr(e, 8), Shl(t, 24))), Shr(e, 7))
  }

  function Gamma0Low(e: Half, t: Half): Half {
    Xor(Xor(Or(Shr(e, 1), Shl(t, 31)), Or(Shr(e, 8), Shl(t, 24))), Or(Shr(e, 7), Shl(t, 25)))
  }

  function Gamma1High(e: Half, t: Half): Half {
    Xor(Xor(Or(Shr(e, 19), Shl(t, 13)), Or(Shr(t, 29), Shl(e, 3))), Shr(e, 6))
  }

  function Gamma1Low(e: Half, t: Half): Half {
    Xor(Xor(Or(Shr(e, 19), Shl(t, 13)), Or(Shr(t, 29), Shl(e, 3))), Or(Shr(e, 6), Shl(t, 26)))
  }

  // ---- Each pair of halves is the 64-bit function ----

  lemma ChOfHalves(x: Register, y: Register, z: Register)
    ensures ChHalf(x.low, y.low, z.low) + ChHalf(x.high, y.high, z.high) == Ch(x.Value(), y.Value(), z.Value())
  {}

  lemma MajOfHalves(x: Register, y: Register, z: Register)
    ensures MajHalf(x.low, y.low, z.low) + MajHalf(x.high, y.high, z.high) == Maj(x.Value(), y.Value(), z.Value())
  {}

  lemma Sigma0OfHalves(x: Register)
    ensures Sigma0Half(x.low, x.high) + Sigma0Half(x.high, x.low) == BigSigma0(x.Value())
  {
    hide Xor, Or, Shr, Shl, Rotr;
  }

  lemma Sigma1OfHalves(x: Register)
    ensures Sigma1Half(x.low, x.high) + Sigma1Half(x.high, x.low) == BigSigma1(x.Value())
  {
    hide Xor, Or, Shr, Shl, Rotr;
  }

  lemma Gamma0OfHalves(x: Register)
    ensures Gamma0Low(x.low, x.high) + Gamma0High(x.high, x.low) == SmallSigma0(x.Value())
  {
    hide Xor, Or, Shr, Shl, Rotr;
  }

  lemma Gamma1OfHalves(x: Register)
    ensures Gamma1Low(x.low, x.high) + Gamma1High(x.high, x.low) == SmallSigma1(x.Value())
  {
    hide Xor, Or, Shr, Shl, Rotr;
  }

  lemma WordOfHalves(high: nat, low: nat)
    requires low < 0x1_0000_0000
    ensures ToHalf(low) + ToHalf(high) == ToWord(high * 0x1_0000_0000 + low)
  {
    hide FromNum, Pow2;
    Pow2Of32();
    HalvesOfNumber(high, low, 32);
  }

  lemma Pow2Of32()
    ensures Pow2(32) == 0x1_0000_0000
  {
    assert Pow2(2) == 4;
    Pow2Squared(2);
    Pow2Squared(4);
    Pow2Squared(8);
    Pow2Squared(16);
  }

  lemma {:induction false} Pow2Squared(k: nat)
    ensures Pow2(2 * k) == Pow2(k) * Pow2(k)
  {
    if k > 0 {
      Pow2Squared(k - 1);
      assert Pow2(2 * k) == 2 * (2 * Pow2(2 * k - 2));
    }
  }

  lemma HalvesOfNumber(high: nat, low: nat, w: nat)
    requires low < Pow2(w)
    ensures FromNum(low, w) + FromNum(high, w) == FromNum(low + Pow2(w) * high, w + w)
  {
    hide FromNum, Pow2, ShiftRight, Num;
    FromNumSplits(low + Pow2(w) * high, w, w);
    FromNumModulo(low, high, w);
    NumOfFromNum(low, w);
    if ShiftRight(low, w) >= 1 {
      Grows(Pow2(w), 1, ShiftRight(low, w));
    }
  }

  lemma EightBytes(b: seq<Byte>)
    requires |b| == 8
    ensures NumberOf(b) == NumberOf(b[..4]) * 0x1_0000_0000 + NumberOf(b[4..])
  {
    FourMore(b[..4], b[4..]);
    assert b[..4] + b[4..] == b;
  }

  function FourBytesNumber(w: nat, x: nat, y: nat, z: nat): nat {
    w * 0x100_0000 + x * 0x1_0000 + y * 0x100 + z
  }

  lemma FourMore(b: seq<Byte>, c: seq<Byte>)
    requires |c| == 4
    ensures NumberOf(b + c) == NumberOf(b) * 0x1_0000_0000 + NumberOf(c)
    ensures NumberOf(c) == FourBytesNumber(c[0], c[1], c[2], c[3])
  {
    assert c[..3][..2] == c[..2] && c[..2][..1] == c[..1] && c[..1][..0] == [];
    assert NumberOf(c[..1]) == c[0];
    assert NumberOf(c[..2]) == 256 * NumberOf(c[..1]) + c[1];
    assert NumberOf(c[..3]) == 256 * NumberOf(c[..2]) + c[2];
    assert (b + c)[..|b| + 3] == b + c[..3] && (b + c[..3])[..|b| + 2] == b + c[..2];
    assert (b + c[..2])[..|b| + 1] == b + c[..1] && (b + c[..1])[..|b|] == b;
    assert NumberOf(b + c[..1]) == 256 * NumberOf(b) + c[0];
    assert NumberOf(b + c[..2]) == 256 * NumberOf(b + c[..1]) + c[1];
    assert NumberOf(b + c[..3]) == 256 * NumberOf(b + c[..2]) + c[2];
  }

  /** `readInt32BE`, as a bit pattern. */
  function ReadInt32BE(b: seq<Byte>, o: nat): Half
    requires o + 4 <= |b|
  {
    ToHalf(FourBytesNumber(b[o], b[o + 1], b[o + 2], b[o + 3]))
  }

  lemma BlockWord(block: seq<Byte>, t: nat)
    requires |block| == 128 && t < 16
    ensures ReadInt32BE(block, 8 * t + 4) + ReadInt32BE(block, 8 * t) == Schedule(block, t)
  {
    hide ToHalf, ToWord, NumberOf;
    var b := block[8 * t..8 * t + 8];
    EightBytes(b);
    FourMore([], b[..4]);
    FourMore([], b[4..]);
    WordOfHalves(NumberOf(b[..4]), NumberOf(b[4..]));
  }

  /** The bundle adds the four terms of the schedule in another order. */
  lemma ScheduleSum(p: Word, q: Word, r: Word, s: Word)
    ensures Add(Add(Add(p, q), r), s) == Add(Add(Add(r, q), p), s)
  {
    hide Num, FromNum;
    var n := Num(p) + Num(q) + Num(r);
    AddOfSum(Num(p) + Num(q), r);
    AddOfSum(Num(r) + Num(q), p);
  }

  // ---- The object ----

  function FromConstants(constants: seq<UInt32>, t: nat): Register
    requires 2 * t + 1 < |constants|
  {
    Register(ToHalf(constants[2 * t]), ToHalf(constants[2 * t + 1]))
  }

  function InitialChain(): Chain {
    Chain(InitialWord(0), InitialWord(1), InitialWord(2), InitialWord(3),
          InitialWord(4), InitialWord(5), InitialWord(6), InitialWord(7))
  }

  function InitialNumber(i: nat): nat
    requires i < 8
  {
    JoinHalves(INITIAL_VALUE[2 * i], INITIAL_VALUE[2 * i + 1])
  }

  function InitialWord(i: nat): Word
    requires i < 8
  {
    ToWord(InitialNumber(i))
  }

  datatype Registers = Registers(a: Register, b: Register, c: Register, d: Register,
                                 e: Register, f: Register, g: Register, h: Register) {
    function Value(): Chain {
      Chain(a.Value(), b.Value(), c.Value(), d.Value(), e.Value(), f.Value(), g.Value(), h.Value())
    }
  }

  /** The t-th word of the work array. */
  function WordAt(w: seq<Half>, t: nat): Register
    requires 2 * t + 1 < |w|
  {
    Register(w[2 * t], w[2 * t + 1])
  }

  /** The first t words of the work array are those of the schedule. */
  ghost predicate Scheduled(w: seq<Half>, block: seq<Byte>, t: nat)
    requires |block| == 128
  {
    2 * t <= |w| && forall i | 0 <= i < t :: WordAt(w, i).Value() == Schedule(block, i)
  }

  /** The body of the schedule loop, for the words 15, 2, 7 and 16 places back. */
  function ScheduleNext(x: Register, y: Register, p: Register, q: Register): Register {
    var gamma0 := Register(Gamma0High(x.high, x.low), Gamma0Low(x.low, x.high));
    var gamma1 := Register(Gamma1High(y.high, y.low), Gamma1Low(y.low, y.high));
    AddSecond(AddSecond(AddFirst(gamma0, p), gamma1), q)
  }

  lemma ScheduleNextIs(x: Register, y: Register, p: Register, q: Register)
    ensures ScheduleNext(x, y, p, q).Value() ==
            Add(Add(Add(SmallSigma1(y.Value()), p.Value()), SmallSigma0(x.Value())), q.Value())
  {
    hide AddFirst, AddSecond, Add, Gamma0High, Gamma0Low, Gamma1High, Gamma1Low, SmallSigma0, SmallSigma1;
    var gamma0 := Register(Gamma0High(x.high, x.low), Gamma0Low(x.low, x.high));
    var gamma1 := Register(Gamma1High(y.high, y.low), Gamma1Low(y.low, y.high));
    Gamma0OfHalves(x);
    Gamma1OfHalves(y);
    RegistersAdd(gamma0, p);
    var z := AddFirst(gamma0, p);
    RegistersAdd(z, gamma1);
    RegistersAdd(AddSecond(z, gamma1), q);
    ScheduleSum(gamma0.Value(), p.Value(), gamma1.Value(), q.Value());
  }

  lemma WordAdded(w: seq<Half>, more: seq<Half>, block: seq<Byte>, t: nat)
    requires |block| == 128 && Scheduled(w, block, t) && |w| == |more| && 2 * t + 1 < |w|
    requires more == w[2 * t := more[2 * t]][2 * t + 1 := more[2 * t + 1]]
    requires WordAt(more, t).Value() == Schedule(block, t)
    ensures Scheduled(more, block, t + 1)
  {
    hide Schedule;
    forall i | 0 <= i < t + 1
      ensures WordAt(more, i).Value() == Schedule(block, i)
    {
      if i < t {
        assert WordAt(more, i) == WordAt(w, i);
      }
    }
  }

  method ScheduleBlock(w: array<Half>, block: seq<Byte>)
    requires w.Length == 160 && |block| == 128
    modifies w
    ensures Scheduled(w[..], block, 80)
  {
    var t := 0;
    while t < 16
      invariant 0 <= t <= 16 && Scheduled(w[..], block, t)
    {
      ReadWord(w, block, t);
      t := t + 1;
    }
    while t < 80
      invariant 16 <= t <= 80 && Scheduled(w[..], block, t)
    {
      ExtendSchedule(w, block, t);
      t := t + 1;
    }
  }

  method ReadWord(w: array<Half>, block: seq<Byte>, t: nat)
    requires w.Length == 160 && |block| == 128 && t < 16 && Scheduled(w[..], block, t)
    modifies w
    ensures Scheduled(w[..], block, t + 1)
  {
    hide Schedule, ReadInt32BE, Scheduled;
    ghost var before := w[..];
    w[2 * t] := ReadInt32BE(block, 8 * t);
    w[2 * t + 1] := ReadInt32BE(block, 8 * t + 4);
    BlockWord(block, t);
    WordAdded(before, w[..], block, t);
  }

  method ExtendSchedule(w: array<Half>, block: seq<Byte>, t: nat)
    requires w.Length == 160 && |block| == 128 && 16 <= t < 80 && Scheduled(w[..], block, t)
    modifies w
    ensures Scheduled(w[..], block, t + 1)
  {
    hide ScheduleNext;
    ghost var before := w[..];
    var x, y := WordAt(w[..], t - 15), WordAt(w[..], t - 2);
    var p, q := WordAt(w[..], t - 7), WordAt(w[..], t - 16);
    var z := ScheduleNext(x, y, p, q);
    w[2 * t], w[2 * t + 1] := z.high, z.low;
    NextScheduled(before, block, t);
    WordAdded(before, w[..], block, t);
  }

  lemma NextScheduled(w: seq<Half>, block: seq<Byte>, t: nat)
    requires |w| == 160 && |block| == 128 && 16 <= t < 80 && Scheduled(w, block, t)
    ensures ScheduleNext(WordAt(w, t - 15), WordAt(w, t - 2), WordAt(w, t - 7), WordAt(w, t - 16)).Value() ==
            Schedule(block, t)
  {
    hide ScheduleNext, Add, SmallSigma0, SmallSigma1;
    ScheduleNextIs(WordAt(w, t - 15), WordAt(w, t - 2), WordAt(w, t - 7), WordAt(w, t - 16));
  }
}
