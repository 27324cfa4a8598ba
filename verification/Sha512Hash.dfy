/** The SHA-512 object: its registers, the 80 rounds that update them, and the digest it returns. */
module Sha512Hash {
  import opened Bytes
  import opened Sha512
  import opened StreamingHash
  import opened Words

  // ---- One round on halves ----

  /** The sum of the loop's five terms. */
  function Temporary1(e: Register, f: Register, g: Register, h: Register, k: Register, w: Register): Register {
    var sigma1 := Register(Sigma1Half(e.high, e.low), Sigma1Half(e.low, e.high));
    var ch := Register(ChHalf(e.high, f.high, g.high), ChHalf(e.low, f.low, g.low));
    AddSecond(AddSecond(AddSecond(AddFirst(h, sigma1), ch), k), w)
  }

  lemma Temporary1Is(e: Register, f: Register, g: Register, h: Register, k: Register, w: Register)
    ensures Temporary1(e, f, g, h, k, w).Value() ==
            Add(Add(Add(Add(h.Value(), BigSigma1(e.Value())), Ch(e.Value(), f.Value(), g.Value())), k.Value()), w.Value())
  {
    hide AddFirst, AddSecond, Add, Sigma1Half, ChHalf, BigSigma1, Ch;
    var sigma1 := Register(Sigma1Half(e.high, e.low), Sigma1Half(e.low, e.high));
    var ch := Register(ChHalf(e.high, f.high, g.high), ChHalf(e.low, f.low, g.low));
    Sigma1OfHalves(e);
    ChOfHalves(e, f, g);
    var t := AddFirst(h, sigma1);
    RegistersAdd(h, sigma1);
    RegistersAdd(t, ch);
    RegistersAdd(AddSecond(t, ch), k);
    RegistersAdd(AddSecond(AddSecond(t, ch), k), w);
  }

  /** `S0 + maj`. */
  function Temporary2(a: Register, b: Register, c: Register): Register {
    var maj := Register(MajHalf(a.high, b.high, c.high), MajHalf(a.low, b.low, c.low));
    AddFirst(Register(Sigma0Half(a.high, a.low), Sigma0Half(a.low, a.high)), maj)
  }

  lemma Temporary2Is(a: Register, b: Register, c: Register)
    ensures Temporary2(a, b, c).Value() == Add(BigSigma0(a.Value()), Maj(a.Value(), b.Value(), c.Value()))
  {
    hide AddFirst, AddSecond, Add, Sigma0Half, MajHalf, BigSigma0, Maj;
    Sigma0OfHalves(a);
    MajOfHalves(a, b, c);
    RegistersAdd(Register(Sigma0Half(a.high, a.low), Sigma0Half(a.low, a.high)),
                 Register(MajHalf(a.high, b.high, c.high), MajHalf(a.low, b.low, c.low)));
  }

  lemma RoundOfHalves(r: Registers, k: Register, w: Register)
    ensures var t1, t2 := Temporary1(r.e, r.f, r.g, r.h, k, w), Temporary2(r.a, r.b, r.c);
            Registers(AddFirst(t1, t2), r.a, r.b, r.c, AddFirst(r.d, t1), r.e, r.f, r.g).Value() ==
            Round(r.Value(), k.Value(), w.Value())
  {
    hide AddFirst, AddSecond, Add, Temporary1, Temporary2, BigSigma0, BigSigma1, Ch, Maj;
    var t1, t2 := Temporary1(r.e, r.f, r.g, r.h, k, w), Temporary2(r.a, r.b, r.c);
    Temporary1Is(r.e, r.f, r.g, r.h, k, w);
    Temporary2Is(r.a, r.b, r.c);
    RegistersAdd(t1, t2);
    RegistersAdd(r.d, t1);
  }

  lemma ConstantOfHalves(t: nat)
    requires t < 80
    ensures FromConstants(ROUND_CONSTANTS, t).Value() == ToWord(RoundConstant(t))
  {
    hide ToHalf, ToWord, ROUND_CONSTANTS;
    ConstantsLength();
    WordOfHalves(ROUND_CONSTANTS[2 * t], ROUND_CONSTANTS[2 * t + 1]);
  }

  lemma ConstantsLength()
    ensures |ROUND_CONSTANTS| == 160
  {}

  function InitialRegisters(): Registers {
    Registers(FromConstants(INITIAL_VALUE, 0), FromConstants(INITIAL_VALUE, 1), FromConstants(INITIAL_VALUE, 2),
              FromConstants(INITIAL_VALUE, 3), FromConstants(INITIAL_VALUE, 4), FromConstants(INITIAL_VALUE, 5),
              FromConstants(INITIAL_VALUE, 6), FromConstants(INITIAL_VALUE, 7))
  }

  lemma InitialOfHalves()
    ensures InitialRegisters().Value() == InitialChain()
  {
    hide ToHalf, ToWord;
    forall i | 0 <= i < 8
      ensures FromConstants(INITIAL_VALUE, i).Value() == InitialWord(i)
    {
      WordOfHalves(INITIAL_VALUE[2 * i], INITIAL_VALUE[2 * i + 1]);
    }
  }

  // ---- The object ----

  class Hasher {
    var r: Registers
    const w: array<Half>

    /** `init`. */
    constructor ()
      ensures r.Value() == InitialChain() && w.Length == 160 && fresh(w)
    {
      hide InitialRegisters, InitialChain, ToHalf;
      r := InitialRegisters();
      w := new Half[160](_ => ToHalf(0));
      new;
      InitialOfHalves();
    }

    /** `_update`: the object's registers go through the compression function of the standard. */
    method Update(block: seq<Byte>)
      requires w.Length == 160 && |block| == 128
      modifies this`r, w
      ensures r.Value() == Compress(old(r).Value(), block) && r == UpdateRegisters(old(r), block)
    {
      hide Temporary1, Temporary2, AddFirst, AddSecond, Add, Round, Scheduled, ToWord, ToHalf;
      ScheduleBlock(w, block);
      var a, b, c, d, e, f, g, h := r.a, r.b, r.c, r.d, r.e, r.f, r.g, r.h;
      var t := 0;
      while t < 80
        invariant 0 <= t <= 80 && r == old(r) && Scheduled(w[..], block, 80)
        invariant Registers(a, b, c, d, e, f, g, h).Value() == Rounds(r.Value(), block, t)
      {
        var k, x := FromConstants(ROUND_CONSTANTS, t), WordAt(w[..], t);
        ScheduledAt(w[..], block, t);
        ConstantOfHalves(t);
        RoundOfHalves(Registers(a, b, c, d, e, f, g, h), k, x);
        var t1, t2 := Temporary1(e, f, g, h, k, x), Temporary2(a, b, c);
        h := g;
        g := f;
        f := e;
        e := AddFirst(d, t1);
        d := c;
        c := b;
        b := a;
        a := AddFirst(t1, t2);
        t := t + 1;
      }
      ChainAdded(r, Registers(a, b, c, d, e, f, g, h));
      r := Registers(AddSecond(r.a, a), AddSecond(r.b, b), AddSecond(r.c, c), AddSecond(r.d, d),
                     AddSecond(r.e, e), AddSecond(r.f, f), AddSecond(r.g, g), AddSecond(r.h, h));
      ValueDetermines(r);
    }
  }

  lemma ScheduledAt(w: seq<Half>, block: seq<Byte>, t: nat)
    requires |block| == 128 && t < 80 && Scheduled(w, block, 80)
    ensures 2 * t + 1 < |w| && WordAt(w, t).Value() == Schedule(block, t)
  {}

  lemma ChainAdded(s: Registers, r: Registers)
    ensures Registers(AddSecond(s.a, r.a), AddSecond(s.b, r.b), AddSecond(s.c, r.c), AddSecond(s.d, r.d),
                      AddSecond(s.e, r.e), AddSecond(s.f, r.f), AddSecond(s.g, r.g), AddSecond(s.h, r.h)).Value() ==
            Added(s.Value(), r.Value())
  {
    hide AddFirst, AddSecond, Add;
    RegistersAdd(s.a, r.a);
    RegistersAdd(s.b, r.b);
    RegistersAdd(s.c, r.c);
    RegistersAdd(s.d, r.d);
    RegistersAdd(s.e, r.e);
    RegistersAdd(s.f, r.f);
    RegistersAdd(s.g, r.g);
    RegistersAdd(s.h, r.h);
  }

  // ---- The digest ----

  /** Section 6.4.2, step 4: the words of the last chaining value, most significant byte first. */
  function DigestBytes(s: Chain): seq<Byte> {
    BigEndian(Num(s.a), 8) + BigEndian(Num(s.b), 8) + BigEndian(Num(s.c), 8) + BigEndian(Num(s.d), 8) +
    BigEndian(Num(s.e), 8) + BigEndian(Num(s.f), 8) + BigEndian(Num(s.g), 8) + BigEndian(Num(s.h), 8)
  }

  /** `writeInt64BE`, the two halves one after the other. */
  function RegisterBytes(x: Register): seq<Byte> {
    BigEndian(Num(x.high), 4) + BigEndian(Num(x.low), 4)
  }

  lemma RegisterBytesIs(x: Register)
    ensures RegisterBytes(x) == BigEndian(Num(x.Value()), 8)
  {
    hide Num, BigEndian, Pow2;
    NumSplits(x.low, x.high);
    Pow2Of32();
    var n, high, low := Num(x.Value()), Num(x.high), Num(x.low);
    assert n == low + 0x1_0000_0000 * high && low < 0x1_0000_0000;
    RemainderIs(n, 0x1_0000_0000, high, low);
    LowFour(n, 4);
  }

  /** `_hash`. */
  method HashBytes(r: Registers) returns (bytes: seq<Byte>)
    ensures bytes == DigestBytes(r.Value())
  {
    hide BigEndian, Num;
    bytes := RegisterBytes(r.a) + RegisterBytes(r.b) + RegisterBytes(r.c) + RegisterBytes(r.d) +
             RegisterBytes(r.e) + RegisterBytes(r.f) + RegisterBytes(r.g) + RegisterBytes(r.h);
    RegisterBytesIs(r.a);
    RegisterBytesIs(r.b);
    RegisterBytesIs(r.c);
    RegisterBytesIs(r.d);
    RegisterBytesIs(r.e);
    RegisterBytesIs(r.f);
    RegisterBytesIs(r.g);
    RegisterBytesIs(r.h);
  }

  /** The compression function as the block buffer calls it, always with a whole block. */
  function CompressBlock(s: Chain, block: seq<Byte>): Chain {
    if |block| == 128 then Compress(s, block) else s
  }

  /** SHA-512 of FIPS 180-4. */
  function DigestOf(m: seq<Byte>): seq<Byte> {
    DigestBytes(Compressed(CompressBlock, InitialChain(), Padded(m, 128, 112), 128))
  }

  // ---- The object behind the block buffer ----

  /** The registers that hold a chaining value. */
  function RegistersOf(s: Chain): Registers {
    Registers(RegisterOf(s.a), RegisterOf(s.b), RegisterOf(s.c), RegisterOf(s.d),
              RegisterOf(s.e), RegisterOf(s.f), RegisterOf(s.g), RegisterOf(s.h))
  }

  function RegisterOf(x: Word): Register {
    Register(x[32..], x[..32])
  }

  lemma ValueDetermines(r: Registers)
    ensures RegistersOf(r.Value()) == r
  {
    forall x: Register
      ensures RegisterOf(x.Value()) == x
    {
      assert (x.low + x.high)[..32] == x.low && (x.low + x.high)[32..] == x.high;
    }
  }

  lemma RegistersOfValue(s: Chain)
    ensures RegistersOf(s).Value() == s
  {
    forall x: Word
      ensures RegisterOf(x).Value() == x
    {
      assert x[..32] + x[32..] == x;
    }
  }

  /** What `_update` does to the registers when the buffer hands it a block. */
  function UpdateRegisters(r: Registers, block: seq<Byte>): Registers {
    RegistersOf(CompressBlock(r.Value(), block))
  }

  lemma {:induction false} BlocksThroughRegisters(r: Registers, m: seq<Byte>)
    ensures Compressed(UpdateRegisters, r, m, 128).Value() == Compressed(CompressBlock, r.Value(), m, 128)
    decreases |m|
  {
    hide RegistersOf, CompressBlock;
    if |m| >= 128 {
      RegistersOfValue(CompressBlock(r.Value(), m[..128]));
      BlocksThroughRegisters(UpdateRegisters(r, m[..128]), m[128..]);
    }
  }

  /** `update` for each part of a message, through the block buffer, and then `digest`. */
  method Digest(parts: seq<seq<Byte>>) returns (bytes: seq<Byte>)
    requires |Joined(parts)| < 0x20_0000_0000_0000
    ensures bytes == DigestOf(Joined(parts))
  {
    hide Compressed, Padded, InitialRegisters, InitialChain, Joined, DigestBytes, UpdateRegisters, CompressBlock;
    var h := new Hash<Registers>(UpdateRegisters, InitialRegisters(), 128, 112);
    var r := DigestOfParts(h, parts);
    BlocksThroughRegisters(InitialRegisters(), Padded(Joined(parts), 128, 112));
    InitialOfHalves();
    bytes := HashBytes(r);
  }
}
