/**
  The block buffer shared by the SHA hashes of the bundle: messages arrive in pieces, full blocks go to
  a compression function, and `digest` pads the rest.
*/
module StreamingHash {
  import opened Bytes

  function Zeros(k: nat): (r: seq<Byte>)
    ensures |r| == k && forall i | 0 <= i < k :: r[i] == 0
  {
    if k == 0 then [] else [0] + Zeros(k - 1)
  }

  /** The fewest zero bytes that bring `length` to `finalSize` modulo `blockSize`. */
  function ZerosNeeded(length: nat, blockSize: nat, finalSize: nat): (k: nat)
    requires finalSize < blockSize
    ensures k < blockSize && (length + k) % blockSize == finalSize
  {
    var r := length % blockSize;
    FewestZeros(length, blockSize, finalSize);
    if r <= finalSize then finalSize - r else finalSize + blockSize - r
  }

  lemma FewestZeros(length: nat, blockSize: nat, finalSize: nat)
    requires finalSize < blockSize
    ensures var r := length % blockSize;
            (length + if r <= finalSize then finalSize - r else finalSize + blockSize - r) % blockSize == finalSize
  {
    var q, r := length / blockSize, length % blockSize;
    var k := if r <= finalSize then finalSize - r else finalSize + blockSize - r;
    if r <= finalSize {
      RemainderIs(length + k, blockSize, q, finalSize);
    } else {
      assert (q + 1) * blockSize == q * blockSize + blockSize;
      RemainderIs(length + k, blockSize, q + 1, finalSize);
    }
  }

  /**
    Sections 5.1.1 and 5.1.2 of FIPS 180-4, in bytes: a one bit, the fewest zero bits, and the length of
    the message in bits, as wide as the rest of the last block.
  */
  function Padded(m: seq<Byte>, blockSize: nat, finalSize: nat): (r: seq<Byte>)
    requires finalSize < blockSize
    ensures |r| % blockSize == 0
  {
    var k := ZerosNeeded(|m| + 1, blockSize, finalSize);
    PaddedLength(|m| + 1 + k, blockSize, finalSize);
    m + [0x80] + Zeros(k) + BigEndian(8 * |m|, blockSize - finalSize)
  }

  lemma PaddedLength(length: nat, blockSize: nat, finalSize: nat)
    requires finalSize < blockSize && length % blockSize == finalSize
    ensures (length + (blockSize - finalSize)) % blockSize == 0
  {
    var q := length / blockSize;
    assert (q + 1) * blockSize == q * blockSize + blockSize;
    RemainderIs(length + (blockSize - finalSize), blockSize, q + 1, 0);
  }

  /** The compression function over the full blocks of a message; a shorter rest is not compressed. */
  function Compressed<S>(compress: (S, seq<Byte>) -> S, state: S, m: seq<Byte>, blockSize: nat): S
    requires blockSize > 0
    decreases |m|
  {
    if |m| < blockSize then state
    else Compressed(compress, compress(state, m[..blockSize]), m[blockSize..], blockSize)
  }

  lemma {:induction false} CompressedSplits<S>(compress: (S, seq<Byte>) -> S, state: S, m: seq<Byte>, n: seq<Byte>, blockSize: nat)
    requires blockSize > 0 && |m| % blockSize == 0
    ensures Compressed(compress, state, m + n, blockSize) ==
            Compressed(compress, Compressed(compress, state, m, blockSize), n, blockSize)
    decreases |m|
  {
    if |m| < blockSize {
      RemainderIs(|m|, blockSize, 0, |m|);
      assert m + n == n;
    } else {
      assert (m + n)[..blockSize] == m[..blockSize] && (m + n)[blockSize..] == m[blockSize..] + n;
      RestIsWhole(|m|, blockSize);
      CompressedSplits(compress, compress(state, m[..blockSize]), m[blockSize..], n, blockSize);
    }
  }

  lemma OneBlock<S>(compress: (S, seq<Byte>) -> S, state: S, b: seq<Byte>, blockSize: nat)
    requires blockSize > 0 && |b| == blockSize
    ensures Compressed(compress, state, b, blockSize) == compress(state, b)
  {
    assert b[..blockSize] == b && b[blockSize..] == [];
  }

  /** How much of a message of this length has been compressed. */
  function Whole(length: nat, blockSize: nat): (r: nat)
    requires blockSize > 0
    ensures r <= length && r % blockSize == 0 && length - r == length % blockSize
  {
    RemainderIs(length / blockSize * blockSize, blockSize, length / blockSize, 0);
    length / blockSize * blockSize
  }

  class Hash<S> {
    const compress: (S, seq<Byte>) -> S
    const initial: S
    const blockSize: nat
    const finalSize: nat
    const block: array<Byte>
    var len: nat
    var state: S
    ghost var message: seq<Byte>

    ghost predicate Valid()
      reads this, block
    {
      && finalSize < blockSize == block.Length && 8 <= blockSize - finalSize
      && len == |message|
      && Holds(message)
    }

    /** The full blocks of `m` are compressed, and the buffer starts with the rest. */
    ghost predicate Holds(m: seq<Byte>)
      reads this, block
    {
      && 0 < blockSize == block.Length
      && state == Compressed(compress, initial, m[..Whole(|m|, blockSize)], blockSize)
      && block[..|m| % blockSize] == m[Whole(|m|, blockSize)..]
    }

    constructor (compress: (S, seq<Byte>) -> S, initial: S, blockSize: nat, finalSize: nat)
      requires finalSize < blockSize && 8 <= blockSize - finalSize
      ensures Valid() && message == [] && fresh(block)
      ensures this.compress == compress && this.initial == initial
      ensures this.blockSize == blockSize && this.finalSize == finalSize
    {
      this.compress := compress;
      this.initial := initial;
      this.blockSize := blockSize;
      this.finalSize := finalSize;
      block := new Byte[blockSize](_ => 0);
      len := 0;
      state := initial;
      message := [];
    }

    method CopyBytes(u: nat, data: seq<Byte>, s: nat, c: nat)
      requires u + c <= block.Length && s + c <= |data|
      modifies block
      ensures block[..u + c] == old(block[..u]) + data[s..s + c]
    {
      var f := 0;
      while f < c
        invariant 0 <= f <= c
        invariant block[..u] == old(block[..u])
        invariant block[u..u + f] == data[s..s + f]
      {
        block[u + f] := data[s + f];
        f := f + 1;
      }
    }

    /** Copies the next bytes into the buffer, and compresses it when it is full. */
    method Fill(a: nat, data: seq<Byte>, s: nat, ghost before: seq<Byte>) returns (c: nat)
      requires blockSize > 0 && Holds(before) && a == |before| && s < |data|
      modifies this`state, block
      ensures 0 < c <= |data| - s
      ensures Holds(before + data[s..s + c])
    {
      hide Whole, Compressed;
      var u := a % blockSize;
      c := if |data| - s < blockSize - u then |data| - s else blockSize - u;
      CopyBytes(u, data, s, c);
      ghost var more := data[s..s + c];
      ghost var m := before + more;
      BufferGrows(before, more, blockSize);
      if (a + c) % blockSize == 0 {
        assert block[..u + c] == block[..];
        state := compress(state, block[..]);
        BlockDone(compress, initial, before, more, blockSize, block[..]);
        assert m[..|m|] == m;
        assert block[..0] == m[|m|..];
      } else {
        assert block[..u + c] == m[Whole(|before|, blockSize)..];
      }
    }

    method Update(data: seq<Byte>)
      requires Valid()
      modifies this`len, this`state, this`message, block
      ensures Valid() && message == old(message) + data
    {
      var a, s := len, 0;
      assert message + data[..0] == message;
      while s < |data|
        invariant 0 <= s <= |data| && a == len + s
        invariant message == old(message) && len == |message| && blockSize > 0
        invariant Holds(message + data[..s])
      {
        hide Holds;
        var c := Fill(a, data, s, message + data[..s]);
        assert message + data[..s] + data[s..s + c] == message + data[..s + c];
        s := s + c;
        a := a + c;
      }
      assert data[..|data|] == data;
      len := len + |data|;
      message := message + data;
    }

    method FillZeros(from: nat)
      requires from <= block.Length
      modifies block
      ensures block[..] == old(block[..from]) + Zeros(block.Length - from)
    {
      var i := from;
      while i < block.Length
        invariant from <= i <= block.Length
        invariant block[..from] == old(block[..from])
        invariant forall j | from <= j < i :: block[j] == 0
      {
        block[i] := 0;
        i := i + 1;
      }
    }

    method WriteUInt32BE(n: nat, offset: nat)
      requires n < 0x1_0000_0000 && offset + 4 <= block.Length
      modifies block
      ensures block[..] == old(block[..offset]) + BigEndian(n, 4) + old(block[offset + 4..])
    {
      block[offset], block[offset + 1], block[offset + 2], block[offset + 3] :=
        n / 0x100_0000, n / 0x1_0000 % 256, n / 256 % 256, n % 256;
      FourBytes(n);
    }

    method WriteLength(r: nat)
      requires r < 0x100_0000_0000_0000 && block.Length >= 8
      modifies block
      ensures var size, high, low := block.Length, r / 0x1_0000_0000, r % 0x1_0000_0000;
              block[..] == if r <= 0xFFFF_FFFF then old(block[..size - 4]) + BigEndian(r, 4)
                           else old(block[..size - 8]) + BigEndian(high, 4) + BigEndian(low, 4)
    {
      hide BigEndian;
      if r <= 0xFFFF_FFFF {
        WriteUInt32BE(r, block.Length - 4);
      } else {
        var low := r % 0x1_0000_0000;
        var high := (r - low) / 0x1_0000_0000;
        WriteUInt32BE(high, block.Length - 8);
        WriteUInt32BE(low, block.Length - 4);
      }
    }

    /** The one bit and the zeros after it, which fill a block of their own when the length does not fit. */
    method EndMessage() returns (ghost prefix: seq<Byte>)
      requires Valid()
      modifies this`state, block
      ensures |prefix| <= finalSize && block[..] == prefix + Zeros(blockSize - |prefix|)
      ensures var last := message[Whole(len, blockSize)..] + [0x80];
              if len % blockSize < finalSize then state == old(state) && prefix == last
              else state == compress(old(state), last + Zeros(blockSize - |last|)) && prefix == []
    {
      hide Whole, Compressed, Padded, Zeros, BigEndian;
      var t := len % blockSize;
      block[t] := 128;
      FillZeros(t + 1);
      prefix := message[Whole(len, blockSize)..] + [0x80];
      assert block[..] == prefix + Zeros(blockSize - |prefix|);
      if t >= finalSize {
        state := compress(state, block[..]);
        FillZeros(0);
        prefix := [];
        assert block[..] == prefix + Zeros(blockSize - |prefix|);
      }
    }

    /** The length at the end of the last block, whose start is `prefix`. */
    method WriteLengthAfter(r: nat, ghost prefix: seq<Byte>)
      requires r < 0x100_0000_0000_0000 && |prefix| <= finalSize < blockSize == block.Length && 8 <= blockSize - finalSize
      requires block[..] == prefix + Zeros(blockSize - |prefix|)
      modifies block
      ensures block[..] == prefix + Zeros(finalSize - |prefix|) + BigEndian(r, blockSize - finalSize)
    {
      hide Zeros, BigEndian;
      ghost var zeroed := block[..];
      assert forall k | 0 <= k <= block.Length :: zeroed[..k] == block[..k];
      WriteLength(r);
      LastBlock(prefix, r, blockSize, finalSize, block[..]);
    }

    /**
      The end of the message: the compression function has then been applied to the padded message of
      the standard, for every message whose length in bytes is an exact double.
    */
    method Digest() returns (digest: S)
      requires Valid() && len < 0x20_0000_0000_0000
      modifies this`state, block
      ensures digest == state == Compressed(compress, initial, Padded(message, blockSize, finalSize), blockSize)
    {
      hide Whole, Compressed, Padded, Zeros, BigEndian;
      ghost var before := state;
      assert before == Compressed(compress, initial, message[..Whole(|message|, blockSize)], blockSize);
      ghost var prefix := EndMessage();
      hide Valid, Holds;
      WriteLengthAfter(8 * len, prefix);
      DigestIs(compress, initial, message, blockSize, finalSize, before, state, prefix, block[..]);
      state := compress(state, block[..]);
      digest := state;
    }
  }

  // ---- The last blocks ----

  lemma {:induction false} ZeroBytes(width: nat)
    ensures BigEndian(0, width) == Zeros(width)
  {
    if width > 0 {
      ZeroBytes(width - 1);
      assert forall i | 0 <= i < width :: BigEndian(0, width)[i] == 0;
    }
  }

  /** The length in bits, when that in bytes is an exact double: multiplying by eight is exact then. */
  lemma LengthBytes(r: nat, width: nat)
    requires r < 0x100_0000_0000_0000 && width >= 8
    ensures BigEndian(r, width) ==
            if r <= 0xFFFF_FFFF then Zeros(width - 4) + BigEndian(r, 4)
            else Zeros(width - 8) + BigEndian(r / 0x1_0000_0000, 4) + BigEndian(r % 0x1_0000_0000, 4)
  {
    hide BigEndian, Zeros;
    LowFour(r, width - 4);
    LowFour(r / 0x1_0000_0000, width - 8);
    ZeroBytes(width - 8);
    ZeroBytes(width - 4);
  }

  lemma TakeZeros(prefix: seq<Byte>, n: nat, k: nat)
    requires k <= n
    ensures (prefix + Zeros(n))[..|prefix| + k] == prefix + Zeros(k)
  {}

  lemma JoinZeros(j: nat, k: nat)
    ensures Zeros(j) + Zeros(k) == Zeros(j + k)
  {}

  /** What the two branches of `digest` write at the end of a zeroed buffer is the length in bits. */
  lemma LastBlock(prefix: seq<Byte>, r: nat, blockSize: nat, finalSize: nat, b: seq<Byte>)
    requires |prefix| <= finalSize < blockSize && 8 <= blockSize - finalSize && r < 0x100_0000_0000_0000
    requires var zeroed := prefix + Zeros(blockSize - |prefix|);
             var high, low := r / 0x1_0000_0000, r % 0x1_0000_0000;
             b == (if r <= 0xFFFF_FFFF then zeroed[..blockSize - 4] + BigEndian(r, 4)
                   else zeroed[..blockSize - 8] + BigEndian(high, 4) + BigEndian(low, 4))
    ensures b == prefix + Zeros(finalSize - |prefix|) + BigEndian(r, blockSize - finalSize)
  {
    hide BigEndian, Zeros;
    var width, room := blockSize - finalSize, blockSize - |prefix|;
    LengthBytes(r, width);
    var last := if r <= 0xFFFF_FFFF then 4 else 8;
    TakeZeros(prefix, room, room - last);
    JoinZeros(finalSize - |prefix|, width - last);
  }

  /** The padded message ends in one block, or in two when the rest leaves no room for the length. */
  lemma PaddedBlocks<S>(compress: (S, seq<Byte>) -> S, initial: S, m: seq<Byte>, blockSize: nat, finalSize: nat)
    requires finalSize < blockSize
    ensures var whole, t := Whole(|m|, blockSize), |m| % blockSize;
            var state, prefix := Compressed(compress, initial, m[..whole], blockSize), m[whole..] + [0x80];
            var length := BigEndian(8 * |m|, blockSize - finalSize);
            Compressed(compress, initial, Padded(m, blockSize, finalSize), blockSize) ==
            if t < finalSize then compress(state, prefix + Zeros(finalSize - |prefix|) + length)
            else compress(compress(state, prefix + Zeros(blockSize - |prefix|)), Zeros(finalSize) + length)
  {
    hide Whole, Compressed, Padded, Zeros, BigEndian;
    var whole, t := Whole(|m|, blockSize), |m| % blockSize;
    var state, prefix := Compressed(compress, initial, m[..whole], blockSize), m[whole..] + [0x80];
    var length := BigEndian(8 * |m|, blockSize - finalSize);
    PaddedShape(m, blockSize, finalSize);
    if t < finalSize {
      var b := prefix + Zeros(finalSize - |prefix|) + length;
      CompressedSplits(compress, initial, m[..whole], b, blockSize);
      OneBlock(compress, state, b, blockSize);
    } else {
      var b, c := prefix + Zeros(blockSize - |prefix|), Zeros(finalSize) + length;
      CompressedSplits(compress, initial, m[..whole], b + c, blockSize);
      RemainderIs(|b|, blockSize, 1, 0);
      CompressedSplits(compress, state, b, c, blockSize);
      OneBlock(compress, state, b, blockSize);
      OneBlock(compress, compress(state, b), c, blockSize);
    }
  }

  /** The state after the last block, from the one before the message was ended. */
  lemma DigestIs<S>(compress: (S, seq<Byte>) -> S, initial: S, m: seq<Byte>, blockSize: nat, finalSize: nat,
                    before: S, state: S, prefix: seq<Byte>, b: seq<Byte>)
    requires |prefix| <= finalSize < blockSize
    requires before == Compressed(compress, initial, m[..Whole(|m|, blockSize)], blockSize)
    requires var last := m[Whole(|m|, blockSize)..] + [0x80];
             if |m| % blockSize < finalSize then state == before && prefix == last
             else state == compress(before, last + Zeros(blockSize - |last|)) && prefix == []
    requires b == prefix + Zeros(finalSize - |prefix|) + BigEndian(8 * |m|, blockSize - finalSize)
    ensures compress(state, b) == Compressed(compress, initial, Padded(m, blockSize, finalSize), blockSize)
  {
    hide Whole, Compressed, Padded, Zeros, BigEndian;
    PaddedBlocks(compress, initial, m, blockSize, finalSize);
    if |m| % blockSize >= finalSize {
      assert [] + Zeros(finalSize) == Zeros(finalSize);
    }
  }

  lemma PaddedShape(m: seq<Byte>, blockSize: nat, finalSize: nat)
    requires finalSize < blockSize
    ensures var whole, t := Whole(|m|, blockSize), |m| % blockSize;
            var prefix, length := m[whole..] + [0x80], BigEndian(8 * |m|, blockSize - finalSize);
            Padded(m, blockSize, finalSize) == m[..whole] +
              if t < finalSize then prefix + Zeros(finalSize - |prefix|) + length
              else prefix + Zeros(blockSize - |prefix|) + (Zeros(finalSize) + length)
  {
    hide Whole, Zeros, BigEndian;
    var whole, t := Whole(|m|, blockSize), |m| % blockSize;
    NextRemainder(|m|, blockSize);
    assert m == m[..whole] + m[whole..];
    if t >= finalSize {
      JoinZeros(blockSize - t - 1, finalSize);
    }
  }

  lemma NextRemainder(n: nat, d: nat)
    requires d > 0
    ensures (n + 1) % d == if n % d + 1 == d then 0 else n % d + 1
  {
    LengthGrows(n, 1, d);
  }

  /** Bytes that at most fill the buffer extend what it holds. */
  lemma BufferGrows(before: seq<Byte>, more: seq<Byte>, blockSize: nat)
    requires blockSize > 0 && |before| % blockSize + |more| <= blockSize
    ensures var u, m, whole := |before| % blockSize, before + more, Whole(|before|, blockSize);
            && m[..whole] == before[..whole] && m[whole..] == before[whole..] + more
            && if u + |more| < blockSize then Whole(|m|, blockSize) == whole && |m| % blockSize == u + |more|
               else Whole(|m|, blockSize) == |m| && |m| % blockSize == 0
  {
    LengthGrows(|before|, |more|, blockSize);
  }

  lemma LengthGrows(n: nat, k: nat, blockSize: nat)
    requires blockSize > 0 && n % blockSize + k <= blockSize
    ensures var u, whole := n % blockSize, Whole(n, blockSize);
            if u + k < blockSize then Whole(n + k, blockSize) == whole && (n + k) % blockSize == u + k
            else Whole(n + k, blockSize) == n + k && (n + k) % blockSize == 0
  {
    hide Whole;
    var q, u := n / blockSize, n % blockSize;
    assert n == q * blockSize + u;
    QuotientGrows(n, k, blockSize, q, u);
    assert Whole(n, blockSize) == n - u;
  }

  lemma QuotientGrows(n: nat, k: nat, blockSize: nat, q: nat, u: nat)
    requires n == q * blockSize + u && u < blockSize && u + k <= blockSize
    ensures if u + k < blockSize then (n + k) % blockSize == u + k else (n + k) % blockSize == 0
  {
    if u + k < blockSize {
      RemainderIs(n + k, blockSize, q, u + k);
    } else {
      assert (q + 1) * blockSize == q * blockSize + blockSize;
      RemainderIs(n + k, blockSize, q + 1, 0);
    }
  }

  lemma BlockDone<S>(compress: (S, seq<Byte>) -> S, initial: S, before: seq<Byte>, more: seq<Byte>, blockSize: nat, b: seq<Byte>)
    requires blockSize > 0 && |before| % blockSize + |more| == blockSize
    requires b == before[Whole(|before|, blockSize)..] + more
    ensures Compressed(compress, initial, before + more, blockSize) ==
            compress(Compressed(compress, initial, before[..Whole(|before|, blockSize)], blockSize), b)
  {
    var whole := Whole(|before|, blockSize);
    assert before + more == before[..whole] + b;
    CompressedSplits(compress, initial, before[..whole], b, blockSize);
    OneBlock(compress, Compressed(compress, initial, before[..whole], blockSize), b, blockSize);
  }

  // ---- What the standard's padding and the buffer are for ----

  function Joined(parts: seq<seq<Byte>>): seq<Byte> {
    if parts == [] then [] else Joined(parts[..|parts| - 1]) + parts[|parts| - 1]
  }

  lemma JoinedNext(parts: seq<seq<Byte>>, k: nat)
    requires k <= |parts|
    ensures Joined(parts[..0]) == []
    ensures k < |parts| ==> Joined(parts[..k + 1]) == Joined(parts[..k]) + parts[k]
  {
    if k < |parts| {
      assert parts[..k + 1][..k] == parts[..k];
    }
  }

  /** A digest depends on the message only, however it is split between the calls of `update`. */
  method DigestOfParts<S>(h: Hash<S>, parts: seq<seq<Byte>>) returns (digest: S)
    requires h.Valid() && h.message == [] && |Joined(parts)| < 0x20_0000_0000_0000
    modifies h, h.block
    ensures digest == Compressed(h.compress, h.initial, Padded(Joined(parts), h.blockSize, h.finalSize), h.blockSize)
  {
    hide Compressed, Padded, Whole, Joined, Hash.Holds;
    UpdateWith(h, parts);
    digest := h.Digest();
  }

  method UpdateWith<S>(h: Hash<S>, parts: seq<seq<Byte>>)
    requires h.Valid() && h.message == []
    modifies h, h.block
    ensures h.Valid() && h.message == Joined(parts)
  {
    hide Joined, Hash.Valid, Hash.Holds;
    var k := 0;
    JoinedNext(parts, 0);
    while k < |parts|
      invariant 0 <= k <= |parts| && h.Valid() && h.message == Joined(parts[..k])
    {
      h.Update(parts[k]);
      JoinedNext(parts, k);
      k := k + 1;
    }
    assert parts[..|parts|] == parts;
  }

  /** Different messages are padded differently, so a collision is one of the compression function. */
  lemma PaddedIsInjective(m: seq<Byte>, n: seq<Byte>, blockSize: nat, finalSize: nat)
    requires finalSize < blockSize && 8 <= blockSize - finalSize
    requires 8 * |m| < Pow256(blockSize - finalSize) && 8 * |n| < Pow256(blockSize - finalSize)
    requires Padded(m, blockSize, finalSize) == Padded(n, blockSize, finalSize)
    ensures m == n
  {
    hide BigEndian, Zeros;
    var width := blockSize - finalSize;
    var p, q := Padded(m, blockSize, finalSize), Padded(n, blockSize, finalSize);
    assert p[|p| - width..] == BigEndian(8 * |m|, width) && q[|q| - width..] == BigEndian(8 * |n|, width);
    BigEndianIsInjective(8 * |m|, 8 * |n|, width);
    assert p[..|m|] == m && q[..|n|] == n;
  }

  lemma {:induction false} NumberOfBigEndian(n: nat, width: nat)
    requires n < Pow256(width)
    ensures NumberOf(BigEndian(n, width)) == n
  {
    if width > 0 {
      NumberOfBigEndian(n / 256, width - 1);
      assert BigEndian(n, width)[..width - 1] == BigEndian(n / 256, width - 1);
    }
  }

  /**
    The padded message, byte by byte: whole blocks that begin with the message, then 128, zeros up to the place of
    the length and fewer than a block of them, and there the length in bits.
  */
  lemma PaddedIsStandard(m: seq<Byte>, blockSize: nat, finalSize: nat)
    requires finalSize < blockSize && 8 * |m| < Pow256(blockSize - finalSize)
    ensures var p, end := Padded(m, blockSize, finalSize), |Padded(m, blockSize, finalSize)| - (blockSize - finalSize);
            && |p| % blockSize == 0 && |m| < end <= |m| + blockSize
            && p[..|m|] == m && p[|m|] == 128 && (forall i | |m| < i < end :: p[i] == 0)
            && NumberOf(p[end..]) == 8 * |m|
  {
    hide BigEndian, NumberOf, Zeros, ZerosNeeded;
    var k, width := ZerosNeeded(|m| + 1, blockSize, finalSize), blockSize - finalSize;
    NumberOfBigEndian(8 * |m|, width);
    var p, end := Padded(m, blockSize, finalSize), |m| + 1 + k;
    assert p[end..] == BigEndian(8 * |m|, width);
    assert forall i | |m| < i < end :: p[i] == Zeros(k)[i - |m| - 1];
  }
}
