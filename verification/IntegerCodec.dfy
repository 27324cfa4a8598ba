/** The buffer's signed integers of any byte length, over mathematical integers. */
module IntegerCodec {
  import opened Bytes

  // ---- Two's complement ----

  /** floor(v / 256^k). */
  function Shifted(v: int, k: nat): int
    decreases k
  {
    if k == 0 then v else Shifted(v / 256, k - 1)
  }

  /** The `n` low bytes of `v` in two's complement, least significant first. */
  function TwosComplement(v: int, n: nat): (r: seq<Byte>)
    ensures |r| == n
    decreases n
  {
    if n == 0 then [] else [v % 256] + TwosComplement(v / 256, n - 1)
  }

  function Unsigned(b: seq<Byte>): (u: nat)
    ensures u < Pow256(|b|)
  {
    if b == [] then 0 else b[0] + 256 * Unsigned(b[1..])
  }

  function Signed(b: seq<Byte>): int
    requires b != []
  {
    var u := Unsigned(b);
    if u >= 128 * Pow256(|b| - 1) then u - Pow256(|b|) else u
  }

  predicate Fits(v: int, n: nat) {
    n > 0 && -128 * Pow256(n - 1) <= v < 128 * Pow256(n - 1)
  }

  function Reversed(b: seq<Byte>): (r: seq<Byte>)
    ensures |r| == |b| && forall i | 0 <= i < |b| :: r[i] == b[|b| - 1 - i]
  {
    seq(|b|, i requires 0 <= i < |b| => b[|b| - 1 - i])
  }

  lemma {:induction false} UnsignedOfTwos(v: int, n: nat)
    ensures v == Unsigned(TwosComplement(v, n)) + Pow256(n) * Shifted(v, n)
    decreases n
  {
    if n > 0 {
      UnsignedOfTwos(v / 256, n - 1);
      assert TwosComplement(v, n)[1..] == TwosComplement(v / 256, n - 1);
      Times256(Pow256(n - 1), Shifted(v, n));
    }
  }

  lemma Times256(p: int, q: int)
    ensures 256 * p * q == 256 * (p * q)
  {}

  lemma {:induction false} TwosOfUnsigned(b: seq<Byte>, q: int)
    ensures TwosComplement(Unsigned(b) + Pow256(|b|) * q, |b|) == b
  {
    if b != [] {
      var v := Unsigned(b) + Pow256(|b|) * q;
      Times256(Pow256(|b| - 1), q);
      var rest := Unsigned(b[1..]) + Pow256(|b| - 1) * q;
      assert v == 256 * rest + b[0];
      assert v / 256 == rest && v % 256 == b[0];
      TwosOfUnsigned(b[1..], q);
    }
  }

  /** Decoding undoes encoding on every value that fits. */
  lemma SignedOfTwos(v: int, n: nat)
    requires Fits(v, n)
    ensures Signed(TwosComplement(v, n)) == v
  {
    hide Unsigned, TwosComplement, Shifted;
    UnsignedOfTwos(v, n);
    var u, q := Unsigned(TwosComplement(v, n)), Shifted(v, n);
    assert Pow256(n) == 256 * Pow256(n - 1);
    hide Pow256;
    SignBit(v, u, Pow256(n), q);
  }

  lemma SignBit(v: int, u: nat, p: nat, q: int)
    requires v == u + p * q && u < p && 0 <= 2 * v + p < 2 * p
    ensures v == if 2 * u >= p then u - p else u
  {
    if q >= 1 {
      MonotoneProduct(p, 1, q);
    } else if q <= -2 {
      MonotoneProduct(p, q, -2);
    }
  }

  lemma MonotoneProduct(p: nat, a: int, b: int)
    requires a <= b
    ensures p * a <= p * b
  {}

  /** Encoding undoes decoding on all bytes. */
  lemma TwosOfSigned(b: seq<Byte>)
    requires b != []
    ensures Fits(Signed(b), |b|) && TwosComplement(Signed(b), |b|) == b
  {
    hide Unsigned, TwosComplement;
    TwosOfUnsigned(b, 0);
    TwosOfUnsigned(b, -1);
    PowSnoc(|b| - 1);
    hide Pow256;
  }

  /** One byte more. */
  lemma {:induction false} TwosSnoc(v: int, i: nat)
    ensures TwosComplement(v, i + 1) == TwosComplement(v, i) + [Shifted(v, i) % 256]
    decreases i
  {
    if i > 0 {
      TwosSnoc(v / 256, i - 1);
    }
  }

  lemma {:induction false} UnsignedSnoc(b: seq<Byte>, x: Byte)
    ensures Unsigned(b + [x]) == Unsigned(b) + Pow256(|b|) * x
  {
    if b == [] {
      assert b + [x] == [x];
    } else {
      UnsignedSnoc(b[1..], x);
      assert (b + [x])[1..] == b[1..] + [x];
      Times256(Pow256(|b| - 1), x);
    }
  }

  lemma ShiftedIsFloor(v: int, k: nat)
    ensures Shifted(v, k) == v / Pow256(k)
  {
    hide Unsigned, TwosComplement, Shifted, Pow256;
    UnsignedOfTwos(v, k);
    FloorIs(v, Pow256(k), Shifted(v, k), Unsigned(TwosComplement(v, k)));
  }

  lemma FloorIs(v: int, p: nat, q: int, r: nat)
    requires v == r + p * q && r < p
    ensures v / p == q
  {
    var e := v / p - q;
    assert e * p == r - v % p;
  }

  /** Byte `i` is floor(v / 256^i) modulo 256. */
  lemma {:induction false} ByteIs(v: int, n: nat, i: nat)
    requires i < n
    ensures TwosComplement(v, n)[i] == v / Pow256(i) % 256
    decreases n
  {
    hide Shifted, Pow256;
    TwosSnoc(v, n - 1);
    if i < n - 1 {
      ByteIs(v, n - 1, i);
    } else {
      ShiftedIsFloor(v, i);
    }
  }

  // ---- The truncating division and its borrow ----

  /** `e / o >> 0`, apart from multiples of 2^32. */
  function Truncated(v: int, o: nat): int
    requires o > 0
  {
    if v >= 0 then v / o else -(-v / o)
  }

  /** Truncation is one too high exactly when a negative number leaves a remainder. */
  lemma TruncatedIs(v: int, o: nat, q: int, low: nat)
    requires o > 0 && v == low + o * q && low < o
    ensures Truncated(v, o) == q + if v < 0 && low > 0 then 1 else 0
  {
    if v >= 0 {
      if q < 0 {
        MonotoneProduct(o, q, -1);
      }
      RemainderIs(v, o, q, low);
    } else {
      if q >= 0 {
        MonotoneProduct(o, 0, q);
      }
      if low == 0 {
        RemainderIs(-v, o, -q, 0);
      } else {
        RemainderIs(-v, o, -q - 1, o - low);
      }
    }
  }

  /** The borrow after `i` bytes: some byte so far of a negative number is not zero. */
  function Borrow(v: int, i: nat): int {
    if v < 0 && Unsigned(TwosComplement(v, i)) > 0 then 1 else 0
  }

  lemma NextBorrow(v: int, i: nat)
    ensures Borrow(v, i + 1) == if v < 0 && Borrow(v, i) == 0 && Shifted(v, i) % 256 != 0 then 1 else Borrow(v, i)
  {
    hide Unsigned, TwosComplement, Shifted;
    TwosSnoc(v, i);
    UnsignedSnoc(TwosComplement(v, i), Shifted(v, i) % 256);
    if Shifted(v, i) % 256 != 0 {
      MonotoneProduct(Pow256(i), 1, Shifted(v, i) % 256);
    }
  }

  lemma NextByte(v: int, i: nat)
    ensures Truncated(v, Pow256(i)) - Borrow(v, i) == Shifted(v, i)
  {
    hide Unsigned, TwosComplement, Shifted, Pow256, Truncated;
    UnsignedOfTwos(v, i);
    TruncatedIs(v, Pow256(i), Shifted(v, i), Unsigned(TwosComplement(v, i)));
  }

  // ---- The writers and readers ----

  /** `writeIntLE`; false for a value or a place out of range, and then nothing is written. */
  method WriteIntLE(buf: array<Byte>, value: int, offset: nat, byteLength: nat) returns (ok: bool)
    modifies buf
    ensures ok <==> Fits(value, byteLength) && offset + byteLength <= buf.Length
    ensures buf[..] == if ok then old(buf[..offset]) + TwosComplement(value, byteLength) + old(buf[offset + byteLength..])
                       else old(buf[..])
  {
    hide TwosComplement, Shifted, Truncated, Borrow, Pow256;
    if !Fits(value, byteLength) || offset + byteLength > buf.Length {
      return false;
    }
    var i, o, a := 1, 1, 0;
    FirstByte(value);
    buf[offset] := value % 256;
    while i < byteLength
      invariant 1 <= i <= byteLength && o == Pow256(i - 1) && a == Borrow(value, i - 1)
      invariant buf[..offset] == old(buf[..offset]) && buf[offset + i..] == old(buf[offset + i..])
      invariant buf[offset..offset + i] == TwosComplement(value, i)
    {
      PowSnoc(i - 1);
      o := o * 256;
      LastOfTwos(value, i);
      NextBorrow(value, i - 1);
      if value < 0 && a == 0 && buf[offset + i - 1] != 0 {
        a := 1;
      }
      NextByte(value, i);
      TwosSnoc(value, i);
      buf[offset + i] := (Truncated(value, o) - a) % 256;
      i := i + 1;
    }
    ok := true;
  }

  lemma FirstByte(v: int)
    ensures TwosComplement(v, 1) == [v % 256] && Borrow(v, 0) == 0 && Pow256(0) == 1
  {}

  lemma PowSnoc(k: nat)
    ensures Pow256(k + 1) == Pow256(k) * 256
  {}

  lemma LastOfTwos(v: int, i: nat)
    requires i > 0
    ensures TwosComplement(v, i)[i - 1] == Shifted(v, i - 1) % 256
  {
    TwosSnoc(v, i - 1);
  }

  /** `writeIntBE`: the same bytes, most significant first. */
  method WriteIntBE(buf: array<Byte>, value: int, offset: nat, byteLength: nat) returns (ok: bool)
    modifies buf
    ensures ok <==> Fits(value, byteLength) && offset + byteLength <= buf.Length
    ensures buf[..] == if ok then old(buf[..offset]) + Reversed(TwosComplement(value, byteLength)) +
                                  old(buf[offset + byteLength..])
                       else old(buf[..])
  {
    hide TwosComplement, Reversed, Pow256;
    if !Fits(value, byteLength) || offset + byteLength > buf.Length {
      return false;
    }
    FillBackwards(buf, value, offset, byteLength);
    ThreeParts(buf[..], offset, offset + byteLength);
    ok := true;
  }

  /** Its loop. */
  method FillBackwards(buf: array<Byte>, value: int, offset: nat, byteLength: nat)
    requires 0 < byteLength && offset + byteLength <= buf.Length
    modifies buf
    ensures buf[..offset] == old(buf[..offset]) && buf[offset + byteLength..] == old(buf[offset + byteLength..])
    ensures buf[offset..offset + byteLength] == Reversed(TwosComplement(value, byteLength))
  {
    hide TwosComplement, Shifted, Truncated, Borrow, Pow256, Reversed;
    var i, o, a := byteLength - 1, 1, 0;
    FirstByte(value);
    ReversedOne(value % 256);
    buf[offset + i] := value % 256;
    ghost var k: nat := 1;
    while i > 0
      invariant 0 <= i && 0 < k == byteLength - i && o == Pow256(k - 1) && a == Borrow(value, k - 1)
      invariant buf[..offset] == old(buf[..offset])
      invariant buf[offset + byteLength..] == old(buf[offset + byteLength..])
      invariant buf[offset + i..offset + byteLength] == Reversed(TwosComplement(value, k))
    {
      BackStep(value, k);
      o := o * 256;
      i := i - 1;
      assert buf[offset + i + 1] == buf[offset + i + 1..offset + byteLength][0];
      if value < 0 && a == 0 && buf[offset + i + 1] != 0 {
        a := 1;
      }
      PutInFront(buf, offset, offset + i, offset + byteLength, (Truncated(value, o) - a) % 256);
      k := k + 1;
    }
  }

  /** Writes the byte before those up to `end`, at `offset` or later. */
  method PutInFront(buf: array<Byte>, offset: nat, p: nat, end: nat, x: Byte)
    requires offset <= p < end <= buf.Length
    modifies buf
    ensures buf[p..end] == [x] + old(buf[p + 1..end])
    ensures buf[..offset] == old(buf[..offset]) && buf[end..] == old(buf[end..])
  {
    buf[p] := x;
  }

  lemma ThreeParts(s: seq<Byte>, i: nat, j: nat)
    requires i <= j <= |s|
    ensures s == s[..i] + s[i..j] + s[j..]
  {}

  lemma ReversedOne(x: Byte)
    ensures Reversed([x]) == [x]
  {}

  lemma FirstOfReversed(b: seq<Byte>)
    requires b != []
    ensures Reversed(b)[0] == b[|b| - 1]
  {}

  /** What one turn of the loop does after `k` bytes. */
  lemma BackStep(v: int, k: nat)
    requires k > 0
    ensures var b := Reversed(TwosComplement(v, k));
            && Pow256(k) == Pow256(k - 1) * 256
            && Borrow(v, k) == (if v < 0 && Borrow(v, k - 1) == 0 && b[0] != 0 then 1 else Borrow(v, k - 1))
            && Reversed(TwosComplement(v, k + 1)) == [(Truncated(v, Pow256(k)) - Borrow(v, k)) % 256] + b
  {
    hide TwosComplement, Shifted, Truncated, Borrow, Reversed, Pow256;
    PowSnoc(k - 1);
    LastOfTwos(v, k);
    NextBorrow(v, k - 1);
    FirstOfReversed(TwosComplement(v, k));
    NextByte(v, k);
    TwosSnoc(v, k);
    ReversedSnoc(TwosComplement(v, k), Shifted(v, k) % 256);
  }

  lemma ReversedSnoc(b: seq<Byte>, x: Byte)
    ensures Reversed(b + [x]) == [x] + Reversed(b)
  {}

  /** A read beyond the buffer is an error, and the element after its last one is no number. */
  datatype Read = OutOfRange | Undefined | Number(value: int)

  /** What reading no bytes at all comes to: the byte at hand, less one if its first bit is set. */
  function OfNoBytes(x: Byte): int {
    if x >= 128 then x - 1 else x
  }

  /** `readIntLE`. */
  method ReadIntLE(buf: array<Byte>, offset: nat, byteLength: nat) returns (r: Read)
    ensures r.OutOfRange? <==> offset + byteLength > buf.Length
    ensures offset + byteLength <= buf.Length && byteLength > 0 ==> r == Number(Signed(buf[offset..offset + byteLength]))
    ensures offset <= buf.Length && byteLength == 0 ==>
              r == if offset < buf.Length then Number(OfNoBytes(buf[offset])) else Undefined
  {
    hide Unsigned, Pow256;
    if offset + byteLength > buf.Length {
      return OutOfRange;
    }
    if offset == buf.Length {
      return Undefined;
    }
    var n: int, i: int, o := buf[offset], 1, 1;
    FirstUnsigned(buf[offset]);
    assert buf[offset..offset + 1] == [buf[offset]];
    while o < byteLength
      invariant 1 <= o && i == Pow256(o - 1) && o <= if byteLength == 0 then 1 else byteLength
      invariant offset + o <= buf.Length && n == Unsigned(buf[offset..offset + o])
    {
      PowSnoc(o - 1);
      i := i * 256;
      UnsignedSnoc(buf[offset..offset + o], buf[offset + o]);
      assert buf[offset..offset + o] + [buf[offset + o]] == buf[offset..offset + o + 1];
      n := n + i * buf[offset + o];
      o := o + 1;
    }
    i := i * 128;
    if n >= i {
      n := n - Pow256(byteLength);
    }
    r := Number(n);
  }

  lemma FirstUnsigned(x: Byte)
    ensures Unsigned([x]) == x && Pow256(0) == 1
  {
    assert [x][1..] == [];
  }

  /** `readIntBE`; without bytes to read it looks at the one before its place. */
  method ReadIntBE(buf: array<Byte>, offset: nat, byteLength: nat) returns (r: Read)
    ensures r.OutOfRange? <==> offset + byteLength > buf.Length
    ensures offset + byteLength <= buf.Length && byteLength > 0 ==>
              r == Number(Signed(Reversed(buf[offset..offset + byteLength])))
    ensures offset <= buf.Length && byteLength == 0 ==>
              r == if offset > 0 then Number(OfNoBytes(buf[offset - 1])) else Undefined
  {
    hide Unsigned, Pow256;
    if offset + byteLength > buf.Length {
      return OutOfRange;
    }
    var n: int, i: int := byteLength - 1, 1;
    if offset + n < 0 {
      return Undefined;
    }
    var o: int := buf[offset + n];
    FirstUnsigned(buf[offset + n]);
    assert Reversed(buf[offset + n..offset + byteLength]) == [buf[offset + n]];
    while n > 0
      invariant -1 <= n < byteLength && offset + n >= 0 && (n == -1 ==> byteLength == 0)
      invariant i == Pow256(byteLength - 1 - n)
      invariant o == Unsigned(Reversed(buf[offset + n..offset + byteLength]))
    {
      ghost var b := Reversed(buf[offset + n..offset + byteLength]);
      PowSnoc(byteLength - 1 - n);
      i := i * 256;
      n := n - 1;
      UnsignedSnoc(b, buf[offset + n]);
      assert Reversed(buf[offset + n..offset + byteLength]) == b + [buf[offset + n]];
      o := o + i * buf[offset + n];
    }
    i := i * 128;
    if o >= i {
      o := o - Pow256(byteLength);
    }
    r := Number(o);
  }

  /** What either writer leaves in the buffer, the reader of its byte order reads back. */
  lemma WrittenIsRead(before: seq<Byte>, value: int, offset: nat, byteLength: nat)
    requires Fits(value, byteLength) && offset + byteLength <= |before|
    ensures var bytes, end := TwosComplement(value, byteLength), offset + byteLength;
            var little := before[..offset] + bytes + before[end..];
            var big := before[..offset] + Reversed(bytes) + before[end..];
            Signed(little[offset..end]) == Signed(Reversed(big[offset..end])) == value
  {
    hide Unsigned, TwosComplement, Signed, Fits;
    var bytes, end := TwosComplement(value, byteLength), offset + byteLength;
    assert (before[..offset] + bytes + before[end..])[offset..end] == bytes;
    assert (before[..offset] + Reversed(bytes) + before[end..])[offset..end] == Reversed(bytes);
    assert Reversed(Reversed(bytes)) == bytes;
    SignedOfTwos(value, byteLength);
  }
}
