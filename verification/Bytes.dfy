/** Bytes, and numbers as sequences of them. */
module Bytes {

  type Byte = b: nat | b < 256

  function Pow256(k: nat): (r: nat)
    ensures r > 0
  {
    if k == 0 then 1 else 256 * Pow256(k - 1)
  }

  /** The `width` low bytes of `n`, most significant first. */
  function BigEndian(n: nat, width: nat): (r: seq<Byte>)
    ensures |r| == width
  {
    if width == 0 then [] else BigEndian(n / 256, width - 1) + [n % 256]
  }

  /** The number that bytes stand for, most significant first. */
  function NumberOf(b: seq<Byte>): nat {
    if b == [] then 0 else 256 * NumberOf(b[..|b| - 1]) + b[|b| - 1]
  }

  lemma RemainderIs(n: nat, d: nat, q: nat, r: nat)
    requires n == q * d + r && r < d
    ensures n / d == q && n % d == r
  {
    var e := n / d - q;
    assert e * d == r - n % d;
  }

  lemma RestIsWhole(length: nat, blockSize: nat)
    requires 0 < blockSize <= length
    ensures (length - blockSize) % blockSize == length % blockSize
  {
    var q := length / blockSize;
    assert (q - 1) * blockSize == q * blockSize - blockSize;
    RemainderIs(length - blockSize, blockSize, q - 1, length % blockSize);
  }

  lemma FourBytes(n: nat)
    requires n < 0x1_0000_0000
    ensures BigEndian(n, 4) == [n / 0x100_0000, n / 0x1_0000 % 256, n / 256 % 256, n % 256]
  {
    assert BigEndian(n, 4) == BigEndian(n / 256, 3) + [n % 256];
    assert BigEndian(n / 256, 3) == BigEndian(n / 256 / 256, 2) + [n / 256 % 256];
    assert BigEndian(n / 256 / 256, 2) == BigEndian(n / 256 / 256 / 256, 1) + [n / 256 / 256 % 256];
  }

  /** The low four bytes of a longer number. */
  lemma LowFour(n: nat, width: nat)
    ensures BigEndian(n, width + 4) == BigEndian(n / 0x1_0000_0000, width) + BigEndian(n % 0x1_0000_0000, 4)
  {
    var low := n % 0x1_0000_0000;
    FourBytes(low);
    assert BigEndian(n, width + 4) == BigEndian(n / 256, width + 3) + [n % 256];
    assert BigEndian(n / 256, width + 3) == BigEndian(n / 256 / 256, width + 2) + [n / 256 % 256];
    assert BigEndian(n / 256 / 256, width + 2) == BigEndian(n / 256 / 256 / 256, width + 1) + [n / 256 / 256 % 256];
    LowDigits(n);
  }

  lemma LowDigits(n: nat)
    ensures var low := n % 0x1_0000_0000;
            && low / 0x100_0000 == n / 256 / 256 / 256 % 256 && low / 0x1_0000 % 256 == n / 256 / 256 % 256
            && low / 256 % 256 == n / 256 % 256 && low % 256 == n % 256
            && n / 256 / 256 / 256 / 256 == n / 0x1_0000_0000
  {
    var n1, n2, n3, n4 := n / 256, n / 256 / 256, n / 256 / 256 / 256, n / 256 / 256 / 256 / 256;
    var rest := 0x100_0000 * (n3 % 256) + 0x1_0000 * (n2 % 256) + 256 * (n1 % 256) + n % 256;
    assert n == n4 * 0x1_0000_0000 + rest && 0 <= rest < 0x1_0000_0000;
    RemainderIs(n, 0x1_0000_0000, n4, rest);
    DigitsOf(n3 % 256, n2 % 256, n1 % 256, n % 256);
  }

  lemma DigitsOf(a: Byte, b: Byte, c: Byte, d: Byte)
    ensures var low := 0x100_0000 * a + 0x1_0000 * b + 256 * c + d;
            low / 0x100_0000 == a && low / 0x1_0000 % 256 == b && low / 256 % 256 == c && low % 256 == d
  {
    var low := 0x100_0000 * a + 0x1_0000 * b + 256 * c + d;
    RemainderIs(low, 0x100_0000, a, 0x1_0000 * b + 256 * c + d);
    RemainderIs(low, 0x1_0000, 256 * a + b, 256 * c + d);
    RemainderIs(256 * a + b, 256, a, b);
    RemainderIs(low, 256, 0x1_0000 * a + 256 * b + c, d);
    RemainderIs(0x1_0000 * a + 256 * b + c, 256, 256 * a + b, c);
  }

  lemma {:induction false} BigEndianIsInjective(a: nat, b: nat, width: nat)
    requires a < Pow256(width) && b < Pow256(width) && BigEndian(a, width) == BigEndian(b, width)
    ensures a == b
  {
    if width > 0 {
      var s, t := BigEndian(a / 256, width - 1), BigEndian(b / 256, width - 1);
      assert BigEndian(a, width) == s + [a % 256] && BigEndian(b, width) == t + [b % 256];
      assert (s + [a % 256])[..width - 1] == s && (t + [b % 256])[..width - 1] == t;
      assert (s + [a % 256])[width - 1] == (t + [b % 256])[width - 1];
      BigEndianIsInjective(a / 256, b / 256, width - 1);
    }
  }
}
