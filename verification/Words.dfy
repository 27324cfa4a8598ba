/** Machine words as sequences of bits, least significant first, and 64-bit words as pairs of 32-bit halves. */
module Words {

  type Bits = seq<bool>

  type Half = x: Bits | |x| == 32 witness seq(32, _ => false)

  type Word = x: Bits | |x| == 64 witness seq(64, _ => false)

  // ---- Section 3.2 of FIPS 180-4 ----

  function And(x: Bits, y: Bits): (r: Bits)
    requires |x| == |y|
    ensures |r| == |x| && forall i | 0 <= i < |x| :: r[i] == (x[i] && y[i])
  {
    seq(|x|, i requires 0 <= i < |x| => x[i] && y[i])
  }

  function Or(x: Bits, y: Bits): (r: Bits)
    requires |x| == |y|
    ensures |r| == |x| && forall i | 0 <= i < |x| :: r[i] == (x[i] || y[i])
  {
    seq(|x|, i requires 0 <= i < |x| => x[i] || y[i])
  }

  function Xor(x: Bits, y: Bits): (r: Bits)
    requires |x| == |y|
    ensures |r| == |x| && forall i | 0 <= i < |x| :: r[i] == (x[i] != y[i])
  {
    seq(|x|, i requires 0 <= i < |x| => x[i] != y[i])
  }

  function Not(x: Bits): (r: Bits)
    ensures |r| == |x| && forall i | 0 <= i < |x| :: r[i] == !x[i]
  {
    seq(|x|, i requires 0 <= i < |x| => !x[i])
  }

  function Shr(x: Bits, n: nat): (r: Bits)
    ensures |r| == |x| && forall i | 0 <= i < |x| :: r[i] == (i + n < |x| && x[i + n])
  {
    seq(|x|, i requires 0 <= i < |x| => i + n < |x| && x[i + n])
  }

  function Shl(x: Bits, n: nat): (r: Bits)
    ensures |r| == |x| && forall i | 0 <= i < |x| :: r[i] == (i >= n && x[i - n])
  {
    seq(|x|, i requires 0 <= i < |x| => i >= n && x[i - n])
  }

  function Rotr(x: Bits, n: nat): (r: Bits)
    requires n <= |x|
    ensures |r| == |x| && forall i | 0 <= i < |x| :: r[i] == x[if i + n < |x| then i + n else i + n - |x|]
  {
    Or(Shr(x, n), Shl(x, |x| - n))
  }

  // ---- Words as numbers ----

  function Pow2(k: nat): (r: nat)
    ensures r > 0
  {
    if k == 0 then 1 else 2 * Pow2(k - 1)
  }

  function Num(x: Bits): (n: nat)
    ensures n < Pow2(|x|)
  {
    if x == [] then 0 else (if x[0] then 1 else 0) + 2 * Num(x[1..])
  }

  /** The low bits of a number: what `| 0` keeps of a sum, with 32 of them. */
  function FromNum(n: nat, width: nat): (x: Bits)
    ensures |x| == width
  {
    if width == 0 then [] else [n % 2 == 1] + FromNum(n / 2, width - 1)
  }

  /** What `FromNum` leaves of the number. */
  function ShiftRight(n: nat, width: nat): nat {
    if width == 0 then n else ShiftRight(n / 2, width - 1)
  }

  lemma {:induction false} NumOfFromNum(n: nat, width: nat)
    ensures n == Num(FromNum(n, width)) + Pow2(width) * ShiftRight(n, width)
  {
    if width > 0 {
      NumOfFromNum(n / 2, width - 1);
      assert FromNum(n, width)[1..] == FromNum(n / 2, width - 1);
      Doubled(Pow2(width - 1), ShiftRight(n, width));
    }
  }

  lemma Doubled(p: nat, m: nat)
    ensures 2 * p * m == 2 * (p * m)
  {}

  lemma {:induction false} NumSplits(low: Bits, high: Bits)
    ensures Num(low + high) == Num(low) + Pow2(|low|) * Num(high)
  {
    if low == [] {
      assert low + high == high;
    } else {
      NumSplits(low[1..], high);
      assert (low + high)[1..] == low[1..] + high;
      Doubled(Pow2(|low| - 1), Num(high));
    }
  }

  lemma {:induction false} FromNumSplits(n: nat, j: nat, k: nat)
    ensures FromNum(n, j + k) == FromNum(n, j) + FromNum(ShiftRight(n, j), k)
  {
    if j > 0 {
      FromNumSplits(n / 2, j - 1, k);
    }
  }

  /** Only the remainder modulo the word size matters. */
  lemma {:induction false} FromNumModulo(n: nat, m: nat, width: nat)
    ensures FromNum(n + Pow2(width) * m, width) == FromNum(n, width)
    ensures ShiftRight(n + Pow2(width) * m, width) == ShiftRight(n, width) + m
  {
    if width > 0 {
      var p := Pow2(width - 1) * m;
      Doubled(Pow2(width - 1), m);
      FromNumModulo(n / 2, m, width - 1);
      assert (n + 2 * p) / 2 == n / 2 + p && (n + 2 * p) % 2 == n % 2;
    }
  }

  function Add(x: Bits, y: Bits): (r: Bits)
    requires |x| == |y|
    ensures |r| == |x|
  {
    FromNum(Num(x) + Num(y), |x|)
  }

  /** A sum of sums is the sum of the numbers. */
  lemma AddOfSum(n: nat, y: Bits)
    ensures Add(FromNum(n, |y|), y) == FromNum(n + Num(y), |y|)
  {
    hide FromNum, Num, Pow2, ShiftRight;
    NumOfFromNum(n, |y|);
    FromNumModulo(Num(FromNum(n, |y|)) + Num(y), ShiftRight(n, |y|), |y|);
  }

  // ---- Two halves ----

  /** A 64-bit register as the bundle keeps it. */
  datatype Register = Register(high: Half, low: Half) {
    function Value(): Word {
      low + high
    }
  }

  /** `getCarry`: the unsigned comparison of a sum with one of its terms. */
  function Carry(sum: Half, term: Half): nat {
    if Num(sum) < Num(term) then 1 else 0
  }

  lemma CarryIs(x: Half, y: Half)
    ensures var n, w := Num(x) + Num(y), |x|;
            Carry(FromNum(n, w), x) == Carry(FromNum(n, w), y) == ShiftRight(n, w)
  {
    hide Pow2, Num, FromNum, ShiftRight;
    var n := Num(x) + Num(y);
    NumOfFromNum(n, |x|);
    OneCarry(n, Pow2(|x|), Num(FromNum(n, |x|)), ShiftRight(n, |x|));
  }

  lemma OneCarry(n: nat, p: nat, low: nat, c: nat)
    requires n == low + p * c && low < p && n < 2 * p
    ensures c <= 1 && low == if c == 1 then n - p else n
  {
    if c >= 2 {
      Grows(p, 2, c);
    }
  }

  lemma Grows(p: nat, a: nat, b: nat)
    requires a <= b
    ensures p * a <= p * b
  {}

  lemma HalvesAdd(x: Register, y: Register)
    ensures var n, m, w := Num(x.low) + Num(y.low), Num(x.high) + Num(y.high), |x.low|;
            FromNum(n, w) + FromNum(m + ShiftRight(n, w), |x.high|) == Add(x.Value(), y.Value())
  {
    hide Pow2, Num, FromNum, ShiftRight;
    var n, m, w := Num(x.low) + Num(y.low), Num(x.high) + Num(y.high), |x.low|;
    NumSplits(x.low, x.high);
    NumSplits(y.low, y.high);
    Distributes(Pow2(w), Num(x.high), Num(y.high));
    FromNumSplits(n + Pow2(w) * m, w, |x.high|);
    FromNumModulo(n, m, w);
  }

  lemma Distributes(p: nat, a: nat, b: nat)
    ensures p * (a + b) == p * a + p * b
  {}

  /** The sum of two registers, the carry found by comparing with the first one's low half. */
  function AddFirst(x: Register, y: Register): Register {
    var low := FromNum(Num(x.low) + Num(y.low), |x.low|);
    Register(FromNum(Num(x.high) + Num(y.high) + Carry(low, x.low), |x.high|), low)
  }

  /** The same, comparing with the second one's. */
  function AddSecond(x: Register, y: Register): Register {
    var low := FromNum(Num(x.low) + Num(y.low), |x.low|);
    Register(FromNum(Num(x.high) + Num(y.high) + Carry(low, y.low), |x.high|), low)
  }

  /** Either way the 64-bit values are added modulo 2^64. */
  lemma RegistersAdd(x: Register, y: Register)
    ensures AddFirst(x, y).Value() == AddSecond(x, y).Value() == Add(x.Value(), y.Value())
  {
    hide Num, FromNum, ShiftRight, Carry, Add;
    HalvesAdd(x, y);
    CarryIs(x.low, y.low);
  }
}
