/** Where the constants come from: sections 4.2.3 and 5.3.5 of FIPS 180-4. */
module Sha512Constants {
  import opened Bytes
  import opened Sha512

  const TWO_TO_64: nat := 0x1_0000_0000_0000_0000

  /** The first 64 bits of the fractional part of the cube root of `p`, whose whole part is `whole`. */
  predicate IsCubeRoot(high: UInt32, low: UInt32, p: nat, whole: nat) {
    var r := whole * TWO_TO_64 + JoinHalves(high, low);
    r * r * r <= p * TWO_TO_64 * TWO_TO_64 * TWO_TO_64 < (r + 1) * (r + 1) * (r + 1)
  }

  ghost predicate OfCubeRoot(high: UInt32, low: UInt32, p: nat) {
    exists whole: nat :: IsCubeRoot(high, low, p, whole)
  }

  /** The same for the square root. */
  predicate IsSquareRoot(high: UInt32, low: UInt32, p: nat, whole: nat) {
    var r := whole * TWO_TO_64 + JoinHalves(high, low);
    r * r <= p * TWO_TO_64 * TWO_TO_64 < (r + 1) * (r + 1)
  }

  ghost predicate OfSquareRoot(high: UInt32, low: UInt32, p: nat) {
    exists whole: nat :: IsSquareRoot(high, low, p, whole)
  }

  // ---- The first eighty primes, in rows of eight ----

  const PRIMES_0: seq<nat> := [2, 3, 5, 7, 11, 13, 17, 19]
  const PRIMES_1: seq<nat> := [23, 29, 31, 37, 41, 43, 47, 53]
  const PRIMES_2: seq<nat> := [59, 61, 67, 71, 73, 79, 83, 89]
  const PRIMES_3: seq<nat> := [97, 101, 103, 107, 109, 113, 127, 131]
  const PRIMES_4: seq<nat> := [137, 139, 149, 151, 157, 163, 167, 173]
  const PRIMES_5: seq<nat> := [179, 181, 191, 193, 197, 199, 211, 223]
  const PRIMES_6: seq<nat> := [227, 229, 233, 239, 241, 251, 257, 263]
  const PRIMES_7: seq<nat> := [269, 271, 277, 281, 283, 293, 307, 311]
  const PRIMES_8: seq<nat> := [313, 317, 331, 337, 347, 349, 353, 359]
  const PRIMES_9: seq<nat> := [367, 373, 379, 383, 389, 397, 401, 409]

  function PrimeRow(k: nat): (r: seq<nat>)
    requires k < 10
    ensures |r| == 8
  {
    match k
    case 0 => PRIMES_0
    case 1 => PRIMES_1
    case 2 => PRIMES_2
    case 3 => PRIMES_3
    case 4 => PRIMES_4
    case 5 => PRIMES_5
    case 6 => PRIMES_6
    case 7 => PRIMES_7
    case 8 => PRIMES_8
    case _ => PRIMES_9
  }

  /** The prime at place `t`, counted from 0. */
  function Prime(t: nat): nat
    requires t < 80
  {
    PrimeRow(t / 8)[t % 8]
  }

  predicate IsPrime(n: nat) {
    n >= 2 && forall d | 2 <= d < n :: n % d != 0
  }

  /** No prime below 23 divides `n`, unless it is `n`. */
  predicate Passes(n: nat) {
    && (n % 2 != 0 || n == 2) && (n % 3 != 0 || n == 3) && (n % 5 != 0 || n == 5) && (n % 7 != 0 || n == 7)
    && (n % 11 != 0 || n == 11) && (n % 13 != 0 || n == 13) && (n % 17 != 0 || n == 17) && (n % 19 != 0 || n == 19)
  }

  predicate NonePasses(n: nat, end: nat)
    decreases end - n
  {
    n >= end || (!Passes(n) && NonePasses(n + 1, end))
  }

  /** From `p` on, no other number below `q` passes. */
  predicate Gap(p: nat, q: nat) {
    Passes(p) && NonePasses(p + 1, q)
  }

  lemma {:induction false} NonePassesIs(n: nat, end: nat, m: nat)
    requires NonePasses(n, end) && n <= m < end
    ensures !Passes(m)
    decreases end - n
  {
    if n < m {
      NonePassesIs(n + 1, end, m);
    }
  }

  lemma Gaps0()
    ensures Gap(2, 3) && Gap(3, 5)
    ensures Gap(5, 7) && Gap(7, 11)
    ensures Gap(11, 13) && Gap(13, 17)
    ensures Gap(17, 19) && Gap(19, 23)
  {}

  lemma Gaps1()
    ensures Gap(23, 29) && Gap(29, 31)
    ensures Gap(31, 37) && Gap(37, 41)
    ensures Gap(41, 43) && Gap(43, 47)
    ensures Gap(47, 53) && Gap(53, 59)
  {}

  lemma Gaps2()
    ensures Gap(59, 61) && Gap(61, 67)
    ensures Gap(67, 71) && Gap(71, 73)
    ensures Gap(73, 79) && Gap(79, 83)
    ensures Gap(83, 89) && Gap(89, 97)
  {}

  lemma Gaps3()
    ensures Gap(97, 101) && Gap(101, 103)
    ensures Gap(103, 107) && Gap(107, 109)
    ensures Gap(109, 113) && Gap(113, 127)
    ensures Gap(127, 131) && Gap(131, 137)
  {}

  lemma Gaps4()
    ensures Gap(137, 139) && Gap(139, 149)
    ensures Gap(149, 151) && Gap(151, 157)
    ensures Gap(157, 163) && Gap(163, 167)
    ensures Gap(167, 173) && Gap(173, 179)
  {}

  lemma Gaps5()
    ensures Gap(179, 181) && Gap(181, 191)
    ensures Gap(191, 193) && Gap(193, 197)
    ensures Gap(197, 199) && Gap(199, 211)
    ensures Gap(211, 223) && Gap(223, 227)
  {}

  lemma Gaps6()
    ensures Gap(227, 229) && Gap(229, 233)
    ensures Gap(233, 239) && Gap(239, 241)
    ensures Gap(241, 251) && Gap(251, 257)
    ensures Gap(257, 263) && Gap(263, 269)
  {}

  lemma Gaps7()
    ensures Gap(269, 271) && Gap(271, 277)
    ensures Gap(277, 281) && Gap(281, 283)
    ensures Gap(283, 293) && Gap(293, 307)
    ensures Gap(307, 311) && Gap(311, 313)
  {}

  lemma Gaps8()
    ensures Gap(313, 317) && Gap(317, 331)
    ensures Gap(331, 337) && Gap(337, 347)
    ensures Gap(347, 349) && Gap(349, 353)
    ensures Gap(353, 359) && Gap(359, 367)
  {}

  lemma Gaps9()
    ensures Gap(367, 373) && Gap(373, 379)
    ensures Gap(379, 383) && Gap(383, 389)
    ensures Gap(389, 397) && Gap(397, 401)
    ensures Gap(401, 409) && Gap(409, 410)
  {}

  /** The next prime; after the last listed one, a bound below which there is none. */
  function After(t: nat): nat
    requires t < 80
  {
    if t < 79 then Prime(t + 1) else 410
  }

  /** The gaps after the primes of a row, `next` being the one after it. */
  predicate GapsInRow(row: seq<nat>, next: nat)
    requires |row| == 8
  {
    forall j | 0 <= j < 8 ::
      var q := if j < 7 then row[j + 1] else next;
      Gap(row[j], q) && row[j] < q
  }

  lemma GapsInRow0()
    ensures GapsInRow(PRIMES_0, PRIMES_1[0])
  {
    hide Gap;
    Gaps0();
  }

  lemma GapsInRow1()
    ensures GapsInRow(PRIMES_1, PRIMES_2[0])
  {
    hide Gap;
    Gaps1();
  }

  lemma GapsInRow2()
    ensures GapsInRow(PRIMES_2, PRIMES_3[0])
  {
    hide Gap;
    Gaps2();
  }

  lemma GapsInRow3()
    ensures GapsInRow(PRIMES_3, PRIMES_4[0])
  {
    hide Gap;
    Gaps3();
  }

  lemma GapsInRow4()
    ensures GapsInRow(PRIMES_4, PRIMES_5[0])
  {
    hide Gap;
    Gaps4();
  }

  lemma GapsInRow5()
    ensures GapsInRow(PRIMES_5, PRIMES_6[0])
  {
    hide Gap;
    Gaps5();
  }

  lemma GapsInRow6()
    ensures GapsInRow(PRIMES_6, PRIMES_7[0])
  {
    hide Gap;
    Gaps6();
  }

  lemma GapsInRow7()
    ensures GapsInRow(PRIMES_7, PRIMES_8[0])
  {
    hide Gap;
    Gaps7();
  }

  lemma GapsInRow8()
    ensures GapsInRow(PRIMES_8, PRIMES_9[0])
  {
    hide Gap;
    Gaps8();
  }

  lemma GapsInRow9()
    ensures GapsInRow(PRIMES_9, 410)
  {
    hide Gap;
    Gaps9();
  }

  lemma RowHasGaps(k: nat)
    requires k < 10
    ensures GapsInRow(PrimeRow(k), if k < 9 then PrimeRow(k + 1)[0] else 410)
  {
    hide GapsInRow;
    match k
    case 0 => GapsInRow0();
    case 1 => GapsInRow1();
    case 2 => GapsInRow2();
    case 3 => GapsInRow3();
    case 4 => GapsInRow4();
    case 5 => GapsInRow5();
    case 6 => GapsInRow6();
    case 7 => GapsInRow7();
    case 8 => GapsInRow8();
    case _ => GapsInRow9();
  }

  lemma GapInRow(row: seq<nat>, next: nat, j: nat)
    requires |row| == 8 && GapsInRow(row, next) && j < 8
    ensures var q := if j < 7 then row[j + 1] else next; Gap(row[j], q) && row[j] < q
  {}

  lemma GapAt(t: nat)
    requires t < 80
    ensures Gap(Prime(t), After(t)) && Prime(t) < After(t)
  {
    hide Gap, PrimeRow;
    RowHasGaps(t / 8);
    var row, next := PrimeRow(t / 8), if t / 8 < 9 then PrimeRow(t / 8 + 1)[0] else 410;
    assert Prime(t) == row[t % 8];
    GapInRow(row, next, t % 8);
    hide GapsInRow;
    if t % 8 < 7 {
      assert (t + 1) / 8 == t / 8 && (t + 1) % 8 == t % 8 + 1;
    } else if t < 79 {
      assert t / 8 < 9 && (t + 1) / 8 == t / 8 + 1 && (t + 1) % 8 == 0;
      assert Prime(t + 1) == PrimeRow(t / 8 + 1)[0];
    } else {
      assert t == 79 && t / 8 == 9;
    }
  }

  /** The listed prime up to which `n` has come. */
  lemma Placed(n: nat) returns (t: nat)
    requires 2 <= n < 410
    ensures t < 80 && Prime(t) <= n < After(t)
  {
    t := 0;
    while After(t) <= n
      invariant t < 80 && Prime(t) <= n
      decreases 80 - t
    {
      t := t + 1;
    }
  }

  lemma FactorDivides(n: nat, e: nat, r: nat, f: nat)
    requires n == e * r && f > 0 && e % f == 0
    ensures n % f == 0
  {
    var g := e / f;
    assert f * g * r == (g * r) * f;
    RemainderIs(n, f, g * r, 0);
  }

  lemma SmallDivisorFails(n: nat, e: nat, r: nat)
    requires n == e * r && 2 <= e < 23 && r >= 2
    ensures !Passes(n)
  {
    assert n >= 2 * e;
    hide Passes;
    var f := if e % 2 == 0 then 2 else if e % 3 == 0 then 3 else e;
    assert e % f == 0;
    FactorDivides(n, e, r, f);
    DividedFails(n, f);
  }

  lemma DividedFails(n: nat, f: nat)
    requires f in {2, 3, 5, 7, 11, 13, 17, 19} && n % f == 0 && n > f
    ensures !Passes(n)
  {}

  lemma OneFactorIsSmall(n: nat, d: nat, q: nat)
    requires n == d * q && 2 <= d < n < 529
    ensures q >= 2 && (d < 23 || q < 23)
  {
    Product(d, 1, q);
    Product(23, d, q);
  }

  lemma Product(a: nat, b: nat, q: nat)
    ensures q <= b ==> a * q <= a * b
    ensures a <= b ==> a * q <= b * q
    ensures q >= 23 && a == 23 ==> a * q >= 529
  {}

  lemma CompositeFails(n: nat, d: nat)
    requires 2 <= d < n < 529 && n % d == 0
    ensures !Passes(n)
  {
    hide Passes;
    var q := n / d;
    assert n == d * q;
    OneFactorIsSmall(n, d, q);
    if d < 23 {
      SmallDivisorFails(n, d, q);
    } else {
      SmallDivisorFails(n, q, d);
    }
  }

  /** Below 529 the primes are the numbers that pass. */
  lemma PrimeIff(n: nat)
    requires 2 <= n < 529
    ensures IsPrime(n) <==> Passes(n)
  {
    if IsPrime(n) {
      forall f | f in {2, 3, 5, 7, 11, 13, 17, 19}
        ensures n % f != 0 || n == f
      {
        if f > n {
          SmallModulo(n, f);
        }
      }
    } else {
      hide Passes;
      var d :| 2 <= d < n && n % d == 0;
      CompositeFails(n, d);
    }
  }

  lemma SmallModulo(n: nat, f: nat)
    requires n < f
    ensures n % f == n
  {
    RemainderIs(n, f, 0, n);
  }

  /** The list has all primes up to its last one, in their order. */
  lemma FirstPrimes(n: nat)
    requires n < 410
    ensures IsPrime(n) <==> exists t | 0 <= t < 80 :: Prime(t) == n
    ensures forall t | 0 <= t < 79 :: Prime(t) < Prime(t + 1)
  {
    hide Passes, Prime, NonePasses;
    forall t | 0 <= t < 80
      ensures Prime(t) < After(t) && IsPrime(Prime(t))
    {
      ListedIsPrime(t);
    }
    if n >= 2 {
      var t := Placed(n);
      if Prime(t) < n {
        GapAt(t);
        NonePassesIs(Prime(t) + 1, After(t), n);
        PrimeIff(n);
      }
    }
  }

  lemma ListedIsPrime(t: nat)
    requires t < 80
    ensures IsPrime(Prime(t)) && Prime(t) < After(t)
  {
    GapAt(t);
    SmallRange(t);
    hide Passes, Prime, NonePasses;
    PrimeIff(Prime(t));
  }

  lemma SmallRange(t: nat)
    requires t < 80
    ensures 2 <= Prime(t) < 410
  {}

  // ---- The constants ----

  lemma Row0Numbers()
    ensures IsCubeRoot(1116352408, 3609767458, 2, 1)
    ensures IsCubeRoot(1899447441, 602891725, 3, 1)
    ensures IsCubeRoot(3049323471, 3964484399, 5, 1)
    ensures IsCubeRoot(3921009573, 2173295548, 7, 1)
    ensures IsCubeRoot(961987163, 4081628472, 11, 2)
    ensures IsCubeRoot(1508970993, 3053834265, 13, 2)
    ensures IsCubeRoot(2453635748, 2937671579, 17, 2)
    ensures IsCubeRoot(2870763221, 3664609560, 19, 2)
  {}

  lemma Row1Numbers()
    ensures IsCubeRoot(3624381080, 2734883394, 23, 2)
    ensures IsCubeRoot(310598401, 1164996542, 29, 3)
    ensures IsCubeRoot(607225278, 1323610764, 31, 3)
    ensures IsCubeRoot(1426881987, 3590304994, 37, 3)
    ensures IsCubeRoot(1925078388, 4068182383, 41, 3)
    ensures IsCubeRoot(2162078206, 991336113, 43, 3)
    ensures IsCubeRoot(2614888103, 633803317, 47, 3)
    ensures IsCubeRoot(3248222580, 3479774868, 53, 3)
  {}

  lemma Row2Numbers()
    ensures IsCubeRoot(3835390401, 2666613458, 59, 3)
    ensures IsCubeRoot(4022224774, 944711139, 61, 3)
    ensures IsCubeRoot(264347078, 2341262773, 67, 4)
    ensures IsCubeRoot(604807628, 2007800933, 71, 4)
    ensures IsCubeRoot(770255983, 1495990901, 73, 4)
    ensures IsCubeRoot(1249150122, 1856431235, 79, 4)
    ensures IsCubeRoot(1555081692, 3175218132, 83, 4)
    ensures IsCubeRoot(1996064986, 2198950837, 89, 4)
  {}

  lemma Row3Numbers()
    ensures IsCubeRoot(2554220882, 3999719339, 97, 4)
    ensures IsCubeRoot(2821834349, 766784016, 101, 4)
    ensures IsCubeRoot(2952996808, 2566594879, 103, 4)
    ensures IsCubeRoot(3210313671, 3203337956, 107, 4)
    ensures IsCubeRoot(3336571891, 1034457026, 109, 4)
    ensures IsCubeRoot(3584528711, 2466948901, 113, 4)
    ensures IsCubeRoot(113926993, 3758326383, 127, 5)
    ensures IsCubeRoot(338241895, 168717936, 131, 5)
  {}

  lemma Row4Numbers()
    ensures IsCubeRoot(666307205, 1188179964, 137, 5)
    ensures IsCubeRoot(773529912, 1546045734, 139, 5)
    ensures IsCubeRoot(1294757372, 1522805485, 149, 5)
    ensures IsCubeRoot(1396182291, 2643833823, 151, 5)
    ensures IsCubeRoot(1695183700, 2343527390, 157, 5)
    ensures IsCubeRoot(1986661051, 1014477480, 163, 5)
    ensures IsCubeRoot(2177026350, 1206759142, 167, 5)
    ensures IsCubeRoot(2456956037, 344077627, 173, 5)
  {}

  lemma Row5Numbers()
    ensures IsCubeRoot(2730485921, 1290863460, 179, 5)
    ensures IsCubeRoot(2820302411, 3158454273, 181, 5)
    ensures IsCubeRoot(3259730800, 3505952657, 191, 5)
    ensures IsCubeRoot(3345764771, 106217008, 193, 5)
    ensures IsCubeRoot(3516065817, 3606008344, 197, 5)
    ensures IsCubeRoot(3600352804, 1432725776, 199, 5)
    ensures IsCubeRoot(4094571909, 1467031594, 211, 5)
    ensures IsCubeRoot(275423344, 851169720, 223, 6)
  {}

  lemma Row6Numbers()
    ensures IsCubeRoot(430227734, 3100823752, 227, 6)
    ensures IsCubeRoot(506948616, 1363258195, 229, 6)
    ensures IsCubeRoot(659060556, 3750685593, 233, 6)
    ensures IsCubeRoot(883997877, 3785050280, 239, 6)
    ensures IsCubeRoot(958139571, 3318307427, 241, 6)
    ensures IsCubeRoot(1322822218, 3812723403, 251, 6)
    ensures IsCubeRoot(1537002063, 2003034995, 257, 6)
    ensures IsCubeRoot(1747873779, 3602036899, 263, 6)
  {}

  lemma Row7Numbers()
    ensures IsCubeRoot(1955562222, 1575990012, 269, 6)
    ensures IsCubeRoot(2024104815, 1125592928, 271, 6)
    ensures IsCubeRoot(2227730452, 2716904306, 277, 6)
    ensures IsCubeRoot(2361852424, 442776044, 281, 6)
    ensures IsCubeRoot(2428436474, 593698344, 283, 6)
    ensures IsCubeRoot(2756734187, 3733110249, 293, 6)
    ensures IsCubeRoot(3204031479, 2999351573, 307, 6)
    ensures IsCubeRoot(3329325298, 3815920427, 311, 6)
  {}

  lemma Row8Numbers()
    ensures IsCubeRoot(3391569614, 3928383900, 313, 6)
    ensures IsCubeRoot(3515267271, 566280711, 317, 6)
    ensures IsCubeRoot(3940187606, 3454069534, 331, 6)
    ensures IsCubeRoot(4118630271, 4000239992, 337, 6)
    ensures IsCubeRoot(116418474, 1914138554, 347, 7)
    ensures IsCubeRoot(174292421, 2731055270, 349, 7)
    ensures IsCubeRoot(289380356, 3203993006, 353, 7)
    ensures IsCubeRoot(460393269, 320620315, 359, 7)
  {}

  lemma Row9Numbers()
    ensures IsCubeRoot(685471733, 587496836, 367, 7)
    ensures IsCubeRoot(852142971, 1086792851, 373, 7)
    ensures IsCubeRoot(1017036298, 365543100, 379, 7)
    ensures IsCubeRoot(1126000580, 2618297676, 383, 7)
    ensures IsCubeRoot(1288033470, 3409855158, 389, 7)
    ensures IsCubeRoot(1501505948, 4234509866, 397, 7)
    ensures IsCubeRoot(1607167915, 987167468, 401, 7)
    ensures IsCubeRoot(1816402316, 1246189591, 409, 7)
  {}

  lemma InitialRowNumbers()
    ensures IsSquareRoot(1779033703, 4089235720, 2, 1)
    ensures IsSquareRoot(3144134277, 2227873595, 3, 1)
    ensures IsSquareRoot(1013904242, 4271175723, 5, 2)
    ensures IsSquareRoot(2773480762, 1595750129, 7, 2)
    ensures IsSquareRoot(1359893119, 2917565137, 11, 3)
    ensures IsSquareRoot(2600822924, 725511199, 13, 3)
    ensures IsSquareRoot(528734635, 4215389547, 17, 4)
    ensures IsSquareRoot(1541459225, 327033209, 19, 4)
  {}

  /** The constants of a row, eight at a time. */
  ghost predicate OfCubeRoots(row: seq<UInt32>, primes: seq<nat>)
    requires |row| == 16 && |primes| == 8
  {
    forall j | 0 <= j < 8 :: OfCubeRoot(row[2 * j], row[2 * j + 1], primes[j])
  }

  lemma Row0()
    ensures OfCubeRoots(ROUND_0, PRIMES_0)
  {
    hide IsCubeRoot;
    Row0Numbers();
  }

  lemma Row1()
    ensures OfCubeRoots(ROUND_1, PRIMES_1)
  {
    hide IsCubeRoot;
    Row1Numbers();
  }

  lemma Row2()
    ensures OfCubeRoots(ROUND_2, PRIMES_2)
  {
    hide IsCubeRoot;
    Row2Numbers();
  }

  lemma Row3()
    ensures OfCubeRoots(ROUND_3, PRIMES_3)
  {
    hide IsCubeRoot;
    Row3Numbers();
  }

  lemma Row4()
    ensures OfCubeRoots(ROUND_4, PRIMES_4)
  {
    hide IsCubeRoot;
    Row4Numbers();
  }

  lemma Row5()
    ensures OfCubeRoots(ROUND_5, PRIMES_5)
  {
    hide IsCubeRoot;
    Row5Numbers();
  }

  lemma Row6()
    ensures OfCubeRoots(ROUND_6, PRIMES_6)
  {
    hide IsCubeRoot;
    Row6Numbers();
  }

  lemma Row7()
    ensures OfCubeRoots(ROUND_7, PRIMES_7)
  {
    hide IsCubeRoot;
    Row7Numbers();
  }

  lemma Row8()
    ensures OfCubeRoots(ROUND_8, PRIMES_8)
  {
    hide IsCubeRoot;
    Row8Numbers();
  }

  lemma Row9()
    ensures OfCubeRoots(ROUND_9, PRIMES_9)
  {
    hide IsCubeRoot;
    Row9Numbers();
  }

  lemma RowOfRoots(k: nat)
    requires k < 10
    ensures OfCubeRoots(RoundRow(k), PrimeRow(k))
  {
    hide OfCubeRoots;
    match k
    case 0 => Row0();
    case 1 => Row1();
    case 2 => Row2();
    case 3 => Row3();
    case 4 => Row4();
    case 5 => Row5();
    case 6 => Row6();
    case 7 => Row7();
    case 8 => Row8();
    case _ => Row9();
  }

  lemma InitialRow(t: nat)
    requires t < 8
    ensures OfSquareRoot(INITIAL_VALUE[2 * t], INITIAL_VALUE[2 * t + 1], Prime(t))
  {
    hide IsSquareRoot;
    InitialRowNumbers();
    assert Prime(t) == PRIMES_0[t];
  }

  /**
    The constants are those of the standard: round constant `t` is of the cube root of prime `t`, and word
    `t` of the initial hash value of its square root.
  */
  lemma ConstantsAreStandard(t: nat)
    requires t < 80
    ensures OfCubeRoot(ROUND_CONSTANTS[2 * t], ROUND_CONSTANTS[2 * t + 1], Prime(t))
    ensures t < 8 ==> OfSquareRoot(INITIAL_VALUE[2 * t], INITIAL_VALUE[2 * t + 1], Prime(t))
  {
    hide OfCubeRoot, OfSquareRoot, PrimeRow, RoundRow, Rows;
    RowOfRoots(t / 8);
    RowsAt(10, 2 * t);
    RowsAt(10, 2 * t + 1);
    assert 2 * t / 16 == (2 * t + 1) / 16 == t / 8;
    assert 2 * t % 16 == 2 * (t % 8) && (2 * t + 1) % 16 == 2 * (t % 8) + 1;
    if t < 8 {
      InitialRow(t);
    }
  }
}
