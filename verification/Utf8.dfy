/** The buffer's UTF-8 codec between UTF-16 code units and bytes. */
module Utf8 {
  import opened Bytes
  import opened CodeUnits
  import opened Options

  type Scalar = c: nat | c < 0xD800 || 0xE000 <= c < 0x11_0000

  const REPLACEMENT: Scalar := 0xFFFD

  // ---- UTF-16 ----

  function UnitsOf(c: Scalar): (r: Text)
    ensures r != []
  {
    if c < 0x1_0000 then [c] else [0xD800 + (c - 0x1_0000) / 1024, 0xDC00 + (c - 0x1_0000) % 1024]
  }

  function AllUnits(cs: seq<Scalar>): Text {
    if cs == [] then [] else UnitsOf(cs[0]) + AllUnits(cs[1..])
  }

  /** The characters of a text: a surrogate without its partner counts as U+FFFD. */
  function Scalars(s: Text): seq<Scalar>
    decreases |s|
  {
    if s == [] then []
    else if IsHigh(s[0]) && |s| > 1 && IsLow(s[1]) then
      [Combined(s[0], s[1])] + Scalars(s[2..])
    else [if IsHigh(s[0]) || IsLow(s[0]) then REPLACEMENT else s[0]] + Scalars(s[1..])
  }

  predicate WellFormed(s: Text)
    decreases |s|
  {
    s == [] ||
    if IsHigh(s[0]) then |s| > 1 && IsLow(s[1]) && WellFormed(s[2..])
    else !IsLow(s[0]) && WellFormed(s[1..])
  }

  lemma {:induction false} WellFormedUnits(s: Text)
    requires WellFormed(s)
    ensures AllUnits(Scalars(s)) == s
    decreases |s|
  {
    if s != [] {
      if IsHigh(s[0]) {
        WellFormedUnits(s[2..]);
        PairOfUnits(s[0], s[1]);
        assert s == [s[0], s[1]] + s[2..];
      } else {
        WellFormedUnits(s[1..]);
        assert s == [s[0]] + s[1..];
      }
      assert AllUnits(Scalars(s)) == UnitsOf(Scalars(s)[0]) + AllUnits(Scalars(s)[1..]);
    }
  }

  lemma PairOfUnits(high: CodeUnit, low: CodeUnit)
    requires IsHigh(high) && IsLow(low)
    ensures UnitsOf(Combined(high, low)) == [high, low]
  {}

  lemma {:induction false} ScalarsOfUnits(cs: seq<Scalar>)
    ensures WellFormed(AllUnits(cs)) && Scalars(AllUnits(cs)) == cs
  {
    if cs != [] {
      ScalarsOfUnits(cs[1..]);
      var s, rest := AllUnits(cs), AllUnits(cs[1..]);
      if cs[0] < 0x1_0000 {
        assert s == [cs[0]] + rest && s[1..] == rest;
      } else {
        assert UnitsOf(cs[0])[0] == s[0] && UnitsOf(cs[0])[1] == s[1] && s[2..] == rest;
      }
    }
  }

  // ---- Section 3 of RFC 3629 ----

  function EncodePoint(c: Scalar): (r: seq<Byte>)
    ensures r != []
  {
    if c < 0x80 then [c]
    else if c < 0x800 then [c / 64 + 192, c % 64 + 128]
    else if c < 0x1_0000 then [c / 4096 + 224, c / 64 % 64 + 128, c % 64 + 128]
    else [c / 0x4_0000 + 240, c / 4096 % 64 + 128, c / 64 % 64 + 128, c % 64 + 128]
  }

  function EncodeAll(cs: seq<Scalar>): seq<Byte> {
    if cs == [] then [] else EncodePoint(cs[0]) + EncodeAll(cs[1..])
  }

  // ---- The encoder ----

  /** The characters the encoder's loop still encodes, with a high surrogate that waits for its partner. */
  function Emitted(lead: Option<CodeUnit>, rest: Text): seq<Scalar>
    requires lead.Some? ==> IsHigh(lead.value)
    decreases |rest|
  {
    if rest == [] then []
    else
      var u, tail := rest[0], rest[1..];
      if IsLow(u) then
        [if lead.Some? then Combined(lead.value, u) else REPLACEMENT] + Emitted(None, tail)
      else if IsHigh(u) then
        if lead.Some? then [REPLACEMENT] + Emitted(Some(u), tail)
        else if tail == [] then [REPLACEMENT]
        else Emitted(Some(u), tail)
      else (if lead.Some? then [REPLACEMENT, u] else [u]) + Emitted(None, tail)
  }

  /** What is left of a limit on the number of bytes, if there is one; a negative rest stays negative. */
  function Spent(left: Option<int>, c: Scalar): Option<int> {
    if left.None? then None else Some(left.value - |EncodePoint(c)|)
  }

  predicate Room(left: Option<int>) {
    left.Some? ==> left.value >= 0
  }

  /** The encodings of the characters up to the first that has no room. */
  function Within(cs: seq<Scalar>, left: Option<int>): seq<Byte> {
    if cs == [] || !Room(Spent(left, cs[0])) then []
    else EncodePoint(cs[0]) + Within(cs[1..], Spent(left, cs[0]))
  }

  /** Without a limit all characters are encoded, and under one the most that fit, never a part of one. */
  lemma {:induction false} LimitKeepsMost(cs: seq<Scalar>, limit: nat) returns (k: nat)
    ensures Within(cs, None) == EncodeAll(cs)
    ensures k <= |cs| && Within(cs, Some(limit)) == EncodeAll(cs[..k]) && |EncodeAll(cs[..k])| <= limit
    ensures k < |cs| ==> |EncodeAll(cs[..k + 1])| > limit
  {
    hide EncodePoint;
    k := 0;
    if cs != [] {
      var c := cs[0];
      var rest := LimitKeepsMost(cs[1..], if Room(Spent(Some(limit), c)) then limit - |EncodePoint(c)| else 0);
      if Room(Spent(Some(limit), c)) {
        k := rest + 1;
        assert cs[..k][1..] == cs[1..][..rest];
        assert k < |cs| ==> cs[..k + 1][1..] == cs[1..][..rest + 1];
      } else {
        assert cs[..1][1..] == [];
      }
    }
  }

  /** `utf8ToBytes`: at most `limit` bytes, where zero is no limit. */
  method Utf8ToBytes(s: Text, limit: nat) returns (bytes: seq<Byte>)
    ensures bytes == Within(Emitted(None, s), if limit == 0 then None else Some(limit))
  {
    hide Emitted, Within, EncodePoint, Spent, Room;
    bytes := [];
    var left := if limit == 0 then None else Some(limit);
    var lead: Option<CodeUnit> := None;
    ghost var all := Within(Emitted(None, s), left);
    assert s[0..] == s;
    var a := 0;
    while a < |s|
      invariant 0 <= a <= |s| && (lead.Some? ==> IsHigh(lead.value))
      invariant bytes + Within(Emitted(lead, s[a..]), left) == all
    {
      var r: nat := s[a];
      NextUnit(lead, s[a..]);
      assert s[a..][0] == r && s[a..][1..] == s[a + 1..];
      a := a + 1;
      ghost var tail := s[a..];
      if IsHigh(r) || IsLow(r) {
        if lead.None? {
          if IsLow(r) || a == |s| {
            bytes, left := Emit(bytes, left, REPLACEMENT, Emitted(None, tail));
            continue;
          }
          lead := Some(r);
          continue;
        }
        if IsHigh(r) {
          bytes, left := Emit(bytes, left, REPLACEMENT, Emitted(Some(r), tail));
          lead := Some(r);
          continue;
        }
        r := Combined(lead.value, r);
      } else if lead.Some? {
        bytes, left := Emit(bytes, left, REPLACEMENT, [r] + Emitted(None, tail));
      }
      lead := None;
      bytes, left := Emit(bytes, left, r, Emitted(None, tail));
      if !Room(left) {
        break;
      }
    }
    if Room(left) {
      assert s[a..] == [];
      NothingEncoded(lead, left);
    } else {
      NoRoom(Emitted(lead, s[a..]), left);
    }
  }

  /** The character is subtracted from the limit first, and written if that leaves room. */
  method Emit(bytes: seq<Byte>, left: Option<int>, c: Scalar, ghost rest: seq<Scalar>)
    returns (more: seq<Byte>, left': Option<int>)
    ensures left' == Spent(left, c) && more == if Room(left') then bytes + EncodePoint(c) else bytes
    ensures more + Within(rest, left') == bytes + Within([c] + rest, left)
  {
    hide EncodePoint;
    assert ([c] + rest)[1..] == rest;
    left' := Spent(left, c);
    more := if Room(left') then bytes + EncodePoint(c) else bytes;
  }

  lemma NoRoom(cs: seq<Scalar>, left: Option<int>)
    requires !Room(left)
    ensures Within(cs, left) == []
  {}

  lemma NothingEncoded(lead: Option<CodeUnit>, left: Option<int>)
    requires lead.Some? ==> IsHigh(lead.value)
    ensures Within(Emitted(lead, []), left) == []
  {}

  /** One turn of the loop. */
  lemma NextUnit(lead: Option<CodeUnit>, rest: Text)
    requires rest != [] && (lead.Some? ==> IsHigh(lead.value))
    ensures var u, tail := rest[0], rest[1..];
            Emitted(lead, rest) ==
            if IsLow(u) then [if lead.Some? then Combined(lead.value, u) else REPLACEMENT] + Emitted(None, tail)
            else if IsHigh(u) then
              if lead.Some? then [REPLACEMENT] + Emitted(Some(u), tail)
              else if tail == [] then [REPLACEMENT] + Emitted(None, tail)
              else Emitted(Some(u), tail)
            else if lead.Some? then [REPLACEMENT] + ([u] + Emitted(None, tail))
            else [u] + Emitted(None, tail)
  {}

  /** The text ends in two high surrogates. */
  predicate EndsInTwoHighs(s: Text) {
    |s| >= 2 && IsHigh(s[|s| - 1]) && IsHigh(s[|s| - 2])
  }

  /** What the loop leaves out: a high surrogate that still waits when the text is over. */
  function LeftOut(missing: bool): seq<Scalar> {
    if missing then [REPLACEMENT] else []
  }

  lemma {:induction false} EmittedFrom(s: Text)
    ensures Scalars(s) == Emitted(None, s) + LeftOut(EndsInTwoHighs(s))
    decreases |s|
  {
    hide Scalars, Emitted, Combined, LeftOut;
    FirstOfScalars(s);
    if s == [] {
      NothingEmitted(None);
      NothingLeftOut();
    } else {
      var u, tail := s[0], s[1..];
      NextUnit(None, s);
      if IsHigh(u) && tail != [] {
        EmittedAfter(u, tail);
        assert [u] + tail == s;
      } else {
        EmittedFrom(tail);
      }
    }
  }

  /** The same with a high surrogate in front that waits. */
  lemma {:induction false} EmittedAfter(lead: CodeUnit, rest: Text)
    requires IsHigh(lead)
    ensures Scalars([lead] + rest) == Emitted(Some(lead), rest) + LeftOut(rest == [] || EndsInTwoHighs([lead] + rest))
    decreases |rest|
  {
    hide Scalars, Emitted, Combined;
    var s := [lead] + rest;
    FirstOfScalars(s);
    assert s[0] == lead && s[1..] == rest;
    if rest == [] {
      NothingEmitted(Some(lead));
      FirstOfScalars([]);
    } else {
      hide LeftOut;
      var u, tail := rest[0], rest[1..];
      assert s[1] == u && s[2..] == tail;
      NextUnit(Some(lead), rest);
      hide EndsInTwoHighs;
      EndsOfTail(s);
      var left := LeftOut(EndsInTwoHighs(s));
      if IsHigh(u) {
        EmittedAfter(u, tail);
        assert [u] + tail == rest && left == LeftOut(tail == [] || EndsInTwoHighs(rest));
        InFront(REPLACEMENT, Emitted(Some(u), tail), left);
      } else {
        EmittedFrom(tail);
        assert left == LeftOut(EndsInTwoHighs(tail));
        if IsLow(u) {
          InFront(Combined(lead, u), Emitted(None, tail), left);
        } else {
          FirstOfScalars(rest);
          InFront(u, Emitted(None, tail), left);
          InFront(REPLACEMENT, [u] + Emitted(None, tail), left);
        }
      }
    }
  }

  lemma EndsOfTail(s: Text)
    requires |s| >= 2 && IsHigh(s[0])
    ensures IsHigh(s[1]) ==> (EndsInTwoHighs(s) <==> |s| == 2 || EndsInTwoHighs(s[1..]))
    ensures !IsHigh(s[1]) ==> (EndsInTwoHighs(s) <==> EndsInTwoHighs(s[2..]))
  {}

  lemma InFront(c: Scalar, cs: seq<Scalar>, left: seq<Scalar>)
    ensures [c] + cs + left == [c] + (cs + left)
  {}

  lemma NothingLeftOut()
    ensures LeftOut(false) == []
  {}

  lemma FirstOfScalars(s: Text)
    ensures Scalars(s) ==
            if s == [] then []
            else if IsHigh(s[0]) && |s| > 1 && IsLow(s[1]) then [Combined(s[0], s[1])] + Scalars(s[2..])
            else [if IsHigh(s[0]) || IsLow(s[0]) then REPLACEMENT else s[0]] + Scalars(s[1..])
  {}

  lemma NothingEmitted(lead: Option<CodeUnit>)
    requires lead.Some? ==> IsHigh(lead.value)
    ensures Emitted(lead, []) == []
  {}

  /**
    The encoder encodes the characters of the text, a lone surrogate as U+FFFD, if and only if the text
    does not end in two high surrogates: the last of them is then dropped.
  */
  lemma EncodesAllIff(s: Text)
    ensures Emitted(None, s) == Scalars(s) <==> !EndsInTwoHighs(s)
  {
    EmittedFrom(s);
  }

  // ---- The decoder ----

  /** How many bytes the first byte announces. */
  function SizeOf(b: Byte): nat {
    if b > 239 then 4 else if b > 223 then 3 else if b > 191 then 2 else 1
  }

  predicate IsTail(b: Byte) {
    b / 64 == 2
  }

  /** The code point the decoder finds in the bytes of one sequence, if it accepts them. */
  function Accepted(b: seq<Byte>): (c: Option<Scalar>)
    requires b != [] && |b| == SizeOf(b[0])
  {
    if |b| == 1 then if b[0] < 128 then Some(b[0]) else None
    else if !(forall k | 1 <= k < |b| :: IsTail(b[k])) then None
    else if |b| == 2 then
      var u := TwoBytes(b[0] % 32, b[1] % 64);
      if u > 127 then Some(u) else None
    else if |b| == 3 then
      var u := TwoBytes(TwoBytes(b[0] % 16, b[1] % 64), b[2] % 64);
      if u > 2047 && (u < 55296 || u > 57343) then Some(u) else None
    else
      var u := TwoBytes(TwoBytes(TwoBytes(b[0] % 16, b[1] % 64), b[2] % 64), b[3] % 64);
      if u > 65535 && u < 1114112 then Some(u) else None
  }

  function TwoBytes(high: nat, low: nat): nat {
    high * 64 + low
  }

  /** The sequence that starts the bytes, and U+FFFD for one byte where none does. */
  function FirstScalar(b: seq<Byte>): (r: (Scalar, nat))
    requires b != []
    ensures 0 < r.1 <= |b|
  {
    var size := SizeOf(b[0]);
    if size > |b| then (REPLACEMENT, 1)
    else
      var c := Accepted(b[..size]);
      if c.None? then (REPLACEMENT, 1) else (c.value, size)
  }

  function DecodeAll(b: seq<Byte>): seq<Scalar>
    decreases |b|
  {
    if b == [] then []
    else
      var (c, size) := FirstScalar(b);
      [c] + DecodeAll(b[size..])
  }

  predicate Between(low: nat, x: nat, high: nat) {
    low <= x <= high
  }

  /** Section 4 of RFC 3629: the byte sequences of one character. */
  predicate IsSequence(b: seq<Byte>) {
    if |b| == 1 then b[0] <= 0x7F
    else if |b| == 2 then Between(0xC2, b[0], 0xDF) && Between(0x80, b[1], 0xBF)
    else if |b| == 3 then
      (|| (b[0] == 0xE0 && Between(0xA0, b[1], 0xBF))
       || (Between(0xE1, b[0], 0xEC) && Between(0x80, b[1], 0xBF))
       || (b[0] == 0xED && Between(0x80, b[1], 0x9F))
       || (Between(0xEE, b[0], 0xEF) && Between(0x80, b[1], 0xBF))) &&
      Between(0x80, b[2], 0xBF)
    else if |b| == 4 then
      (|| (b[0] == 0xF0 && Between(0x90, b[1], 0xBF))
       || (Between(0xF1, b[0], 0xF3) && Between(0x80, b[1], 0xBF))
       || (b[0] == 0xF4 && Between(0x80, b[1], 0x8F))) &&
      Between(0x80, b[2], 0xBF) && Between(0x80, b[3], 0xBF)
    else false
  }

  /** The decoder accepts exactly the byte sequences of the standard's grammar. */
  lemma AcceptsExactly(b: seq<Byte>)
    requires b != [] && |b| == SizeOf(b[0])
    ensures Accepted(b).Some? <==> IsSequence(b)
  {
    if |b| == 2 {
      assert IsTail(b[1]) <==> 0x80 <= b[1] <= 0xBF;
    } else if |b| == 3 {
      assert forall k | 1 <= k < 3 :: IsTail(b[k]) <==> 0x80 <= b[k] <= 0xBF;
    } else if |b| == 4 {
      assert forall k | 1 <= k < 4 :: IsTail(b[k]) <==> 0x80 <= b[k] <= 0xBF;
    }
  }

  lemma SixBits(high: nat, low: nat)
    requires low < 64
    ensures TwoBytes(high, low) / 64 == high && TwoBytes(high, low) % 64 == low
  {}

  lemma Nested(u: nat)
    ensures u / 4096 == u / 64 / 64 && u / 0x4_0000 == u / 64 / 64 / 64
  {
    var q, r := u / 64 / 64, u / 64 % 64;
    RemainderIs(u, 4096, q, 64 * r + u % 64);
    RemainderIs(u, 0x4_0000, q / 64, 4096 * (q % 64) + 64 * r + u % 64);
  }

  lemma TailBits(b: Byte)
    requires IsTail(b)
    ensures b % 64 + 128 == b
  {}

  lemma TwoAreEncoded(b: seq<Byte>)
    requires |b| == 2 == SizeOf(b[0]) && Accepted(b).Some?
    ensures EncodePoint(Accepted(b).value) == b
  {
    assert IsTail(b[1]);
    TailBits(b[1]);
    SixBits(b[0] % 32, b[1] % 64);
  }

  lemma ThreeAreEncoded(b: seq<Byte>)
    requires |b| == 3 == SizeOf(b[0]) && Accepted(b).Some?
    ensures EncodePoint(Accepted(b).value) == b
  {
    hide IsTail, TwoBytes;
    var w, x, y := b[0] % 16, b[1] % 64, b[2] % 64;
    var c := TwoBytes(TwoBytes(w, x), y);
    assert IsTail(b[1]) && IsTail(b[2]) && Accepted(b) == Some(c) && c > 2047;
    RemainderIs(b[0], 16, 14, b[0] - 224);
    hide Accepted, SizeOf;
    TailBits(b[1]);
    TailBits(b[2]);
    Accepted3(w, x, y);
    assert c < 0x1_0000 && b == [w + 224, x + 128, y + 128];
  }

  lemma FirstOfFour(w: nat, x: nat, y: nat, z: nat)
    requires TwoBytes(TwoBytes(TwoBytes(w, x), y), z) < 1114112
    ensures w < 8
  {}

  lemma FourAreEncoded(b: seq<Byte>)
    requires |b| == 4 == SizeOf(b[0]) && Accepted(b).Some?
    ensures EncodePoint(Accepted(b).value) == b
  {
    hide IsTail, TwoBytes;
    var w, x, y, z := b[0] % 16, b[1] % 64, b[2] % 64, b[3] % 64;
    var c := TwoBytes(TwoBytes(TwoBytes(w, x), y), z);
    assert IsTail(b[1]) && IsTail(b[2]) && IsTail(b[3]) && Accepted(b) == Some(c) && 65535 < c < 1114112;
    FirstOfFour(w, x, y, z);
    RemainderIs(b[0], 16, 15, b[0] - 240);
    hide Accepted, SizeOf;
    TailBits(b[1]);
    TailBits(b[2]);
    TailBits(b[3]);
    Accepted4(w, x, y, z);
    assert b == [w + 240, x + 128, y + 128, z + 128];
  }

  /** What the decoder accepts is the encoding of what it returns. */
  lemma AcceptedIsEncoded(b: seq<Byte>)
    requires b != [] && |b| == SizeOf(b[0]) && Accepted(b).Some?
    ensures EncodePoint(Accepted(b).value) == b
  {
    if |b| == 2 {
      TwoAreEncoded(b);
    } else if |b| == 3 {
      ThreeAreEncoded(b);
    } else if |b| == 4 {
      FourAreEncoded(b);
    }
  }

  lemma Accepted3(w: nat, x: nat, y: nat)
    requires w < 16 && x < 64 && y < 64
    ensures var u := TwoBytes(TwoBytes(w, x), y); u / 4096 == w && u / 64 % 64 == x && u % 64 == y
  {
    SixBits(TwoBytes(w, x), y);
    SixBits(w, x);
    Nested(TwoBytes(TwoBytes(w, x), y));
  }

  lemma Accepted4(w: nat, x: nat, y: nat, z: nat)
    requires w < 16 && x < 64 && y < 64 && z < 64
    ensures var u := TwoBytes(TwoBytes(TwoBytes(w, x), y), z);
            u / 0x4_0000 == w && u / 4096 % 64 == x && u / 64 % 64 == y && u % 64 == z
  {
    SixBits(TwoBytes(TwoBytes(w, x), y), z);
    SixBits(TwoBytes(w, x), y);
    SixBits(w, x);
    Nested(TwoBytes(TwoBytes(TwoBytes(w, x), y), z));
  }

  lemma EncodedIsAccepted(c: Scalar)
    ensures var b := EncodePoint(c); |b| == SizeOf(b[0]) && Accepted(b) == Some(c)
  {
    var b := EncodePoint(c);
    if 0x80 <= c < 0x800 {
      hide Accepted, SizeOf;
      AcceptTwo(c / 64, c % 64, b);
    } else if 0x800 <= c < 0x1_0000 {
      hide Accepted, SizeOf;
      Nested(c);
      AcceptThree(c / 64 / 64, c / 64 % 64, c % 64, b);
    } else if 0x1_0000 <= c {
      hide Accepted, SizeOf;
      Nested(c);
      AcceptFour(c / 64 / 64 / 64, c / 64 / 64 % 64, c / 64 % 64, c % 64, b);
    }
  }

  lemma TailOf(x: nat)
    requires x < 64
    ensures IsTail(x + 128) && (x + 128) % 64 == x
  {}

  lemma AcceptTwo(w: nat, x: nat, b: seq<Byte>)
    requires w < 32 && x < 64 && TwoBytes(w, x) > 127 && b == [w + 192, x + 128]
    ensures SizeOf(b[0]) == 2 && Accepted(b) == Some(TwoBytes(w, x))
  {
    hide IsTail, TwoBytes;
    TailOf(x);
    RemainderIs(w + 192, 32, 6, w);
    assert forall k | 1 <= k < 2 :: IsTail(b[k]);
  }

  lemma AcceptThree(w: nat, x: nat, y: nat, b: seq<Byte>)
    requires w < 16 && x < 64 && y < 64 && b == [w + 224, x + 128, y + 128]
    requires var u := TwoBytes(TwoBytes(w, x), y); u > 2047 && (u < 55296 || u > 57343)
    ensures SizeOf(b[0]) == 3 && Accepted(b) == Some(TwoBytes(TwoBytes(w, x), y))
  {
    hide IsTail, TwoBytes;
    TailOf(x);
    TailOf(y);
    RemainderIs(w + 224, 16, 14, w);
    assert forall k | 1 <= k < 3 :: IsTail(b[k]);
  }

  lemma AcceptFour(w: nat, x: nat, y: nat, z: nat, b: seq<Byte>)
    requires w < 16 && x < 64 && y < 64 && z < 64 && b == [w + 240, x + 128, y + 128, z + 128]
    requires 65535 < TwoBytes(TwoBytes(TwoBytes(w, x), y), z) < 1114112
    ensures SizeOf(b[0]) == 4 && Accepted(b) == Some(TwoBytes(TwoBytes(TwoBytes(w, x), y), z))
  {
    hide IsTail, TwoBytes;
    TailOf(x);
    TailOf(y);
    TailOf(z);
    RemainderIs(w + 240, 16, 15, w);
    assert forall k | 1 <= k < 4 :: IsTail(b[k]);
  }

  /** The bits of a first byte above its mark, and of the bytes after it. */
  function BitsAfter(b: seq<Byte>, mark: int): int
    requires b != []
  {
    if |b| == 1 then b[0] as int - mark else 64 * BitsAfter(b[..|b| - 1], mark) + (b[|b| - 1] as int - 0x80)
  }

  /** Section 3 of RFC 3629: how many bytes a character has, how they are marked, and that its bits follow the marks. */
  lemma StandardBits(c: Scalar)
    ensures var b := EncodePoint(c);
            && |b| == (if c <= 0x7F then 1 else if c <= 0x7FF then 2 else if c <= 0xFFFF then 3 else 4)
            && (forall k | 1 <= k < |b| :: 0x80 <= b[k] <= 0xBF)
            && (if |b| == 1 then b[0] <= 0x7F && BitsAfter(b, 0) == c
                else if |b| == 2 then 0xC0 <= b[0] <= 0xDF && BitsAfter(b, 0xC0) == c
                else if |b| == 3 then 0xE0 <= b[0] <= 0xEF && BitsAfter(b, 0xE0) == c
                else 0xF0 <= b[0] <= 0xF7 && BitsAfter(b, 0xF0) == c)
  {
    Nested(c);
    var b := EncodePoint(c);
    if |b| == 2 {
      BitsOfTwo(b, 0xC0);
    } else if |b| == 3 {
      BitsOfThree(b, 0xE0);
    } else if |b| == 4 {
      BitsOfFour(b, 0xF0);
    }
  }

  lemma BitsOfTwo(b: seq<Byte>, mark: int)
    requires |b| == 2
    ensures BitsAfter(b, mark) == 64 * (b[0] as int - mark) + (b[1] as int - 0x80)
  {}

  lemma BitsOfThree(b: seq<Byte>, mark: int)
    requires |b| == 3
    ensures BitsAfter(b, mark) == 4096 * (b[0] as int - mark) + 64 * (b[1] as int - 0x80) + (b[2] as int - 0x80)
  {
    BitsOfTwo(b[..2], mark);
  }

  lemma BitsOfFour(b: seq<Byte>, mark: int)
    requires |b| == 4
    ensures BitsAfter(b, mark) ==
            0x4_0000 * (b[0] as int - mark) + 4096 * (b[1] as int - 0x80) + 64 * (b[2] as int - 0x80) + (b[3] as int - 0x80)
  {
    BitsOfThree(b[..3], mark);
  }

  lemma {:induction false} DecodeOfEncode(cs: seq<Scalar>)
    ensures DecodeAll(EncodeAll(cs)) == cs
  {
    if cs != [] {
      var b, rest := EncodePoint(cs[0]), EncodeAll(cs[1..]);
      EncodedIsAccepted(cs[0]);
      DecodeOfEncode(cs[1..]);
      assert (b + rest)[..|b|] == b && (b + rest)[|b|..] == rest && (b + rest)[0] == b[0];
    }
  }

  lemma SequenceHasSize(b: seq<Byte>)
    requires IsSequence(b)
    ensures b != [] && |b| == SizeOf(b[0])
  {}

  /** A sequence of the grammar is decoded as the character it encodes. */
  lemma SequenceIsDecoded(b: seq<Byte>, n: nat)
    requires n <= |b| && IsSequence(b[..n])
    ensures DecodeAll(b) != [] && EncodePoint(DecodeAll(b)[0]) == b[..n] && DecodeAll(b)[1..] == DecodeAll(b[n..])
  {
    hide IsSequence, EncodePoint, SizeOf, Accepted;
    SequenceHasSize(b[..n]);
    AcceptsExactly(b[..n]);
    AcceptedIsEncoded(b[..n]);
  }

  /** Where no sequence of the grammar starts, one byte is replaced by U+FFFD. */
  lemma OtherByteIsReplaced(b: seq<Byte>)
    requires b != [] && forall n | 1 <= n <= |b| :: !IsSequence(b[..n])
    ensures DecodeAll(b) == [0xFFFD] + DecodeAll(b[1..])
  {
    hide IsSequence, Accepted;
    if SizeOf(b[0]) <= |b| {
      AcceptsExactly(b[..SizeOf(b[0])]);
    }
  }

  /** A surrogate without its partner is encoded as U+FFFD. */
  lemma LoneSurrogateIsReplaced(s: Text)
    requires s != [] && (IsLow(s[0]) || (IsHigh(s[0]) && !(|s| > 1 && IsLow(s[1]))))
    ensures EncodeAll(Scalars(s)) == [0xEF, 0xBF, 0xBD] + EncodeAll(Scalars(s[1..]))
  {
    hide Scalars;
    FirstOfScalars(s);
    ReplacementIs();
    hide EncodePoint;
    assert Scalars(s)[0] == REPLACEMENT && Scalars(s)[1..] == Scalars(s[1..]);
  }

  lemma ReplacementIs()
    ensures EncodePoint(REPLACEMENT) == [0xEF, 0xBF, 0xBD]
  {}

  /** Bytes that are characters of the standard's grammar, one after the other. */
  predicate IsUtf8(b: seq<Byte>)
    decreases |b|
  {
    b == [] || (SizeOf(b[0]) <= |b| && IsSequence(b[..SizeOf(b[0])]) && IsUtf8(b[SizeOf(b[0])..]))
  }

  /** On valid bytes nothing is replaced, and encoding undoes decoding. */
  lemma {:induction false} EncodeOfDecode(b: seq<Byte>)
    requires IsUtf8(b)
    ensures EncodeAll(DecodeAll(b)) == b
    decreases |b|
  {
    if b != [] {
      var first, rest := b[..SizeOf(b[0])], b[SizeOf(b[0])..];
      AcceptsExactly(first);
      AcceptedIsEncoded(first);
      EncodeOfDecode(rest);
      assert DecodeAll(b)[1..] == DecodeAll(rest) && first + rest == b;
    }
  }

  lemma {:induction false} EncodedIsUtf8(cs: seq<Scalar>)
    ensures IsUtf8(EncodeAll(cs))
  {
    if cs != [] {
      var b, rest := EncodePoint(cs[0]), EncodeAll(cs[1..]);
      EncodedIsAccepted(cs[0]);
      AcceptsExactly(b);
      EncodedIsUtf8(cs[1..]);
      assert (b + rest)[..|b|] == b && (b + rest)[|b|..] == rest && (b + rest)[0] == b[0];
    }
  }

  /** The sequence at `i` of a slice, as the decoder's loop finds it in the buffer. */
  lemma FirstInSlice(buf: seq<Byte>, i: nat, stop: nat)
    requires i < stop <= |buf|
    ensures var b, size := buf[i..stop], SizeOf(buf[i]);
            && b != [] && b[0] == buf[i] && size > 0
            && (size <= stop - i ==> |buf[i..i + size]| == size && buf[i..i + size][0] == buf[i])
            && (size <= stop - i ==> b[..size] == buf[i..i + size])
            && forall k | 0 <= k <= stop - i :: b[k..] == buf[i + k..stop]
  {}

  /** One turn of that loop. */
  lemma SliceTurn(buf: seq<Byte>, i: nat, stop: nat)
    requires i < stop <= |buf|
    ensures var size := SizeOf(buf[i]);
            size > 0 && (i + size <= stop ==> |buf[i..i + size]| == size == SizeOf(buf[i..i + size][0])) &&
            var o := if i + size <= stop then Accepted(buf[i..i + size]) else None;
            FirstScalar(buf[i..stop]) == if o.None? then (REPLACEMENT, 1) else (o.value, size)
  {
    hide SizeOf, Accepted;
    FirstInSlice(buf, i, stop);
  }

  /** `utf8Slice`: the code units of the decoded characters, joined as `decodeCodePointsArray` does. */
  method Utf8Slice(buf: seq<Byte>, start: nat, end: nat) returns (text: Text)
    ensures var stop := if end < |buf| then end else |buf|;
            text == if start <= stop then AllUnits(DecodeAll(buf[start..stop])) else []
  {
    hide SizeOf, Accepted, UnitsOf, AllUnits, DecodeAll, FirstScalar;
    NothingDecoded();
    var stop := if end < |buf| then end else |buf|;
    var units: Text := [];
    var i := start;
    while i < stop
      invariant start <= stop ==> start <= i <= stop
      invariant start <= stop ==> units + AllUnits(DecodeAll(buf[i..stop])) == AllUnits(DecodeAll(buf[start..stop]))
      invariant start > stop ==> i == start && units == []
    {
      var size := SizeOf(buf[i]);
      var o: Option<Scalar> := None;
      FirstInSlice(buf, i, stop);
      SliceTurn(buf, i, stop);
      if i + size <= stop {
        o := Accepted(buf[i..i + size]);
      }
      if o.None? {
        o, size := Some(REPLACEMENT), 1;
      }
      NextUnits(units, buf[i..stop]);
      units := units + UnitsOf(o.value);
      i := i + size;
    }
    assert start <= stop ==> buf[i..stop] == [];
    text := DecodeCodePointsArray(units);
  }

  lemma NothingDecoded()
    ensures AllUnits(DecodeAll([])) == []
  {}

  lemma NextUnits(units: Text, b: seq<Byte>)
    requires b != []
    ensures var (c, size) := FirstScalar(b);
            (units + UnitsOf(c)) + AllUnits(DecodeAll(b[size..])) == units + AllUnits(DecodeAll(b))
  {
    hide FirstScalar, UnitsOf, AllUnits, DecodeAll;
    var (c, size) := FirstScalar(b);
    DecodeFirst(b);
    FirstUnits(c, DecodeAll(b[size..]));
    assert units + UnitsOf(c) + AllUnits(DecodeAll(b[size..])) == units + (UnitsOf(c) + AllUnits(DecodeAll(b[size..])));
  }

  lemma DecodeFirst(b: seq<Byte>)
    requires b != []
    ensures var (c, size) := FirstScalar(b); DecodeAll(b) == [c] + DecodeAll(b[size..])
  {
    hide FirstScalar;
  }

  lemma FirstUnits(c: Scalar, rest: seq<Scalar>)
    ensures AllUnits([c] + rest) == UnitsOf(c) + AllUnits(rest)
  {
    hide UnitsOf;
    assert ([c] + rest)[1..] == rest;
  }

  const MAX_ARGUMENTS_LENGTH: nat := 4096

  /** In chunks of 4096 units, wherever a chunk may cut a surrogate pair. */
  method DecodeCodePointsArray(units: Text) returns (text: Text)
    ensures text == units
  {
    if |units| <= MAX_ARGUMENTS_LENGTH {
      return units;
    }
    text := [];
    var n := 0;
    while n < |units|
      invariant 0 <= n && text == units[..if n < |units| then n else |units|]
    {
      var m := n + MAX_ARGUMENTS_LENGTH;
      text := text + units[n..if m < |units| then m else |units|];
      n := m;
    }
  }

  // ---- The round trip ----

  /**
    Decoding the encoding of a text gives its characters back, lone surrogates as U+FFFD, except for a
    last one dropped; it gives the text itself if and only if the text is well formed.
  */
  lemma RoundTripIff(s: Text)
    ensures var back := AllUnits(DecodeAll(EncodeAll(Emitted(None, s))));
            && (!EndsInTwoHighs(s) ==> back == AllUnits(Scalars(s)))
            && (back == s <==> WellFormed(s))
  {
    var cs := Emitted(None, s);
    DecodeOfEncode(cs);
    EncodesAllIff(s);
    ScalarsOfUnits(cs);
    if WellFormed(s) {
      WellFormedEnds(s);
      WellFormedUnits(s);
    }
  }

  lemma {:induction false} WellFormedEnds(s: Text)
    requires WellFormed(s)
    ensures !EndsInTwoHighs(s)
    decreases |s|
  {
    if s != [] {
      WellFormedEnds(if IsHigh(s[0]) then s[2..] else s[1..]);
    }
  }
}
