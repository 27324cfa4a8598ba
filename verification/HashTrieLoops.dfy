/** The loops of the trie, over arrays and bit masks, each against the value it must compute. */
module HashTrieLoops {
  import opened Options
  import opened Bitmaps
  import opened HashTrie
  import opened HashTrieUpdate
  import opened ImmutableMap

  method FindEntry<K(==), V>(entries: seq<(K, V)>, key: K) returns (f: nat)
    ensures f == IndexOf(entries, key)
  {
    f := 0;
    while f < |entries| && entries[f].0 != key
      invariant f <= |entries|
      invariant f + IndexOf(entries[f..], key) == IndexOf(entries, key)
    {
      f := f + 1;
    }
  }

  /** The copy of an entry array with one entry set, appended, or replaced by the last one. */
  method CopyEntries<K(==), V>(entries: seq<(K, V)>, key: K, value: Option<V>) returns (d: seq<(K, V)>)
    requires value.Some? || IndexOf(entries, key) < |entries|
    ensures d == UpdateEntries(entries, key, value)
  {
    var f := FindEntry(entries, key);
    d := entries;
    if f < |entries| {
      if value.None? {
        var popped := d[|d| - 1];
        d := d[..|d| - 1];
        if f != |entries| - 1 {
          d := d[f := popped];
        }
      } else {
        d := d[f := (key, value.value)];
      }
    } else {
      d := d + [(key, value.value)];
    }
  }

  method SpliceIn<T>(e: seq<T>, t: nat, r: T) returns (o: seq<T>)
    requires t <= |e|
    ensures o == InsertAt(e, t, r)
  {
    var n := |e| + 1;
    var a := new T[n](_ => r);
    var shift, s := 0, 0;
    while s < n
      invariant 0 <= s <= n
      invariant shift == if s <= t then 0 else -1
      invariant a[..s] == InsertAt(e, t, r)[..s]
    {
      if s == t {
        a[s] := r;
        shift := -1;
      } else {
        a[s] := e[s + shift];
      }
      s := s + 1;
    }
    o := a[..];
  }

  method SpliceOut<T>(e: seq<T>, t: nat) returns (o: seq<T>)
    requires t < |e|
    ensures o == RemoveAt(e, t)
  {
    var n := |e| - 1;
    var a := new T[n](_ => e[t]);
    var shift, s := 0, 0;
    while s < n
      invariant 0 <= s <= n
      invariant shift == if s <= t then 0 else 1
      invariant a[..s] == RemoveAt(e, t)[..s]
    {
      if s == t {
        shift := 1;
      }
      a[s] := e[s + shift];
      s := s + 1;
    }
    o := a[..];
  }

  /** The mask holds what is left of the bitmap after its first `u` positions. */
  ghost predicate Rest(mask: bv32, bits: seq<bool>, u: nat)
    requires |bits| == 32
  {
    u <= 32 && mask <= Largest(u) && forall i: nat | u + i < 32 :: BitAt(mask, i) == bits[u + i]
  }

  lemma RestStep(mask: bv32, bits: seq<bool>, u: nat)
    requires |bits| == 32 && Rest(mask, bits, u) && mask != 0
    ensures u < 32 && (1 & mask != 0) == bits[u] && Rest(mask >> 1, bits, u + 1)
  {
    assert BitAt(mask, 0) == bits[u + 0];
    ShiftedWord(mask, u);
    var next := mask >> 1;
    forall i: nat | u + 1 + i < 32
      ensures BitAt(next, i) == bits[u + 1 + i]
    {
      assert BitAt(mask, i + 1) == bits[u + (i + 1)];
    }
  }

  function FilledSlot<K, V>(nodes: seq<Node<K, V>>, bits: seq<bool>, u: nat, i: nat): Option<Node<K, V>>
    requires i < |bits|
  {
    if i < u && bits[i] && Rank(bits, i) < |nodes| then Some(nodes[Rank(bits, i)]) else None
  }

  lemma FilledNext<K, V>(nodes: seq<Node<K, V>>, bits: seq<bool>, u: nat)
    requires |bits| == 32 && u < 32 && |nodes| == Rank(bits, 32)
    ensures Rank(bits, u + 1) == Rank(bits, u) + if bits[u] then 1 else 0
    ensures bits[u] ==> Rank(bits, u) < |nodes|
    ensures FilledSlot(nodes, bits, u + 1, u) == if bits[u] then Some(nodes[Rank(bits, u)]) else None
    ensures forall i | 0 <= i < 32 && i != u :: FilledSlot(nodes, bits, u + 1, i) == FilledSlot(nodes, bits, u, i)
  {
    if bits[u] {
      SlotInRange(bits, u);
    }
  }

  lemma FilledAtFirst<K, V>(nodes: seq<Node<K, V>>, bits: seq<bool>)
    requires |bits| == 32
    ensures Rank(bits, 0) == 0 && forall i | 0 <= i < 32 :: FilledSlot(nodes, bits, 0, i) == None
  {}

  lemma FilledAtLast<K, V>(nodes: seq<Node<K, V>>, bitmap: bv32, including: nat, n: Node<K, V>, u: nat)
    requires including < 32 && |nodes| == Rank(Bits(bitmap), 32) && forall i | u <= i < 32 :: !Bits(bitmap)[i]
    ensures forall i | 0 <= i < 32 && i != including ::
              ExpandedSlot(nodes, bitmap, including, n, i) == FilledSlot(nodes, Bits(bitmap), u, i)
  {
    forall i | 0 <= i < 32 && i != including
      ensures ExpandedSlot(nodes, bitmap, including, n, i) == FilledSlot(nodes, Bits(bitmap), u, i)
    {
      if Bits(bitmap)[i] {
        SlotInRange(Bits(bitmap), i);
      }
    }
  }

  /** The slots of `nodes` at the set bits of the mask, found by shifting it right. */
  method ExpandNodes<K, V>(nodes: seq<Node<K, V>>, bitmap: bv32, including: nat, n: Node<K, V>)
    returns (r: Node<K, V>)
    requires including < 32 && |nodes| == Rank(Bits(bitmap), 32)
    ensures r == Expand(nodes, bitmap, including, n)
  {
    var a := new Option<Node<K, V>>[32](_ => None);
    var o, u, mask := 0, 0, bitmap;
    ghost var bits := Bits(bitmap);
    FilledAtFirst(nodes, bits);
    hide FilledSlot, Rank;
    while mask != 0
      invariant Rest(mask, bits, u) && o == Rank(bits, u)
      invariant forall i | 0 <= i < 32 :: a[i] == FilledSlot(nodes, bits, u, i)
      decreases 32 - u
    {
      RestStep(mask, bits, u);
      FilledNext(nodes, bits, u);
      hide Rest;
      if 1 & mask != 0 {
        a[u] := Some(nodes[o]);
        o := o + 1;
      } else {
        a[u] := None;
      }
      u, mask := u + 1, mask >> 1;
    }
    NoneLeft(bits, u);
    a[including] := Some(n);
    FilledAtLast(nodes, bitmap, including, n, u);
    assert forall i | 0 <= i < 32 :: a[i] == ExpandedSlot(nodes, bitmap, including, n, i);
    r := HashArrayMap(o + 1, a[..]);
  }

  lemma NoneLeft(bits: seq<bool>, u: nat)
    requires |bits| == 32 && Rest(0, bits, u)
    ensures forall i | u <= i < 32 :: !bits[i]
    ensures Rank(bits, u) == Rank(bits, 32)
  {
    forall i | u <= i < 32
      ensures !bits[i]
    {
      ZeroBits(i - u);
      assert BitAt(0, i - u) == bits[u + (i - u)];
    }
    SameRank(bits, u, 32);
  }

  lemma {:induction false} SameRank(bits: seq<bool>, u: nat, v: nat)
    requires u <= v <= |bits| && forall i | u <= i < v :: !bits[i]
    ensures Rank(bits, u) == Rank(bits, v)
    decreases v
  {
    if u < v {
      SameRank(bits, u, v - 1);
    }
  }

  lemma PackStep<K, V>(slots: seq<Option<Node<K, V>>>, excluding: nat, s: nat, kept: seq<bool>, count: nat)
    requires s < |slots| == 32 && excluding < 32 && slots[excluding].Some?
    requires kept == Occupied(slots)[excluding := false] && count + 1 == Rank(Occupied(slots), 32)
    ensures kept[s] == Kept(slots, excluding, s) == (slots[s].Some? && s != excluding)
    ensures Rank(kept, s + 1) == Rank(kept, s) + (if kept[s] then 1 else 0) <= count
    ensures PackedBits(slots, excluding, s + 1) ==
            if kept[s] then PackedBits(slots, excluding, s) | Bit(s) else PackedBits(slots, excluding, s)
    ensures PackedNodes(slots, excluding, s + 1) ==
            if kept[s] then PackedNodes(slots, excluding, s) + [slots[s].value] else PackedNodes(slots, excluding, s)
  {
    RankAfterClear(Occupied(slots), excluding, 32);
    RankBounds(kept, s + 1, 32);
  }

  lemma PackStart<K, V>(slots: seq<Option<Node<K, V>>>, excluding: nat, kept: seq<bool>)
    requires |slots| == |kept| == 32
    ensures Rank(kept, 0) == 0 && Bit(0) == 1 && PackedBits(slots, excluding, 0) == 0 && PackedNodes(slots, excluding, 0) == []
  {}

  lemma BitDoubled(bit: bv32, s: nat)
    requires s < 32 && bit == Bit(s)
    ensures s + 1 < 32 ==> bit << 1 == Bit(s + 1)
  {
    if s < 31 {
      NextBit(s);
    }
  }

  lemma PackedCount<K, V>(slots: seq<Option<Node<K, V>>>, excluding: nat, kept: seq<bool>)
    requires |slots| == 32 && excluding < 32 && slots[excluding].Some?
    requires kept == Occupied(slots)[excluding := false]
    ensures Rank(kept, 32) + 1 == Rank(Occupied(slots), 32)
  {
    RankAfterClear(Occupied(slots), excluding, 32);
  }

  /** The occupied slots but one, with the mask of their positions built by shifting one bit left. */
  method PackNodes<K, V>(slots: seq<Option<Node<K, V>>>, count: nat, excluding: nat, filler: Node<K, V>)
    returns (r: Node<K, V>)
    requires |slots| == 32 && excluding < 32 && slots[excluding].Some?
    requires count + 1 == Rank(Occupied(slots), 32)
    ensures r == Pack(slots, excluding)
  {
    ghost var kept := Occupied(slots)[excluding := false];
    var a := new Node<K, V>[count](_ => filler);
    var i: bv32, o, s, bit := 0, 0, 0, 1 as bv32;
    PackStart(slots, excluding, kept);
    hide Rank, Bit, PackedBits, PackedNodes, Kept;
    while s < |slots|
      invariant s <= 32 && o == Rank(kept, s) <= count
      invariant s < 32 ==> bit == Bit(s)
      invariant i == PackedBits(slots, excluding, s)
      invariant a[..o] == PackedNodes(slots, excluding, s)
    {
      PackStep(slots, excluding, s, kept, count);
      BitDoubled(bit, s);
      if slots[s].Some? && s != excluding {
        i := i | bit;
        a[o] := slots[s].value;
        o := o + 1;
        assert a[..o] == PackedNodes(slots, excluding, s) + [slots[s].value];
      }
      s, bit := s + 1, bit << 1;
    }
    PackedCount(slots, excluding, kept);
    assert a[..o] == a[..];
    r := BitmapIndexed(i, a[..]);
  }

  /** Building the hashed node: the loop updates one node entry by entry. */
  method BuildNodes<K(==), V(==)>(hash: K -> Word, entries: seq<(K, V)>, key: K, value: V) returns (n: Node<K, V>)
    ensures n == CreateNodes(hash, entries, key, value)
  {
    n := Value(hash(key), (key, value));
    var o := 0;
    while o < |entries|
      invariant o <= |entries|
      invariant n == CreateNodes(hash, entries[..o], key, value)
    {
      var e := entries[o];
      assert entries[..o + 1][..o] == entries[..o];
      UpdateIsKept(hash, n, 0, hash(e.0), e.0, Some(e.1));
      var update := UpdateHashed(hash, n, 0, hash(e.0), e.0, Some(e.1));
      n := NodeAfter(Some(n), update).value;
      o := o + 1;
    }
    assert entries[..o] == entries;
  }

  method TestBit(bitmap: bv32, c: nat) returns (present: bool)
    requires c < 32
    ensures present == Bits(bitmap)[c]
  {
    present := Occupies(bitmap, c);
  }

  method CountBefore(bitmap: bv32, c: nat) returns (i: nat)
    requires c < 32
    ensures i == Rank(Bits(bitmap), c)
  {
    i := SlotBefore(bitmap, c);
  }

  /** `get` as the source walks it: bit test, popcount slot, entry loop. */
  method GetNode<K(==), V>(ghost hash: K -> Word, n: Node<K, V>, level: nat, keyHash: Word, key: K, ghost path: seq<nat>)
    returns (v: Option<V>)
    requires Valid(hash, n, path) && |path| == level
    ensures v == Get(n, level, keyHash, key)
    decreases n
  {
    match n
    case ArrayMap(entries) =>
      var i := FindEntry(entries, key);
      v := if i < |entries| then Some(entries[i].1) else None;
    case HashCollision(_, entries) =>
      var i := FindEntry(entries, key);
      v := if i < |entries| then Some(entries[i].1) else None;
    case Value(_, entry) =>
      v := if entry.0 == key then Some(entry.1) else None;
    case BitmapIndexed(bitmap, nodes) =>
      var c := Chunk(keyHash, level);
      var present := TestBit(bitmap, c);
      if !present {
        v := None;
      } else {
        SlotInRange(Bits(bitmap), c);
        assert Child(n, c).Some?;
        var i := CountBefore(bitmap, c);
        v := GetNode(hash, nodes[i], level + 1, keyHash, key, path + [c]);
      }
    case HashArrayMap(_, slots) =>
      var c := Chunk(keyHash, level);
      assert Child(n, c) == slots[c];
      if slots[c].Some? {
        v := GetNode(hash, slots[c].value, level + 1, keyHash, key, path + [c]);
      } else {
        v := None;
      }
  }

  /** The bitmap node after its child at `c` changed, with the source's popcounts and splices. */
  method RebuildBitmapNode<K, V>(n: Node<K, V>, c: nat, child: Option<Node<K, V>>) returns (r: Node<K, V>)
    requires IsInner(n) && n.BitmapIndexed? && c < 32
    requires !Bits(n.bitmap)[c] ==> child.Some?
    requires child.None? ==> |n.nodes| >= 2
    ensures r == RebuildBitmap(n, c, child)
  {
    var present := TestBit(n.bitmap, c);
    var i := CountBefore(n.bitmap, c);
    RankBounds(Bits(n.bitmap), c, 32);
    if present {
      SlotInRange(Bits(n.bitmap), c);
      if child.None? {
        if |n.nodes| == 2 && n.nodes[1 - i].IsLeaf() {
          r := n.nodes[1 - i];
        } else {
          var nodes := SpliceOut(n.nodes, i);
          r := BitmapIndexed(WithoutBit(n.bitmap, c), nodes);
        }
      } else if |n.nodes| == 1 && child.value.IsLeaf() {
        r := child.value;
      } else {
        r := BitmapIndexed(n.bitmap, n.nodes[i := child.value]);
      }
    } else if |n.nodes| >= MAX_BITMAP_INDEXED_SIZE {
      r := ExpandNodes(n.nodes, n.bitmap, c, child.value);
    } else {
      var nodes := SpliceIn(n.nodes, i, child.value);
      r := BitmapIndexed(WithBit(n.bitmap, c), nodes);
    }
  }

  /** The array node after its child at `c` changed: counted, and packed when it gets too small. */
  method RebuildArrayNode<K, V>(n: Node<K, V>, c: nat, child: Option<Node<K, V>>) returns (r: Node<K, V>)
    requires IsInner(n) && n.HashArrayMap? && c < 32
    requires n.slots[c].None? ==> child.Some?
    ensures r == RebuildArray(n, c, child)
  {
    var count := n.count;
    if n.slots[c].Some? {
      if child.None? {
        count := count - 1;
        if count < MIN_HASH_ARRAY_MAP_SIZE {
          r := PackNodes(n.slots, count, c, n.slots[c].value);
          return;
        }
      }
    } else {
      count := count + 1;
    }
    r := HashArrayMap(count, n.slots[c := child]);
  }
}
