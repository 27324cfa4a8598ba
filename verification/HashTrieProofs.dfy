/** What each structural step of a trie update does to the children of a node. */
module HashTrieProofs {
  import opened Options
  import opened Bitmaps
  import opened HashTrie

  /** `r` has the children of `n`, except that the one at `c` is now `m`. */
  ghost predicate ReplacesChild<K, V>(n: Node<K, V>, c: nat, m: Option<Node<K, V>>, r: Node<K, V>) {
    && IsInner(n) && IsInner(r) && c < 32
    && forall d: nat | d < 32 :: Child(r, d) == if d == c then m else Child(n, d)
  }

  /** After that replacement the only child left is `r`, at `d`. */
  ghost predicate LeavesOnly<K, V>(n: Node<K, V>, c: nat, m: Option<Node<K, V>>, d: nat, r: Node<K, V>) {
    && IsInner(n) && c < 32 && d < 32
    && forall e: nat | e < 32 :: (if e == c then m else Child(n, e)) == if e == d then Some(r) else None
  }

  lemma SetReplaces<K, V>(n: Node<K, V>, c: nat, child: Node<K, V>)
    requires IsInner(n) && n.BitmapIndexed? && c < 32 && Bits(n.bitmap)[c]
    ensures Rank(Bits(n.bitmap), c) < |n.nodes|
    ensures ReplacesChild(n, c, Some(child), BitmapIndexed(n.bitmap, n.nodes[Rank(Bits(n.bitmap), c) := child]))
  {
    var bits := Bits(n.bitmap);
    SlotInRange(bits, c);
    var r := BitmapIndexed(n.bitmap, n.nodes[Rank(bits, c) := child]);
    assert r.BitmapIndexed? && IsInner(r);
    forall d: nat | d < 32
      ensures Child(r, d) == if d == c then Some(child) else Child(n, d)
    {
      SetChild(n, c, child, d);
    }
  }

  lemma SetChild<K, V>(n: Node<K, V>, c: nat, child: Node<K, V>, d: nat)
    requires n.BitmapIndexed? && c < 32 && d < 32 && Bits(n.bitmap)[c] && Rank(Bits(n.bitmap), c) < |n.nodes|
    ensures Child(BitmapIndexed(n.bitmap, n.nodes[Rank(Bits(n.bitmap), c) := child]), d) ==
            if d == c then Some(child) else Child(n, d)
  {
    hide Bits, Rank;
    var bits := Bits(n.bitmap);
    if bits[d] && d != c {
      OtherSlot(bits, c, d);
    }
  }

  /** Different occupied positions have different slots. */
  lemma OtherSlot(s: seq<bool>, c: nat, d: nat)
    requires |s| == 32 && c < 32 && d < 32 && c != d && s[d]
    ensures c < d ==> Rank(s, c) + (if s[c] then 1 else 0) <= Rank(s, d)
    ensures d < c ==> Rank(s, d) < Rank(s, c)
    ensures Rank(s, d) < Rank(s, 32)
  {
    SlotInRange(s, d);
    if c < d {
      RankBounds(s, c + 1, d);
    } else {
      SlotsOrdered(s, d, c);
    }
  }

  lemma InsertedChildren<K, V>(n: Node<K, V>, r: Node<K, V>, p: nat, child: Node<K, V>)
    requires IsInner(n) && n.BitmapIndexed? && |n.nodes| < MAX_BITMAP_INDEXED_SIZE
    requires p < 32 && !Bits(n.bitmap)[p] && r.BitmapIndexed? && Bits(r.bitmap) == Bits(n.bitmap)[p := true]
    requires Rank(Bits(n.bitmap), p) <= |n.nodes| && r.nodes == InsertAt(n.nodes, Rank(Bits(n.bitmap), p), child)
    ensures ReplacesChild(n, p, Some(child), r)
  {
    RankAfterSet(Bits(n.bitmap), p, 32);
    forall d: nat | d < 32
      ensures Child(r, d) == if d == p then Some(child) else Child(n, d)
    {
      InsertedChild(n, r, p, child, d);
    }
  }

  lemma InsertedChild<K, V>(n: Node<K, V>, r: Node<K, V>, p: nat, child: Node<K, V>, d: nat)
    requires IsInner(n) && n.BitmapIndexed? && d < 32
    requires p < 32 && !Bits(n.bitmap)[p] && r.BitmapIndexed? && Bits(r.bitmap) == Bits(n.bitmap)[p := true]
    requires Rank(Bits(n.bitmap), p) <= |n.nodes| && r.nodes == InsertAt(n.nodes, Rank(Bits(n.bitmap), p), child)
    ensures Child(r, d) == if d == p then Some(child) else Child(n, d)
  {
    hide Bits, Rank, InsertAt;
    var bits := Bits(n.bitmap);
    var i, j := Rank(bits, p), Rank(bits, d);
    RankAfterSet(bits, p, d);
    if d == p {
      Inserted(n.nodes, i, child, i);
    } else if bits[d] {
      OtherSlot(bits, p, d);
      Inserted(n.nodes, i, child, if p < d then j + 1 else j);
    }
  }

  lemma Inserted<T>(s: seq<T>, i: nat, t: T, j: nat)
    requires i <= |s| && j <= |s|
    ensures |InsertAt(s, i, t)| == |s| + 1
    ensures InsertAt(s, i, t)[j] == if j < i then s[j] else if j == i then t else s[j - 1]
  {}

  lemma Removed<T>(s: seq<T>, i: nat, j: nat)
    requires i < |s| && j < |s| - 1
    ensures |RemoveAt(s, i)| == |s| - 1
    ensures RemoveAt(s, i)[j] == if j < i then s[j] else s[j + 1]
  {}

  lemma RemovedChildren<K, V>(n: Node<K, V>, r: Node<K, V>, p: nat)
    requires IsInner(n) && n.BitmapIndexed? && |n.nodes| >= 2
    requires p < 32 && Bits(n.bitmap)[p] && r.BitmapIndexed? && Bits(r.bitmap) == Bits(n.bitmap)[p := false]
    requires Rank(Bits(n.bitmap), p) < |n.nodes| && r.nodes == RemoveAt(n.nodes, Rank(Bits(n.bitmap), p))
    ensures ReplacesChild(n, p, None, r)
  {
    RankAfterClear(Bits(n.bitmap), p, 32);
    forall d: nat | d < 32
      ensures Child(r, d) == if d == p then None else Child(n, d)
    {
      RemovedChild(n, r, p, d);
    }
  }

  lemma RemovedChild<K, V>(n: Node<K, V>, r: Node<K, V>, p: nat, d: nat)
    requires IsInner(n) && n.BitmapIndexed? && d < 32
    requires p < 32 && Bits(n.bitmap)[p] && r.BitmapIndexed? && Bits(r.bitmap) == Bits(n.bitmap)[p := false]
    requires Rank(Bits(n.bitmap), p) < |n.nodes| && r.nodes == RemoveAt(n.nodes, Rank(Bits(n.bitmap), p))
    ensures Child(r, d) == if d == p then None else Child(n, d)
  {
    hide Bits, Rank, RemoveAt;
    var bits := Bits(n.bitmap);
    RankAfterClear(bits, p, d);
    if bits[d] && d != p {
      OtherSlot(bits, p, d);
      OtherSlot(bits, d, p);
      Removed(n.nodes, Rank(bits, p), if p < d then Rank(bits, d) - 1 else Rank(bits, d));
    }
  }

  // ---- Array nodes ----

  lemma OccupiedAfter<K, V>(slots: seq<Option<Node<K, V>>>, c: nat, child: Option<Node<K, V>>)
    requires c < |slots|
    ensures Occupied(slots[c := child]) == Occupied(slots)[c := child.Some?]
  {}

  lemma ArrayReplaces<K, V>(n: Node<K, V>, c: nat, child: Option<Node<K, V>>)
    requires IsInner(n) && n.HashArrayMap? && c < 32
    requires n.slots[c].None? ==> child.Some?
    requires child.None? ==> n.count > MIN_HASH_ARRAY_MAP_SIZE
    ensures ReplacesChild(n, c, child, RebuildArray(n, c, child))
  {
    var occupied := Occupied(n.slots);
    OccupiedAfter(n.slots, c, child);
    if n.slots[c].None? {
      RankAfterSet(occupied, c, 32);
    } else if child.None? {
      RankAfterClear(occupied, c, 32);
    } else {
      assert occupied[c := true] == occupied;
    }
  }

  lemma ExpandReplaces<K, V>(n: Node<K, V>, c: nat, child: Node<K, V>)
    requires IsInner(n) && n.BitmapIndexed? && c < 32 && !Bits(n.bitmap)[c]
    requires |n.nodes| == MAX_BITMAP_INDEXED_SIZE
    ensures ReplacesChild(n, c, Some(child), Expand(n.nodes, n.bitmap, c, child))
  {
    var bits := Bits(n.bitmap);
    var r := Expand(n.nodes, n.bitmap, c, child);
    forall d: nat | d < 32
      ensures Child(r, d) == if d == c then Some(child) else Child(n, d)
    {
      if bits[d] {
        SlotInRange(bits, d);
      }
    }
    assert Occupied(r.slots) == bits[c := true];
    RankAfterSet(bits, c, 32);
  }

  lemma {:induction false} PackedBitsAt<K, V>(slots: seq<Option<Node<K, V>>>, excluding: nat, i: nat, d: nat)
    requires i <= |slots| == 32 && d < 32
    ensures Bits(PackedBits(slots, excluding, i))[d] == (d < i && Kept(slots, excluding, d))
  {
    if i == 0 {
      ZeroBits(d);
    } else {
      PackedBitsAt(slots, excluding, i - 1, d);
      if Kept(slots, excluding, i - 1) {
      }
    }
  }

  lemma {:induction false} PackedNodesAt<K, V>(slots: seq<Option<Node<K, V>>>, excluding: nat, kept: seq<bool>, i: nat)
    requires i <= |slots| == |kept|
    requires forall d: nat | d < |slots| :: kept[d] == Kept(slots, excluding, d)
    ensures |PackedNodes(slots, excluding, i)| == Rank(kept, i)
    ensures forall d: nat | d < i && kept[d] ::
              slots[d].Some? && Rank(kept, d) < Rank(kept, i) && PackedNodes(slots, excluding, i)[Rank(kept, d)] == slots[d].value
  {
    if i != 0 {
      PackedNodesAt(slots, excluding, kept, i - 1);
    }
  }

  lemma PackReplaces<K, V>(n: Node<K, V>, c: nat)
    requires IsInner(n) && n.HashArrayMap? && c < 32 && n.slots[c].Some?
    requires n.count == MIN_HASH_ARRAY_MAP_SIZE
    ensures ReplacesChild(n, c, None, Pack(n.slots, c))
    ensures |Pack(n.slots, c).nodes| == MIN_HASH_ARRAY_MAP_SIZE - 1
  {
    var r := Pack(n.slots, c);
    var bits := Bits(r.bitmap);
    forall d: nat | d < 32
      ensures bits[d] == Kept(n.slots, c, d)
    {
      PackedBitsAt(n.slots, c, 32, d);
    }
    PackedNodesAt(n.slots, c, bits, 32);
    RankAfterClear(Occupied(n.slots), c, 32);
    assert bits == Occupied(n.slots)[c := false];
  }

  // ---- The two rebuilding steps ----

  /** The new node is `n` with the child at `c` replaced, or the leaf that is left alone in it. */
  ghost predicate Rebuilt<K, V>(n: Node<K, V>, c: nat, m: Option<Node<K, V>>, r: Node<K, V>) {
    || (ReplacesChild(n, c, m, r) && NoLoneLeaf(r))
    || (r.IsLeaf() && exists d :: LeavesOnly(n, c, m, d, r))
  }

  lemma RebuildBitmapIsRebuilt<K, V>(n: Node<K, V>, c: nat, m: Option<Node<K, V>>)
    requires IsInner(n) && n.BitmapIndexed? && NoLoneLeaf(n) && c < 32
    requires !Bits(n.bitmap)[c] ==> m.Some?
    requires m.None? ==> |n.nodes| >= 2
    ensures Rebuilt(n, c, m, RebuildBitmap(n, c, m))
  {
    if !Bits(n.bitmap)[c] {
      if |n.nodes| >= MAX_BITMAP_INDEXED_SIZE {
        ExpandReplaces(n, c, m.value);
      } else {
        RankBounds(Bits(n.bitmap), c, 32);
        InsertedChildren(n, RebuildBitmap(n, c, m), c, m.value);
      }
    } else if m.Some? {
      SetReplaces(n, c, m.value);
      if |n.nodes| == 1 && m.value.IsLeaf() {
        OnlyChild(n, c, m, c, m.value);
      }
    } else {
      RemovedIsRebuilt(n, c);
    }
  }

  lemma RemovedIsRebuilt<K, V>(n: Node<K, V>, c: nat)
    requires IsInner(n) && n.BitmapIndexed? && |n.nodes| >= 2
    requires c < 32 && Bits(n.bitmap)[c]
    ensures Rebuilt(n, c, None, RebuildBitmap(n, c, None))
  {
    var i := Rank(Bits(n.bitmap), c);
    SlotInRange(Bits(n.bitmap), c);
    if |n.nodes| == 2 && n.nodes[1 - i].IsLeaf() {
      var d := PositionOfSlot(Bits(n.bitmap), 1 - i, 32);
      OnlyChild(n, c, None, d, n.nodes[1 - i]);
    } else {
      RemovedChildren(n, RebuildBitmap(n, c, None), c);
    }
  }

  /** With one slot kept, or two slots and one removed, the remaining child is the only one. */
  lemma OnlyChild<K, V>(n: Node<K, V>, c: nat, m: Option<Node<K, V>>, d: nat, r: Node<K, V>)
    requires IsInner(n) && n.BitmapIndexed? && c < 32 && d < 32 && Bits(n.bitmap)[c] && Bits(n.bitmap)[d]
    requires |n.nodes| == if m.Some? then 1 else 2
    requires m.Some? ==> c == d && m == Some(r)
    requires m.None? ==> c != d && Child(n, d) == Some(r)
    ensures LeavesOnly(n, c, m, d, r)
  {
    var bits := Bits(n.bitmap);
    forall e: nat | e < 32
      ensures (if e == c then m else Child(n, e)) == if e == d then Some(r) else None
    {
      if e != c && e != d && bits[e] {
        OtherSlot(bits, c, e);
        OtherSlot(bits, d, e);
        OtherSlot(bits, e, c);
        OtherSlot(bits, e, d);
        if c != d {
          OtherSlot(bits, c, d);
          OtherSlot(bits, d, c);
        }
        assert false;
      }
    }
  }

  lemma RebuildArrayIsRebuilt<K, V>(n: Node<K, V>, c: nat, m: Option<Node<K, V>>)
    requires IsInner(n) && n.HashArrayMap? && c < 32
    requires n.slots[c].None? ==> m.Some?
    ensures Rebuilt(n, c, m, RebuildArray(n, c, m))
  {
    if n.slots[c].Some? && m.None? && n.count == MIN_HASH_ARRAY_MAP_SIZE {
      PackReplaces(n, c);
    } else {
      ArrayReplaces(n, c, m);
    }
  }

  lemma RebuildIsRebuilt<K, V>(n: Node<K, V>, c: nat, m: Option<Node<K, V>>)
    requires IsInner(n) && NoLoneLeaf(n) && c < 32
    requires Child(n, c).None? ==> m.Some?
    requires n.BitmapIndexed? && m.None? ==> |n.nodes| >= 2
    ensures Rebuilt(n, c, m, Rebuild(n, c, m))
  {
    if n.BitmapIndexed? {
      if Bits(n.bitmap)[c] {
        SlotInRange(Bits(n.bitmap), c);
      }
      RebuildBitmapIsRebuilt(n, c, m);
    } else {
      RebuildArrayIsRebuilt(n, c, m);
    }
  }

  /**
    When an inner node changes its kind: a bitmap node with sixteen children becomes an array node when it gets
    another, an array node with eight children becomes a bitmap node when it loses one.
  */
  lemma KindAfter<K, V>(n: Node<K, V>, c: nat, m: Option<Node<K, V>>)
    requires IsInner(n) && NoLoneLeaf(n) && c < 32
    requires Child(n, c).None? ==> m.Some?
    requires n.BitmapIndexed? && m.None? ==> |n.nodes| >= 2
    ensures var r := Rebuild(n, c, m);
            && (n.BitmapIndexed? && !r.IsLeaf() ==> (r.HashArrayMap? <==> |n.nodes| == 16 && Child(n, c).None?))
            && (n.HashArrayMap? ==> (r.BitmapIndexed? <==> n.count == 8 && m.None?))
            && (r.HashArrayMap? ==> r.count == (if n.BitmapIndexed? then |n.nodes| else n.count)
                                              + (if m.Some? then 1 else 0) - (if Child(n, c).Some? then 1 else 0))
  {
    if n.BitmapIndexed? && Bits(n.bitmap)[c] {
      SlotInRange(Bits(n.bitmap), c);
    }
  }
}
