/** An update changes the binding of its key, keeps every other one, and keeps nodes valid. */
module HashTrieUpdate {
  import opened Options
  import opened Bitmaps
  import opened HashTrie
  import opened HashTrieProofs

  // ---- Leaves ----

  lemma LeafRises<K, V>(hash: K -> Word, r: Node<K, V>, path: seq<nat>, d: nat)
    requires r.IsLeaf() && Valid(hash, r, path + [d])
    ensures Valid(hash, r, path)
  {
    var p := Path(r.keyHash, |path|);
    var longer := p + [Chunk(r.keyHash, |path|)];
    assert longer == Path(r.keyHash, |path| + 1) == path + [d];
    assert p == longer[..|path|] && path == (path + [d])[..|path|];
  }

  /** A leaf does not hold keys of another hash. */
  lemma NotInLeaf<K, V>(hash: K -> Word, n: Node<K, V>, level: nat, keyHash: Word, key: K)
    requires n.IsLeaf() && ValidLeaf(hash, n) && hash(key) == keyHash != n.keyHash
    ensures Get(n, level, keyHash, key) == None
  {}

  /** A leaf under another digit does not hold the key. */
  lemma LeafElsewhere<K, V>(hash: K -> Word, r: Node<K, V>, level: nat, keyHash: Word, key: K, d: nat)
    requires r.IsLeaf() && level <= 6 && hash(key) == keyHash
    requires Valid(hash, r, Path(keyHash, level) + [d]) && d != Chunk(keyHash, level)
    ensures Get(r, level, keyHash, key) == None
  {
    assert r.keyHash != keyHash by {
      if r.keyHash == keyHash {
        PathAt(keyHash, level + 1, level);
      }
    }
    NotInLeaf(hash, r, level, keyHash, key);
  }

  // ---- Rebuilding an inner node around a changed child ----

  lemma RebuiltKeepsValid<K, V>(hash: K -> Word, n: Node<K, V>, path: seq<nat>, c: nat, m: Option<Node<K, V>>,
                                r: Node<K, V>)
    requires IsInner(n) && Valid(hash, n, path) && c < 32 && Rebuilt(n, c, m, r)
    requires m.Some? ==> Valid(hash, m.value, path + [c])
    ensures Valid(hash, r, path) && !r.ArrayMap?
  {
    if r.IsLeaf() {
      var d :| LeavesOnly(n, c, m, d, r);
      if d == c {
        assert m == Some(r);
      } else {
        assert Child(n, d) == Some(r);
      }
      LeafRises(hash, r, path, d);
    } else {
      forall d: nat | d < 32 && Child(r, d).Some?
        ensures Valid(hash, Child(r, d).value, path + [d])
      {
        if d != c {
          assert Child(r, d) == Child(n, d);
        }
      }
    }
  }

  lemma GetRebuilt<K, V>(hash: K -> Word, n: Node<K, V>, level: nat, c: nat, m: Option<Node<K, V>>, r: Node<K, V>,
                         keyHash: Word, key: K)
    requires level <= 6 && hash(key) == keyHash
    requires IsInner(n) && Valid(hash, n, Path(keyHash, level)) && c < 32 && Rebuilt(n, c, m, r)
    requires m.Some? ==> Valid(hash, m.value, Path(keyHash, level) + [c])
    ensures Get(r, level, keyHash, key) ==
            if Chunk(keyHash, level) != c then Get(n, level, keyHash, key)
            else if m.Some? then Get(m.value, level + 1, keyHash, key)
            else None
  {
    var path := Path(keyHash, level);
    var e := Chunk(keyHash, level);
    if r.IsLeaf() {
      var d :| LeavesOnly(n, c, m, d, r);
      assert (if e == c then m else Child(n, e)) == if e == d then Some(r) else None;
      if e != d {
        assert Valid(hash, r, path + [d]) by {
          if d != c {
            assert Child(n, d) == Some(r);
          }
        }
        LeafElsewhere(hash, r, level, keyHash, key, d);
      }
    }
  }

  // ---- Entry arrays ----

  lemma EntryAt<K, V>(entries: seq<(K, V)>, i: nat)
    requires DistinctKeys(entries) && i < |entries|
    ensures IndexOf(entries, entries[i].0) == i && GetEntry(entries, entries[i].0) == Some(entries[i].1)
  {
    var j := IndexOf(entries, entries[i].0);
    assert j <= i;
    assert entries[j].0 == entries[i].0;
  }

  lemma EntryAbsent<K, V>(entries: seq<(K, V)>, key: K)
    requires forall i :: 0 <= i < |entries| ==> entries[i].0 != key
    ensures GetEntry(entries, key) == None
  {}

  /** Where an entry of the updated array comes from. */
  lemma UpdatedEntryAt<K, V>(entries: seq<(K, V)>, key: K, value: Option<V>, i: nat)
    requires value.Some? || IndexOf(entries, key) < |entries|
    requires DistinctKeys(entries) && i < |UpdateEntries(entries, key, value)|
    ensures var e := UpdateEntries(entries, key, value)[i];
            if e.0 == key then value == Some(e.1) else e in entries
  {
    var at := IndexOf(entries, key);
    if value.None? {
      var last := |entries| - 1;
      assert entries[if i == at then last else i] in entries;
    }
  }

  lemma UpdateEntriesDistinct<K, V>(entries: seq<(K, V)>, key: K, value: Option<V>)
    requires value.Some? || IndexOf(entries, key) < |entries|
    requires DistinctKeys(entries)
    ensures DistinctKeys(UpdateEntries(entries, key, value))
  {}

  lemma GetUpdatedEntry<K, V>(entries: seq<(K, V)>, key: K, value: Option<V>, other: K)
    requires value.Some? || IndexOf(entries, key) < |entries|
    requires DistinctKeys(entries)
    ensures GetEntry(UpdateEntries(entries, key, value), other) ==
            if other == key then value else GetEntry(entries, other)
  {
    UpdateEntriesDistinct(entries, key, value);
    if value.Some? {
      GetAfterSet(entries, key, value.value, other);
    } else {
      GetAfterRemove(entries, key, other);
    }
  }

  lemma GetAfterSet<K, V>(entries: seq<(K, V)>, key: K, value: V, other: K)
    requires DistinctKeys(entries) && DistinctKeys(UpdateEntries(entries, key, Some(value)))
    ensures GetEntry(UpdateEntries(entries, key, Some(value)), other) ==
            if other == key then Some(value) else GetEntry(entries, other)
  {
    var updated := UpdateEntries(entries, key, Some(value));
    var at, j := IndexOf(entries, key), IndexOf(entries, other);
    assert updated[at] == (key, value);
    if other == key {
      EntryAt(updated, at);
    } else if j < |entries| {
      assert updated[j] == entries[j];
      EntryAt(updated, j);
    } else {
      EntryAbsent(updated, other);
    }
  }

  lemma RemovedIsAbsent<K, V>(entries: seq<(K, V)>, key: K, other: K)
    requires IndexOf(entries, key) < |entries| && DistinctKeys(entries)
    requires other == key || IndexOf(entries, other) == |entries|
    ensures var updated := UpdateEntries(entries, key, None);
            forall i :: 0 <= i < |updated| ==> updated[i].0 != other
  {
    hide IndexOf;
    var updated, at := UpdateEntries(entries, key, None), IndexOf(entries, key);
    forall i | 0 <= i < |updated|
      ensures updated[i].0 != other
    {
      assert updated[i] == entries[if i == at then |entries| - 1 else i];
    }
  }

  /** Where an entry is that was not removed. */
  lemma Moved<K, V>(entries: seq<(K, V)>, key: K, j: nat)
    requires IndexOf(entries, key) < |entries| && j < |entries| && j != IndexOf(entries, key)
    ensures var updated, moved := UpdateEntries(entries, key, None), if j == |entries| - 1 then IndexOf(entries, key) else j;
            moved < |updated| && updated[moved] == entries[j]
  {
    hide IndexOf;
  }

  lemma GetAfterRemove<K, V>(entries: seq<(K, V)>, key: K, other: K)
    requires IndexOf(entries, key) < |entries|
    requires DistinctKeys(entries) && DistinctKeys(UpdateEntries(entries, key, None))
    ensures GetEntry(UpdateEntries(entries, key, None), other) == if other == key then None else GetEntry(entries, other)
  {
    var updated := UpdateEntries(entries, key, None);
    var at, j := IndexOf(entries, key), IndexOf(entries, other);
    if other != key && j < |entries| {
      var moved := if j == |entries| - 1 then at else j;
      Moved(entries, key, j);
      EntryAt(updated, moved);
      EntryAt(entries, j);
    } else {
      RemovedIsAbsent(entries, key, other);
      EntryAbsent(updated, other);
    }
  }

  // ---- Merging two leaves ----

  /** `r` holds `added` at `c` and, when their digits differ, the leaf `n` at `s`. */
  ghost predicate Merged<K, V>(n: Node<K, V>, s: nat, added: Node<K, V>, c: nat, r: Node<K, V>) {
    && IsInner(r) && NoLoneLeaf(r) && s < 32 && c < 32
    && forall d: nat | d < 32 ::
         Child(r, d) == if d == c then Some(added) else if d == s then Some(n) else None
  }

  lemma ForkIsMerged<K, V>(n: Node<K, V>, s: nat, c: nat, added: Node<K, V>)
    requires s < 32 && c < 32 && (s == c ==> !added.IsLeaf())
    ensures Merged(n, s, added, c, Fork(n, s, c, added))
  {
    var r := Fork(n, s, c, added);
    var none := seq(32, i => false);
    assert Bits(r.bitmap) == none[s := true][c := true];
    RankOfTwo(none, s, c, 32);
    RankOfTwo(none, s, c, s);
    RankOfTwo(none, s, c, c);
  }

  /** What a merge of different hashes puts beside the old leaf. */
  function Added<K, V>(n: Node<K, V>, level: nat, keyHash: Word, entry: (K, V)): Node<K, V>
    requires level <= 6 && n.IsLeaf() && Path(n.keyHash, level) == Path(keyHash, level) && n.keyHash != keyHash
  {
    if Chunk(n.keyHash, level) == Chunk(keyHash, level) then MergeIntoNode(n, level + 1, keyHash, entry)
    else Value(keyHash, entry)
  }

  lemma MergeIsMerged<K, V>(n: Node<K, V>, level: nat, keyHash: Word, entry: (K, V))
    requires level <= 6 && n.IsLeaf() && Path(n.keyHash, level) == Path(keyHash, level) && n.keyHash != keyHash
    ensures Merged(n, Chunk(n.keyHash, level), Added(n, level, keyHash, entry), Chunk(keyHash, level),
                   MergeIntoNode(n, level, keyHash, entry))
  {
    ForkIsMerged(n, Chunk(n.keyHash, level), Chunk(keyHash, level), Added(n, level, keyHash, entry));
  }

  lemma MergedIsValid<K, V>(hash: K -> Word, n: Node<K, V>, s: nat, added: Node<K, V>, c: nat, r: Node<K, V>,
                            path: seq<nat>)
    requires |path| <= 6 && Merged(n, s, added, c, r) && Valid(hash, added, path + [c])
    requires s != c ==> Valid(hash, n, path + [s])
    ensures Valid(hash, r, path) && !r.ArrayMap?
  {
    forall d: nat | d < 32 && Child(r, d).Some?
      ensures Valid(hash, Child(r, d).value, path + [d])
    {}
  }

  lemma CollisionIsValid<K, V>(hash: K -> Word, n: Node<K, V>, path: seq<nat>, entry: (K, V))
    requires n.Value? && ValidLeaf(hash, n) && |path| <= 7 && Path(n.keyHash, |path|) == path
    requires hash(entry.0) == n.keyHash && n.entry.0 != entry.0
    ensures Valid(hash, HashCollision(n.keyHash, [n.entry, entry]), path)
  {
    hide Path;
    var r := HashCollision(n.keyHash, [n.entry, entry]);
    assert DistinctKeys(r.entries);
    hide DistinctKeys;
    assert forall i | 0 <= i < 2 :: hash(r.entries[i].0) == n.keyHash;
    assert ValidLeaf(hash, r);
    hide ValidLeaf;
  }

  lemma {:induction false} MergeKeepsValid<K, V>(hash: K -> Word, n: Node<K, V>, level: nat, keyHash: Word, entry: (K, V))
    requires level <= 7 && hash(entry.0) == keyHash
    requires n.IsLeaf() && ValidLeaf(hash, n) && Path(n.keyHash, level) == Path(keyHash, level)
    requires n.keyHash == keyHash ==> n.Value? && n.entry.0 != entry.0
    ensures Valid(hash, MergeIntoNode(n, level, keyHash, entry), Path(keyHash, level))
    ensures !MergeIntoNode(n, level, keyHash, entry).ArrayMap?
    decreases 7 - level
  {
    if n.keyHash == keyHash {
      CollisionIsValid(hash, n, Path(keyHash, level), entry);
    } else {
      if level == 7 {
        PathsDetermineHash(n.keyHash, keyHash);
      }
      var s, c := Chunk(n.keyHash, level), Chunk(keyHash, level);
      var added := Added(n, level, keyHash, entry);
      assert Valid(hash, added, Path(keyHash, level + 1)) by {
        hide MergeIntoNode;
        if s == c {
          MergeKeepsValid(hash, n, level + 1, keyHash, entry);
        }
      }
      hide Valid, Path;
      MergeIsMerged(n, level, keyHash, entry);
      MergedIsValid(hash, n, s, added, c, MergeIntoNode(n, level, keyHash, entry), Path(keyHash, level));
    }
  }

  lemma GetCollision<K, V>(n: Node<K, V>, entry: (K, V), key: K)
    requires n.Value? && n.entry.0 != entry.0
    ensures GetEntry([n.entry, entry], key) ==
            if key == entry.0 then Some(entry.1) else if key == n.entry.0 then Some(n.entry.1) else None
  {
    var entries := [n.entry, entry];
    if key == entry.0 {
      EntryAt(entries, 1);
    } else if key == n.entry.0 {
      EntryAt(entries, 0);
    }
  }

  lemma GetFromMerged<K, V>(hash: K -> Word, n: Node<K, V>, s: nat, added: Node<K, V>, c: nat, r: Node<K, V>,
                            level: nat, keyHash: Word, key: K, entry: (K, V))
    requires hash(key) == keyHash && Merged(n, s, added, c, r) && n.IsLeaf() && ValidLeaf(hash, n)
    requires Chunk(n.keyHash, level) == s && Chunk(hash(entry.0), level) == c
    requires Chunk(keyHash, level) == c ==>
               Get(added, level + 1, keyHash, key) ==
               if key == entry.0 then Some(entry.1) else if s == c then Get(n, level, keyHash, key) else None
    ensures Get(r, level, keyHash, key) == if key == entry.0 then Some(entry.1) else Get(n, level, keyHash, key)
  {
    var e := Chunk(keyHash, level);
    assert Child(r, e) == if e == c then Some(added) else if e == s then Some(n) else None;
    if e != s {
      NotInLeaf(hash, n, level, keyHash, key);
    }
  }

  /** A leaf is searched by key, at whatever level it is. */
  lemma GetLeafAnywhere<K, V>(n: Node<K, V>, level: nat, otherHash: Word, other: K)
    requires n.IsLeaf() && level <= 6
    ensures Get(n, level + 1, otherHash, other) == Get(n, level, otherHash, other)
  {}

  lemma GetValue<K, V>(hash: K -> Word, entry: (K, V), level: nat, keyHash: Word, otherHash: Word, other: K)
    requires level <= 6
    ensures Get(Value(keyHash, entry), level + 1, otherHash, other) == if other == entry.0 then Some(entry.1) else None
  {}

  lemma {:induction false} GetMerged<K, V>(hash: K -> Word, n: Node<K, V>, level: nat, keyHash: Word, entry: (K, V),
                                           otherHash: Word, other: K)
    requires level <= 7 && hash(entry.0) == keyHash && hash(other) == otherHash
    requires n.IsLeaf() && ValidLeaf(hash, n) && Path(n.keyHash, level) == Path(keyHash, level)
    requires n.keyHash == keyHash ==> n.Value? && n.entry.0 != entry.0
    ensures Get(MergeIntoNode(n, level, keyHash, entry), level, otherHash, other) ==
            if other == entry.0 then Some(entry.1) else Get(n, level, otherHash, other)
    decreases 7 - level
  {
    if n.keyHash == keyHash {
      GetCollision(n, entry, other);
    } else {
      if level == 7 {
        PathsDetermineHash(n.keyHash, keyHash);
      }
      var s, c := Chunk(n.keyHash, level), Chunk(keyHash, level);
      var added := Added(n, level, keyHash, entry);
      assert Get(added, level + 1, otherHash, other) ==
             if other == entry.0 then Some(entry.1) else if s == c then Get(n, level, otherHash, other) else None by {
        hide Path, Chunk, MergeIntoNode;
        if s == c {
          GetMerged(hash, n, level + 1, keyHash, entry, otherHash, other);
          GetLeafAnywhere(n, level, otherHash, other);
        } else {
          GetValue(hash, entry, level, keyHash, otherHash, other);
        }
      }
      hide Get, Path;
      MergeIsMerged(n, level, keyHash, entry);
      GetFromMerged(hash, n, s, added, c, MergeIntoNode(n, level, keyHash, entry), level, otherHash, other, entry);
    }
  }

  // ---- update below the root ----

  /**
    The update leaves the node alone exactly when the key already has the new value; otherwise the
    replacement is valid, and the size flag says whether the key came or went.
  */
  ghost predicate Keeps<K, V>(hash: K -> Word, before: Option<V>, value: Option<V>, u: Update<K, V>, path: seq<nat>) {
    match u
    case Same => before == value
    case Replaced(node, sizeChanged) =>
      && before != value
      && sizeChanged == (before.Some? != value.Some?)
      && (value.Some? ==> node.Some?)
      && (node.Some? ==> Valid(hash, node.value, path) && !node.value.ArrayMap?)
  }

  lemma CollisionUpdate<K, V>(hash: K -> Word, n: Node<K, V>, level: nat, keyHash: Word, key: K, value: Option<V>)
    requires level <= 7 && hash(key) == keyHash && n.HashCollision? && Valid(hash, n, Path(keyHash, level))
    ensures Keeps(hash, Get(n, level, keyHash, key), value, UpdateCollision(n, level, keyHash, key, value),
                  Path(keyHash, level))
  {
    if keyHash != n.keyHash {
      NotInLeaf(hash, n, level, keyHash, key);
      if value.Some? {
        MergeKeepsValid(hash, n, level, keyHash, (key, value.value));
      }
    } else if UpdateCollision(n, level, keyHash, key, value).Replaced? {
      if value.None? && |n.entries| == 2 {
        assert n.entries[1 - IndexOf(n.entries, key)] in n.entries;
      } else {
        UpdatedCollisionIsValid(hash, n, keyHash, key, value);
      }
    }
  }

  lemma UpdatedCollisionIsValid<K, V>(hash: K -> Word, n: Node<K, V>, keyHash: Word, key: K, value: Option<V>)
    requires hash(key) == keyHash && n.HashCollision? && ValidLeaf(hash, n) && n.keyHash == keyHash
    requires if value.None? then IndexOf(n.entries, key) < |n.entries| && |n.entries| > 2 else true
    ensures ValidLeaf(hash, HashCollision(keyHash, UpdateEntries(n.entries, key, value)))
  {
    UpdateEntriesDistinct(n.entries, key, value);
    var updated := UpdateEntries(n.entries, key, value);
    forall e | e in updated
      ensures hash(e.0) == keyHash
    {
      var i :| 0 <= i < |updated| && updated[i] == e;
      UpdatedEntryAt(n.entries, key, value, i);
    }
  }

  lemma ValueUpdate<K, V>(hash: K -> Word, n: Node<K, V>, level: nat, keyHash: Word, key: K, value: Option<V>)
    requires level <= 7 && hash(key) == keyHash && n.Value? && Valid(hash, n, Path(keyHash, level))
    ensures Keeps(hash, Get(n, level, keyHash, key), value, UpdateValue(n, level, keyHash, key, value),
                  Path(keyHash, level))
  {
    if key != n.entry.0 && value.Some? {
      MergeKeepsValid(hash, n, level, keyHash, (key, value.value));
    }
  }

  /** The binding of a key under a child that may be missing. */
  function GetFrom<K(==), V>(n: Option<Node<K, V>>, level: nat, keyHash: Word, key: K): Option<V> {
    if n.Some? then Get(n.value, level, keyHash, key) else None
  }

  lemma {:induction false} UpdateIsKept<K, V>(hash: K -> Word, n: Node<K, V>, level: nat, keyHash: Word, key: K,
                                              value: Option<V>)
    requires level <= 7 && hash(key) == keyHash && Valid(hash, n, Path(keyHash, level)) && !n.ArrayMap?
    ensures Keeps(hash, Get(n, level, keyHash, key), value, UpdateHashed(hash, n, level, keyHash, key, value),
                  Path(keyHash, level))
    decreases n, 1
  {
    if n.HashCollision? {
      CollisionUpdate(hash, n, level, keyHash, key, value);
    } else if n.Value? {
      ValueUpdate(hash, n, level, keyHash, key, value);
    } else {
      ChildIsKept(hash, n, level, keyHash, key, value);
      InnerUpdate(hash, n, level, keyHash, key, value);
    }
  }

  lemma {:induction false} ChildIsKept<K, V>(hash: K -> Word, n: Node<K, V>, level: nat, keyHash: Word, key: K,
                                             value: Option<V>)
    requires level <= 6 && hash(key) == keyHash && IsInner(n) && Valid(hash, n, Path(keyHash, level))
    ensures Keeps(hash, GetFrom(Child(n, Chunk(keyHash, level)), level + 1, keyHash, key), value,
                  UpdateChild(hash, n, level, keyHash, key, value), Path(keyHash, level + 1))
    decreases n, 0
  {
    hide Valid, Child, Path, Chunk, Keeps, Get, UpdateHashed, UpdateChild;
    var child := Child(n, Chunk(keyHash, level));
    if child.Some? {
      ChildOnPath(hash, n, level, keyHash);
      UpdateIsKept(hash, child.value, level + 1, keyHash, key, value);
      UpdateChildIs(hash, n, level, keyHash, key, value);
    } else {
      NoChildIsKept(hash, n, level, keyHash, key, value);
    }
  }

  lemma NoChildIsKept<K, V>(hash: K -> Word, n: Node<K, V>, level: nat, keyHash: Word, key: K, value: Option<V>)
    requires level <= 6 && hash(key) == keyHash && IsInner(n) && Valid(hash, n, Path(keyHash, level))
    requires Child(n, Chunk(keyHash, level)).None?
    ensures Keeps(hash, None, value, UpdateChild(hash, n, level, keyHash, key, value), Path(keyHash, level + 1))
  {
    if value.Some? {
      NewLeafIsValid(hash, level + 1, keyHash, key, value.value);
    }
  }

  lemma NewLeafIsValid<K, V>(hash: K -> Word, level: nat, keyHash: Word, key: K, value: V)
    requires level <= 7 && hash(key) == keyHash
    ensures Valid(hash, Value(keyHash, (key, value)), Path(keyHash, level))
  {}

  lemma InnerUpdate<K, V>(hash: K -> Word, n: Node<K, V>, level: nat, keyHash: Word, key: K, value: Option<V>)
    requires level <= 6 && hash(key) == keyHash && IsInner(n) && Valid(hash, n, Path(keyHash, level))
    requires Keeps(hash, GetFrom(Child(n, Chunk(keyHash, level)), level + 1, keyHash, key), value,
                   UpdateChild(hash, n, level, keyHash, key, value), Path(keyHash, level + 1))
    ensures Keeps(hash, Get(n, level, keyHash, key), value, UpdateHashed(hash, n, level, keyHash, key, value),
                  Path(keyHash, level))
  {
    var c := Chunk(keyHash, level);
    var child := UpdateChild(hash, n, level, keyHash, key, value);
    if child.Replaced? {
      OnlyChildIsInner(n, c);
      RebuildIsRebuilt(n, c, child.node);
      RebuiltKeepsValid(hash, n, Path(keyHash, level), c, child.node, Rebuild(n, c, child.node));
    }
  }

  /** The node after an update: the old one if it was left alone. */
  function NodeAfter<K, V>(n: Option<Node<K, V>>, u: Update<K, V>): Option<Node<K, V>> {
    if u.Same? then n else u.node
  }

  /** After an update a key has the new value if it is the updated one, and else its old value. */
  lemma {:induction false} GetAfterUpdate<K, V>(hash: K -> Word, n: Node<K, V>, level: nat, keyHash: Word, key: K,
                                                value: Option<V>, otherHash: Word, other: K)
    requires level <= 7 && hash(key) == keyHash && Valid(hash, n, Path(keyHash, level)) && !n.ArrayMap?
    requires hash(other) == otherHash && Path(otherHash, level) == Path(keyHash, level)
    ensures GetFrom(NodeAfter(Some(n), UpdateHashed(hash, n, level, keyHash, key, value)), level, otherHash, other) ==
            if other == key then value else Get(n, level, otherHash, other)
    decreases n, 1
  {
    if n.HashCollision? {
      GetAfterCollision(hash, n, level, keyHash, key, value, otherHash, other);
    } else if n.Value? {
      if key != n.entry.0 && value.Some? {
        GetMerged(hash, n, level, keyHash, (key, value.value), otherHash, other);
      }
    } else {
      ChildIsKept(hash, n, level, keyHash, key, value);
      if Chunk(otherHash, level) == Chunk(keyHash, level) {
        GetAfterChild(hash, n, level, keyHash, key, value, otherHash, other);
      }
      GetAroundChild(hash, n, level, keyHash, key, value, otherHash, other);
    }
  }

  lemma GetAfterCollision<K, V>(hash: K -> Word, n: Node<K, V>, level: nat, keyHash: Word, key: K, value: Option<V>,
                                otherHash: Word, other: K)
    requires level <= 7 && hash(key) == keyHash && Valid(hash, n, Path(keyHash, level)) && n.HashCollision?
    requires hash(other) == otherHash
    ensures GetFrom(NodeAfter(Some(n), UpdateCollision(n, level, keyHash, key, value)), level, otherHash, other) ==
            if other == key then value else Get(n, level, otherHash, other)
  {
    if keyHash != n.keyHash {
      NotInLeaf(hash, n, level, keyHash, key);
      if value.Some? {
        GetMerged(hash, n, level, keyHash, (key, value.value), otherHash, other);
      }
    } else if UpdateCollision(n, level, keyHash, key, value).Replaced? {
      if value.None? && |n.entries| == 2 {
        var i := IndexOf(n.entries, key);
        EntryAt(n.entries, 1 - i);
        if other != key && other != n.entries[1 - i].0 {
          EntryAbsent(n.entries, other);
        }
      } else {
        GetUpdatedEntry(n.entries, key, value, other);
      }
    }
  }

  lemma {:induction false} GetAfterChild<K, V>(hash: K -> Word, n: Node<K, V>, level: nat, keyHash: Word, key: K,
                                               value: Option<V>, otherHash: Word, other: K)
    requires level <= 6 && hash(key) == keyHash && IsInner(n) && Valid(hash, n, Path(keyHash, level))
    requires hash(other) == otherHash && Path(otherHash, level) == Path(keyHash, level)
    requires Chunk(otherHash, level) == Chunk(keyHash, level)
    ensures GetFrom(NodeAfter(Child(n, Chunk(keyHash, level)), UpdateChild(hash, n, level, keyHash, key, value)),
                    level + 1, otherHash, other) ==
            if other == key then value else GetFrom(Child(n, Chunk(keyHash, level)), level + 1, otherHash, other)
    decreases n, 0
  {
    LongerPath(keyHash, otherHash, level);
    hide Valid, Child, Path, Chunk, Get, UpdateHashed, UpdateChild;
    var child := Child(n, Chunk(keyHash, level));
    if child.Some? {
      ChildOnPath(hash, n, level, keyHash);
      GetAfterUpdate(hash, child.value, level + 1, keyHash, key, value, otherHash, other);
      UpdateChildIs(hash, n, level, keyHash, key, value);
    } else {
      GetAfterNoChild(hash, n, level, keyHash, key, value, otherHash, other);
    }
  }

  lemma LongerPath(h: Word, other: Word, level: nat)
    requires Path(other, level) == Path(h, level) && Chunk(other, level) == Chunk(h, level)
    ensures Path(other, level + 1) == Path(h, level + 1)
  {}

  lemma GetAfterNoChild<K, V>(hash: K -> Word, n: Node<K, V>, level: nat, keyHash: Word, key: K, value: Option<V>,
                              otherHash: Word, other: K)
    requires level <= 6 && hash(key) == keyHash && IsInner(n) && Valid(hash, n, Path(keyHash, level))
    requires Child(n, Chunk(keyHash, level)).None?
    ensures GetFrom(NodeAfter(None, UpdateChild(hash, n, level, keyHash, key, value)), level + 1, otherHash, other) ==
            if other == key then value else None
  {}

  lemma UpdateChildIs<K, V>(hash: K -> Word, n: Node<K, V>, level: nat, keyHash: Word, key: K, value: Option<V>)
    requires level <= 6 && hash(key) == keyHash && IsInner(n) && Valid(hash, n, Path(keyHash, level))
    requires Child(n, Chunk(keyHash, level)).Some?
    requires Valid(hash, Child(n, Chunk(keyHash, level)).value, Path(keyHash, level + 1))
    requires !Child(n, Chunk(keyHash, level)).value.ArrayMap?
    ensures UpdateChild(hash, n, level, keyHash, key, value) ==
            UpdateHashed(hash, Child(n, Chunk(keyHash, level)).value, level + 1, keyHash, key, value)
  {}

  lemma GetAroundChild<K, V>(hash: K -> Word, n: Node<K, V>, level: nat, keyHash: Word, key: K, value: Option<V>,
                             otherHash: Word, other: K)
    requires level <= 6 && hash(key) == keyHash && IsInner(n) && Valid(hash, n, Path(keyHash, level))
    requires hash(other) == otherHash && Path(otherHash, level) == Path(keyHash, level)
    requires Keeps(hash, GetFrom(Child(n, Chunk(keyHash, level)), level + 1, keyHash, key), value,
                   UpdateChild(hash, n, level, keyHash, key, value), Path(keyHash, level + 1))
    requires Chunk(otherHash, level) == Chunk(keyHash, level) ==>
               GetFrom(NodeAfter(Child(n, Chunk(keyHash, level)), UpdateChild(hash, n, level, keyHash, key, value)),
                       level + 1, otherHash, other) ==
               if other == key then value else GetFrom(Child(n, Chunk(keyHash, level)), level + 1, otherHash, other)
    ensures GetFrom(NodeAfter(Some(n), UpdateHashed(hash, n, level, keyHash, key, value)), level, otherHash, other) ==
            if other == key then value else Get(n, level, otherHash, other)
  {
    var c := Chunk(keyHash, level);
    var child := UpdateChild(hash, n, level, keyHash, key, value);
    if child.Replaced? {
      OnlyChildIsInner(n, c);
      RebuildIsRebuilt(n, c, child.node);
      GetRebuilt(hash, n, level, c, child.node, Rebuild(n, c, child.node), otherHash, other);
    }
  }
}
