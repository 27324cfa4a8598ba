/**
  The persistent hash-array-mapped trie behind the bundle's immutable map.

  Nodes are values: with no owner every update builds new nodes and leaves the old ones alone.
  `None` as the new value stands for the NOT_SET marker, so one update covers both set and remove.
  The hash is a parameter: any function from keys to 32-bit words, collisions included.
  A node at level `l` is the one the source reaches with shift `5 * l`.
*/
module HashTrie {
  import opened Options
  import opened Bitmaps

  /** A hash as the 32-bit unsigned word that `>>>` sees. */
  type Word = w: nat | w < 0x1_0000_0000

  datatype Node<K, V> =
    | ArrayMap(entries: seq<(K, V)>)
    | BitmapIndexed(bitmap: bv32, nodes: seq<Node<K, V>>)
    | HashArrayMap(count: nat, slots: seq<Option<Node<K, V>>>)
    | HashCollision(keyHash: Word, entries: seq<(K, V)>)
    | Value(keyHash: Word, entry: (K, V))
  {
    predicate IsLeaf() {
      Value? || HashCollision?
    }
  }

  const MAX_ARRAY_MAP_SIZE: nat := 8
  const MAX_BITMAP_INDEXED_SIZE: nat := 16
  const MIN_HASH_ARRAY_MAP_SIZE: nat := 8

  /** What one `update` call gives back: the node itself, or a replacement (`None` for undefined). */
  datatype Update<K, V> =
    | Same
    | Replaced(node: Option<Node<K, V>>, sizeChanged: bool)

  // ---- Hash digits ----

  /** The five hash bits that select a child, `hash >>> 5 * level & 31` of the unsigned hash. */
  function Chunk(h: nat, level: nat): (c: nat)
    ensures c < 32
  {
    if level == 0 then h % 32 else Chunk(h / 32, level - 1)
  }

  /** The chunks that lead from the root to a node at this level. */
  function Path(h: nat, level: nat): (p: seq<nat>)
    ensures |p| == level
  {
    if level == 0 then [] else Path(h, level - 1) + [Chunk(h, level - 1)]
  }

  lemma {:induction false} PathAt(h: nat, level: nat, l: nat)
    requires l < level
    ensures Path(h, level)[l] == Chunk(h, l)
  {
    if l < level - 1 {
      PathAt(h, level - 1, l);
    }
  }

  /** What is left of a word after some digits. */
  function Drop(h: nat, digits: nat): nat {
    if digits == 0 then h else Drop(h / 32, digits - 1)
  }

  lemma {:induction false} DigitsDetermine(h: nat, g: nat, digits: nat)
    requires forall l: nat :: l < digits ==> Chunk(h, l) == Chunk(g, l)
    requires Drop(h, digits) == Drop(g, digits)
    ensures h == g
  {
    if digits != 0 {
      assert Chunk(h, 0) == Chunk(g, 0);
      forall l: nat
        ensures l < digits - 1 ==> Chunk(h / 32, l) == Chunk(g / 32, l)
      {
        assert l < digits - 1 ==> Chunk(h, l + 1) == Chunk(g, l + 1);
      }
      DigitsDetermine(h / 32, g / 32, digits - 1);
    }
  }

  lemma SevenDigitsAreAll(h: Word)
    ensures Drop(h, 7) == 0
  {
    assert Drop(h, 7) == Drop(h / 32, 6) == Drop(h / 32 / 32, 5) == Drop(h / 32 / 32 / 32, 4)
        == Drop(h / 32 / 32 / 32 / 32, 3) == Drop(h / 32 / 32 / 32 / 32 / 32, 2)
        == Drop(h / 32 / 32 / 32 / 32 / 32 / 32, 1) == Drop(h / 32 / 32 / 32 / 32 / 32 / 32 / 32, 0);
  }

  /** Seven digits of five bits cover the whole word: equal paths mean equal hashes. */
  lemma PathsDetermineHash(h: Word, g: Word)
    requires Path(h, 7) == Path(g, 7)
    ensures h == g
  {
    forall l: nat
      ensures l < 7 ==> Chunk(h, l) == Chunk(g, l)
    {
      if l < 7 {
        PathAt(h, 7, l);
        PathAt(g, 7, l);
      }
    }
    SevenDigitsAreAll(h);
    SevenDigitsAreAll(g);
    DigitsDetermine(h, g, 7);
  }

  // ---- The shape every reachable node keeps ----

  /** Where the key sits among the entries, or their number if it is not there. */
  function IndexOf<K(==), V>(entries: seq<(K, V)>, key: K): (i: nat)
    ensures i <= |entries|
    ensures i < |entries| ==> entries[i].0 == key
    ensures forall j :: 0 <= j < i ==> entries[j].0 != key
  {
    if entries == [] || entries[0].0 == key then 0 else 1 + IndexOf(entries[1..], key)
  }

  predicate DistinctKeys<K(==), V>(entries: seq<(K, V)>) {
    forall i, j :: 0 <= i < j < |entries| ==> entries[i].0 != entries[j].0
  }

  function Occupied<K, V>(slots: seq<Option<Node<K, V>>>): (s: seq<bool>)
    ensures |s| == |slots|
  {
    seq(|slots|, i requires 0 <= i < |slots| => slots[i].Some?)
  }

  /** The counts that `update` relies on agree with what the node holds. */
  predicate Shaped<K, V>(n: Node<K, V>) {
    match n
    case BitmapIndexed(bitmap, nodes) =>
      1 <= |nodes| <= MAX_BITMAP_INDEXED_SIZE && |nodes| == Rank(Bits(bitmap), 32)
    case HashArrayMap(count, slots) =>
      |slots| == 32 && count == Rank(Occupied(slots), 32) && count >= MIN_HASH_ARRAY_MAP_SIZE
    case _ => true
  }

  predicate IsInner<K, V>(n: Node<K, V>) {
    (n.BitmapIndexed? || n.HashArrayMap?) && Shaped(n)
  }

  /** The child under one of the 32 positions of an inner node, whichever way it is stored. */
  function Child<K, V>(n: Node<K, V>, c: nat): (child: Option<Node<K, V>>)
    ensures child.Some? ==> child.value < n
  {
    match n
    case BitmapIndexed(bitmap, nodes) =>
      if c < 32 && Bits(bitmap)[c] && Rank(Bits(bitmap), c) < |nodes| then Some(nodes[Rank(Bits(bitmap), c)]) else None
    case HashArrayMap(_, slots) => if c < |slots| then slots[c] else None
    case _ => None
  }

  lemma SlotInRange(s: seq<bool>, c: nat)
    requires |s| == 32 && c < 32 && s[c]
    ensures Rank(s, c) < Rank(s, 32)
  {
    RankBounds(s, c + 1, 32);
  }

  /** A leaf that is an only child has been pulled up. */
  predicate NoLoneLeaf<K, V>(n: Node<K, V>) {
    n.BitmapIndexed? && |n.nodes| == 1 ==> !n.nodes[0].IsLeaf()
  }

  /** A leaf's keys are distinct and all have its hash; only a collision holds several. */
  ghost predicate ValidLeaf<K, V>(hash: K -> Word, n: Node<K, V>)
    requires n.IsLeaf()
  {
    match n
    case HashCollision(keyHash, entries) =>
      |entries| >= 2 && DistinctKeys(entries) && forall e | e in entries :: hash(e.0) == keyHash
    case Value(keyHash, entry) => hash(entry.0) == keyHash
  }

  /** The node holds only keys whose hashes lead along `path`, stored as `update` stores them. */
  ghost predicate Valid<K, V>(hash: K -> Word, n: Node<K, V>, path: seq<nat>)
    decreases n
  {
    && |path| <= 7
    && match n
       case ArrayMap(entries) =>
         path == [] && 1 <= |entries| <= MAX_ARRAY_MAP_SIZE && DistinctKeys(entries)
       case HashCollision(keyHash, _) => ValidLeaf(hash, n) && Path(keyHash, |path|) == path
       case Value(keyHash, _) => ValidLeaf(hash, n) && Path(keyHash, |path|) == path
       case _ =>
         && |path| <= 6
         && IsInner(n)
         && NoLoneLeaf(n)
         && forall c: nat | c < 32 && Child(n, c).Some? :: Valid(hash, Child(n, c).value, path + [c])
  }

  // ---- get ----

  function GetEntry<K(==), V>(entries: seq<(K, V)>, key: K): Option<V> {
    var i := IndexOf(entries, key);
    if i < |entries| then Some(entries[i].1) else None
  }

  function Get<K(==), V>(n: Node<K, V>, level: nat, keyHash: Word, key: K): Option<V>
    decreases n
  {
    match n
    case ArrayMap(entries) => GetEntry(entries, key)
    case HashCollision(_, entries) => GetEntry(entries, key)
    case Value(_, entry) => if entry.0 == key then Some(entry.1) else None
    case _ =>
      var child := Child(n, Chunk(keyHash, level));
      if child.Some? then Get(child.value, level + 1, keyHash, key) else None
  }

  // ---- update ----

  /** Two entries below the same position: one child per digit until their hashes part. */
  function MergeIntoNode<K, V>(n: Node<K, V>, level: nat, keyHash: Word, entry: (K, V)): Node<K, V>
    requires level <= 7 && n.IsLeaf() && Path(n.keyHash, level) == Path(keyHash, level)
    requires n.keyHash == keyHash ==> n.Value?
    decreases 7 - level
  {
    if n.keyHash == keyHash then HashCollision(keyHash, [n.entry, entry])
    else
      assert level < 7 by {
        if level == 7 {
          PathsDetermineHash(n.keyHash, keyHash);
        }
      }
      var s, c := Chunk(n.keyHash, level), Chunk(keyHash, level);
      Fork(n, s, c, if s == c then MergeIntoNode(n, level + 1, keyHash, entry) else Value(keyHash, entry))
  }

  /** The bitmap node over positions `s` and `c`, its children in the order of their positions. */
  function Fork<K, V>(n: Node<K, V>, s: nat, c: nat, added: Node<K, V>): Node<K, V>
    requires s < 32 && c < 32
  {
    BitmapIndexed(TwoBits(s, c), if s == c then [added] else if s < c then [n, added] else [added, n])
  }

  /** The slots `expandNodes` fills: the children in order of their bits, and the new one at `c`. */
  function Expand<K, V>(nodes: seq<Node<K, V>>, bitmap: bv32, c: nat, n: Node<K, V>): Node<K, V>
    requires c < 32 && |nodes| == Rank(Bits(bitmap), 32)
  {
    HashArrayMap(|nodes| + 1, seq(32, i requires 0 <= i < 32 => ExpandedSlot(nodes, bitmap, c, n, i)))
  }

  function ExpandedSlot<K, V>(nodes: seq<Node<K, V>>, bitmap: bv32, c: nat, n: Node<K, V>, i: nat): Option<Node<K, V>>
    requires c < 32 && i < 32 && |nodes| == Rank(Bits(bitmap), 32)
  {
    if i == c then Some(n)
    else if Bits(bitmap)[i] then SlotInRange(Bits(bitmap), i); Some(nodes[Rank(Bits(bitmap), i)])
    else None
  }

  predicate Kept<K, V>(slots: seq<Option<Node<K, V>>>, excluding: nat, i: nat)
    requires i < |slots|
  {
    slots[i].Some? && i != excluding
  }

  /** The bitmap and the children `packNodes` collects from the first `i` slots. */
  function PackedBits<K, V>(slots: seq<Option<Node<K, V>>>, excluding: nat, i: nat): bv32
    requires i <= |slots| == 32
  {
    if i == 0 then 0
    else if Kept(slots, excluding, i - 1) then WithBit(PackedBits(slots, excluding, i - 1), i - 1)
    else PackedBits(slots, excluding, i - 1)
  }

  function PackedNodes<K, V>(slots: seq<Option<Node<K, V>>>, excluding: nat, i: nat): seq<Node<K, V>>
    requires i <= |slots|
  {
    if i == 0 then []
    else if Kept(slots, excluding, i - 1) then PackedNodes(slots, excluding, i - 1) + [slots[i - 1].value]
    else PackedNodes(slots, excluding, i - 1)
  }

  function Pack<K, V>(slots: seq<Option<Node<K, V>>>, excluding: nat): Node<K, V>
    requires |slots| == 32
  {
    BitmapIndexed(PackedBits(slots, excluding, 32), PackedNodes(slots, excluding, 32))
  }

  function InsertAt<T>(s: seq<T>, i: nat, t: T): seq<T>
    requires i <= |s|
  {
    s[..i] + [t] + s[i..]
  }

  function RemoveAt<T>(s: seq<T>, i: nat): seq<T>
    requires i < |s|
  {
    s[..i] + s[i + 1..]
  }

  /** The entry array after an update: a removed entry's place is taken by the last one. */
  function UpdateEntries<K(==), V>(entries: seq<(K, V)>, key: K, value: Option<V>): seq<(K, V)>
    requires value.Some? || IndexOf(entries, key) < |entries|
  {
    var i := IndexOf(entries, key);
    if i < |entries| then
      if value.None? then
        if i == |entries| - 1 then entries[..|entries| - 1]
        else entries[i := entries[|entries| - 1]][..|entries| - 1]
      else entries[i := (key, value.value)]
    else entries + [(key, value.value)]
  }

  /** `updateNode` on the child the key leads to. */
  function UpdateChild<K(==), V(==)>(hash: K -> Word, n: Node<K, V>, level: nat, keyHash: Word, key: K,
                                     value: Option<V>): (r: Update<K, V>)
    requires level <= 6 && hash(key) == keyHash && IsInner(n) && Valid(hash, n, Path(keyHash, level))
    ensures r.Replaced? && r.node.None? ==>
              Child(n, Chunk(keyHash, level)).Some? && Child(n, Chunk(keyHash, level)).value.Value?
    decreases n, 0
  {
    hide Valid, Child, Path, Chunk;
    var child := Child(n, Chunk(keyHash, level));
    if child.Some? then
      ChildOnPath(hash, n, level, keyHash);
      UpdateHashed(hash, child.value, level + 1, keyHash, key, value)
    else if value.None? then Same
    else Replaced(Some(Value(keyHash, (key, value.value))), true)
  }

  lemma ChildOnPath<K, V>(hash: K -> Word, n: Node<K, V>, level: nat, keyHash: Word)
    requires level <= 6 && IsInner(n) && Valid(hash, n, Path(keyHash, level)) && Child(n, Chunk(keyHash, level)).Some?
    ensures var child := Child(n, Chunk(keyHash, level)).value;
            Valid(hash, child, Path(keyHash, level + 1)) && !child.ArrayMap?
  {
    hide Valid, Child;
    ChildIsHashed(hash, n, Path(keyHash, level), Chunk(keyHash, level));
  }

  lemma ChildIsHashed<K, V>(hash: K -> Word, n: Node<K, V>, path: seq<nat>, c: nat)
    requires IsInner(n) && Valid(hash, n, path) && c < 32 && Child(n, c).Some?
    ensures Valid(hash, Child(n, c).value, path + [c]) && !Child(n, c).value.ArrayMap?
  {
    assert Valid(hash, Child(n, c).value, path + [c]);
    assert path + [c] != [];
  }

  /** `update` of the four node kinds that live below the root. */
  function UpdateHashed<K(==), V(==)>(hash: K -> Word, n: Node<K, V>, level: nat, keyHash: Word, key: K,
                                      value: Option<V>): (r: Update<K, V>)
    requires level <= 7 && hash(key) == keyHash
    requires Valid(hash, n, Path(keyHash, level)) && !n.ArrayMap?
    ensures r.Replaced? && r.node.None? ==> n.Value?
    decreases n, 1
  {
    if n.HashCollision? then UpdateCollision(n, level, keyHash, key, value)
    else if n.Value? then UpdateValue(n, level, keyHash, key, value)
    else
      var child := UpdateChild(hash, n, level, keyHash, key, value);
      if child.Same? then Same
      else
        OnlyChildIsInner(n, Chunk(keyHash, level));
        Replaced(Some(Rebuild(n, Chunk(keyHash, level), child.node)), child.sizeChanged)
  }

  lemma OnlyChildIsInner<K, V>(n: Node<K, V>, c: nat)
    requires IsInner(n) && NoLoneLeaf(n) && c < 32
    ensures n.BitmapIndexed? && Child(n, c).Some? && Child(n, c).value.IsLeaf() ==> |n.nodes| >= 2
  {
    if n.BitmapIndexed? && Child(n, c).Some? {
      SlotInRange(Bits(n.bitmap), c);
    }
  }

  function UpdateCollision<K(==), V(==)>(n: Node<K, V>, level: nat, keyHash: Word, key: K, value: Option<V>)
    : (r: Update<K, V>)
    requires level <= 7 && n.HashCollision? && |n.entries| >= 2
    requires Path(n.keyHash, level) == Path(keyHash, level)
    ensures r.Replaced? ==> r.node.Some?
  {
    if keyHash != n.keyHash then
      if value.None? then Same
      else Replaced(Some(MergeIntoNode(n, level, keyHash, (key, value.value))), true)
    else
      var i := IndexOf(n.entries, key);
      var present := i < |n.entries|;
      if if present then value == Some(n.entries[i].1) else value.None? then Same
      else if value.None? && |n.entries| == 2 then Replaced(Some(Value(n.keyHash, n.entries[1 - i])), true)
      else Replaced(Some(HashCollision(n.keyHash, UpdateEntries(n.entries, key, value))), value.None? || !present)
  }

  function UpdateValue<K(==), V(==)>(n: Node<K, V>, level: nat, keyHash: Word, key: K, value: Option<V>): Update<K, V>
    requires level <= 7 && n.Value? && Path(n.keyHash, level) == Path(keyHash, level)
  {
    var same := key == n.entry.0;
    if if same then value == Some(n.entry.1) else value.None? then Same
    else if value.None? then Replaced(None, true)
    else if same then Replaced(Some(Value(n.keyHash, (key, value.value))), false)
    else Replaced(Some(MergeIntoNode(n, level, keyHash, (key, value.value))), true)
  }

  /** What a bitmap node becomes once the child at position `c` is `child`. */
  function RebuildBitmap<K, V>(n: Node<K, V>, c: nat, child: Option<Node<K, V>>): Node<K, V>
    requires IsInner(n) && n.BitmapIndexed? && c < 32
    requires !Bits(n.bitmap)[c] ==> child.Some?
    requires child.None? ==> |n.nodes| >= 2
  {
    var i := Rank(Bits(n.bitmap), c);
    RankBounds(Bits(n.bitmap), c, 32);
    if Bits(n.bitmap)[c] then
      SlotInRange(Bits(n.bitmap), c);
      if child.None? then
        if |n.nodes| == 2 && n.nodes[1 - i].IsLeaf() then n.nodes[1 - i]
        else BitmapIndexed(WithoutBit(n.bitmap, c), RemoveAt(n.nodes, i))
      else if |n.nodes| == 1 && child.value.IsLeaf() then child.value
      else BitmapIndexed(n.bitmap, n.nodes[i := child.value])
    else if |n.nodes| >= MAX_BITMAP_INDEXED_SIZE then Expand(n.nodes, n.bitmap, c, child.value)
    else BitmapIndexed(WithBit(n.bitmap, c), InsertAt(n.nodes, i, child.value))
  }

  /** What an array node becomes once the child at position `c` is `child`. */
  function RebuildArray<K, V>(n: Node<K, V>, c: nat, child: Option<Node<K, V>>): Node<K, V>
    requires IsInner(n) && n.HashArrayMap? && c < 32
    requires n.slots[c].None? ==> child.Some?
  {
    if n.slots[c].Some? then
      if child.None? && n.count - 1 < MIN_HASH_ARRAY_MAP_SIZE then Pack(n.slots, c)
      else HashArrayMap(if child.None? then n.count - 1 else n.count, n.slots[c := child])
    else HashArrayMap(n.count + 1, n.slots[c := child])
  }

  function Rebuild<K, V>(n: Node<K, V>, c: nat, child: Option<Node<K, V>>): Node<K, V>
    requires IsInner(n) && c < 32
    requires Child(n, c).None? ==> child.Some?
    requires n.BitmapIndexed? && child.None? ==> |n.nodes| >= 2
  {
    if n.BitmapIndexed? then
      if Bits(n.bitmap)[c] then SlotInRange(Bits(n.bitmap), c); RebuildBitmap(n, c, child)
      else RebuildBitmap(n, c, child)
    else RebuildArray(n, c, child)
  }
}
