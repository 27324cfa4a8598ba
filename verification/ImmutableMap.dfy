/** The immutable map on top of the trie, and the plain map it is to its callers. */
module ImmutableMap {
  import opened Options
  import opened Bitmaps
  import opened HashTrie
  import opened HashTrieUpdate

  /** The map record: its size and its root, absent when it is empty. */
  datatype Trie<K, V> = Trie(size: int, root: Option<Node<K, V>>)

  /** A hashed node for more entries than an array node holds: one update per entry, from the new one on. */
  function CreateNodes<K(==), V(==)>(hash: K -> Word, entries: seq<(K, V)>, key: K, value: V): (n: Node<K, V>)
    ensures Valid(hash, n, []) && !n.ArrayMap?
  {
    if entries == [] then Value(hash(key), (key, value))
    else
      var last := entries[|entries| - 1];
      var built := CreateNodes(hash, entries[..|entries| - 1], key, value);
      UpdateIsKept(hash, built, 0, hash(last.0), last.0, Some(last.1));
      NodeAfter(Some(built), UpdateHashed(hash, built, 0, hash(last.0), last.0, Some(last.1))).value
  }

  /** `update` of the array node, which holds the entries of a small map in insertion order. */
  function UpdateArrayMap<K(==), V(==)>(hash: K -> Word, n: Node<K, V>, key: K, value: Option<V>): Update<K, V>
    requires n.ArrayMap? && Valid(hash, n, [])
  {
    var i := IndexOf(n.entries, key);
    var present := i < |n.entries|;
    if if present then value == Some(n.entries[i].1) else value.None? then Same
    else if value.None? && |n.entries| == 1 then Replaced(None, true)
    else if !present && value.Some? && |n.entries| >= MAX_ARRAY_MAP_SIZE then
      Replaced(Some(CreateNodes(hash, n.entries, key, value.value)), true)
    else Replaced(Some(ArrayMap(UpdateEntries(n.entries, key, value))), value.None? || !present)
  }

  function UpdateRoot<K(==), V(==)>(hash: K -> Word, n: Node<K, V>, key: K, value: Option<V>): Update<K, V>
    requires Valid(hash, n, [])
  {
    if n.ArrayMap? then UpdateArrayMap(hash, n, key, value)
    else UpdateHashed(hash, n, 0, hash(key), key, value)
  }

  /** `updateMap`: a map without root is empty; a root update also says how the size changes. */
  function UpdateMap<K(==), V(==)>(hash: K -> Word, m: Trie<K, V>, key: K, value: Option<V>): Trie<K, V>
    requires m.root.Some? ==> Valid(hash, m.root.value, [])
  {
    if m.root.Some? then
      match UpdateRoot(hash, m.root.value, key, value)
      case Same => m
      case Replaced(node, sizeChanged) =>
        var size := m.size + if !sizeChanged then 0 else if value.None? then -1 else 1;
        if node.Some? then Trie(size, node) else Trie(0, None)
    else if value.None? then m
    else Trie(1, Some(ArrayMap([(key, value.value)])))
  }

  function Lookup<K(==), V>(hash: K -> Word, m: Trie<K, V>, key: K): Option<V> {
    GetFrom(m.root, 0, hash(key), key)
  }

  // ---- One update ----

  lemma {:induction false} GetCreated<K, V>(hash: K -> Word, entries: seq<(K, V)>, key: K, value: V, other: K)
    requires DistinctKeys(entries) && IndexOf(entries, key) == |entries|
    ensures Get(CreateNodes(hash, entries, key, value), 0, hash(other), other) ==
            if other == key then Some(value) else GetEntry(entries, other)
  {
    if entries != [] {
      var front, last := entries[..|entries| - 1], entries[|entries| - 1];
      assert entries == front + [last];
      NotInFront(entries, key);
      var built := CreateNodes(hash, front, key, value);
      hide IndexOf, DistinctKeys;
      GetCreated(hash, front, key, value, other);
      GetSnoc(front, last, other);
      GetAddedEntry(hash, built, last, other);
    }
  }

  lemma GetAddedEntry<K, V>(hash: K -> Word, n: Node<K, V>, e: (K, V), other: K)
    requires Valid(hash, n, []) && !n.ArrayMap?
    ensures var r := NodeAfter(Some(n), UpdateHashed(hash, n, 0, hash(e.0), e.0, Some(e.1)));
            r.Some? && Get(r.value, 0, hash(other), other) ==
                       if other == e.0 then Some(e.1) else Get(n, 0, hash(other), other)
  {
    UpdateIsKept(hash, n, 0, hash(e.0), e.0, Some(e.1));
    GetAfterUpdate(hash, n, 0, hash(e.0), e.0, Some(e.1), hash(other), other);
  }

  lemma NotInFront<K, V>(entries: seq<(K, V)>, key: K)
    requires entries != [] && IndexOf(entries, key) == |entries|
    ensures IndexOf(entries[..|entries| - 1], key) == |entries| - 1
  {
    var front := entries[..|entries| - 1];
    assert forall j :: 0 <= j < |front| ==> front[j] == entries[j];
  }

  lemma GetSnoc<K, V>(front: seq<(K, V)>, last: (K, V), other: K)
    requires DistinctKeys(front + [last])
    ensures GetEntry(front + [last], other) == if other == last.0 then Some(last.1) else GetEntry(front, other)
  {
    var entries := front + [last];
    if other == last.0 {
      EntryAt(entries, |front|);
    } else {
      var i := IndexOf(front, other);
      if i < |front| {
        EntryAt(entries, i);
      } else {
        EntryAbsent(entries, other);
      }
    }
  }

  /** The replacement of the root is valid, and its binding for any key is the expected one. */
  lemma RootUpdate<K, V>(hash: K -> Word, n: Node<K, V>, key: K, value: Option<V>)
    requires Valid(hash, n, [])
    ensures var before := Get(n, 0, hash(key), key);
            match UpdateRoot(hash, n, key, value)
            case Same => before == value
            case Replaced(node, sizeChanged) =>
              && before != value && sizeChanged == (before.Some? != value.Some?)
              && (value.Some? ==> node.Some?)
              && (node.Some? ==> Valid(hash, node.value, []))
  {
    if n.ArrayMap? {
      if UpdateArrayMap(hash, n, key, value).Replaced? && (value.Some? || |n.entries| > 1) {
        UpdateEntriesDistinct(n.entries, key, value);
      }
    } else {
      UpdateIsKept(hash, n, 0, hash(key), key, value);
    }
  }

  lemma GetAfterRoot<K, V>(hash: K -> Word, n: Node<K, V>, key: K, value: Option<V>, other: K)
    requires Valid(hash, n, [])
    ensures GetFrom(NodeAfter(Some(n), UpdateRoot(hash, n, key, value)), 0, hash(other), other) ==
            if other == key then value else Get(n, 0, hash(other), other)
  {
    if !n.ArrayMap? {
      GetAfterUpdate(hash, n, 0, hash(key), key, value, hash(other), other);
    } else {
      var u := UpdateArrayMap(hash, n, key, value);
      var i := IndexOf(n.entries, key);
      if u.Replaced? {
        if value.None? && |n.entries| == 1 {
          if other != key {
            EntryAbsent(n.entries, other);
          }
        } else if i == |n.entries| && |n.entries| >= MAX_ARRAY_MAP_SIZE {
          GetCreated(hash, n.entries, key, value.value, other);
        } else {
          GetUpdatedEntry(n.entries, key, value, other);
        }
      }
    }
  }

  // ---- Whole runs ----

  datatype Op<K, V> = Set(key: K, value: V) | Remove(key: K)

  /** The map after a run of `set` and `remove` calls, starting from the empty map. */
  function Run<K(==), V(==)>(hash: K -> Word, ops: seq<Op<K, V>>): (m: Trie<K, V>)
    ensures m.root.Some? ==> Valid(hash, m.root.value, [])
  {
    if ops == [] then Trie(0, None)
    else
      var before := Run(hash, ops[..|ops| - 1]);
      var op := ops[|ops| - 1];
      if before.root.Some? then
        RootUpdate(hash, before.root.value, op.key, NewValue(op));
        UpdateMap(hash, before, op.key, NewValue(op))
      else UpdateMap(hash, before, op.key, NewValue(op))
  }

  function NewValue<K, V>(op: Op<K, V>): Option<V> {
    if op.Set? then Some(op.value) else None
  }

  /** What the same run does to a plain map. */
  function Model<K(==), V>(ops: seq<Op<K, V>>): map<K, V> {
    if ops == [] then map[]
    else
      var before := Model(ops[..|ops| - 1]);
      var op := ops[|ops| - 1];
      if op.Set? then before[op.key := op.value] else before - {op.key}
  }

  function Binding<K(==), V>(m: map<K, V>, key: K): Option<V> {
    if key in m then Some(m[key]) else None
  }

  /** One `updateMap` step: the new binding of any key, and the change of the size. */
  lemma UpdateMapStep<K, V>(hash: K -> Word, m: Trie<K, V>, key: K, value: Option<V>, other: K)
    requires m.root.Some? ==> Valid(hash, m.root.value, [])
    ensures Lookup(hash, UpdateMap(hash, m, key, value), other) ==
            if other == key then value else Lookup(hash, m, other)
  {
    if m.root.Some? {
      GetAfterRoot(hash, m.root.value, key, value, other);
    } else if value.Some? {
      GetSnoc([], (key, value.value), other);
      assert [] + [(key, value.value)] == [(key, value.value)];
    }
  }

  /**
    The trie is a plain map to its callers: after every run of updates from the empty map, and for
    every hash function, each key has the binding the plain map gives it.
  */
  lemma {:induction false} TrieRefinesMap<K, V>(hash: K -> Word, ops: seq<Op<K, V>>, key: K)
    ensures Lookup(hash, Run(hash, ops), key) == Binding(Model(ops), key)
  {
    if ops != [] {
      var front, op := ops[..|ops| - 1], ops[|ops| - 1];
      TrieRefinesMap(hash, front, key);
      UpdateMapStep(hash, Run(hash, front), op.key, NewValue(op), key);
    }
  }

  /** `size` is the number of keys bound, so a map without root is an empty one. */
  lemma {:induction false} SizeIsCardinality<K, V>(hash: K -> Word, ops: seq<Op<K, V>>)
    ensures Run(hash, ops).size == |Model(ops)|
  {
    if ops != [] {
      var front, op := ops[..|ops| - 1], ops[|ops| - 1];
      var before := Run(hash, front);
      SizeIsCardinality(hash, front);
      TrieRefinesMap(hash, front, op.key);
      if Run(hash, ops).root.None? {
        EmptyWithoutRoot(hash, ops);
        if before.root.None? {
          EmptyWithoutRoot(hash, front);
        }
      } else if before.root.Some? {
        RootUpdate(hash, before.root.value, op.key, NewValue(op));
        CardinalityStep(Model(front), op);
      } else {
        EmptyWithoutRoot(hash, front);
      }
    }
  }

  lemma EmptyWithoutRoot<K, V>(hash: K -> Word, ops: seq<Op<K, V>>)
    requires Run(hash, ops).root.None?
    ensures Model(ops) == map[]
  {
    if k :| k in Model(ops) {
      TrieRefinesMap(hash, ops, k);
    }
  }

  lemma CardinalityStep<K, V>(m: map<K, V>, op: Op<K, V>)
    ensures op.Set? ==> |m[op.key := op.value]| == |m| + if op.key in m then 0 else 1
    ensures op.Remove? ==> |m - {op.key}| == |m| - if op.key in m then 1 else 0
  {
    if op.Set? {
      assert m[op.key := op.value].Keys == m.Keys + {op.key};
    } else {
      assert (m - {op.key}).Keys == m.Keys - {op.key};
    }
  }

  // ---- The size of the nodes ----

  /** Up to eight entries in a list, up to sixteen children under a bitmap, eight to thirty-two in an array. */
  ghost predicate WithinLimits<K, V>(n: Node<K, V>)
    decreases n
  {
    match n
    case ArrayMap(entries) => 1 <= |entries| <= 8
    case HashCollision(_, entries) => 2 <= |entries|
    case Value(_, _) => true
    case BitmapIndexed(_, nodes) => 1 <= |nodes| <= 16 && forall i | 0 <= i < |nodes| :: WithinLimits(nodes[i])
    case HashArrayMap(count, slots) =>
      8 <= count <= 32 && |slots| == 32 && forall i | 0 <= i < 32 && slots[i].Some? :: WithinLimits(slots[i].value)
  }

  lemma {:induction false} ValidIsWithinLimits<K, V>(hash: K -> Word, n: Node<K, V>, path: seq<nat>)
    requires Valid(hash, n, path)
    ensures WithinLimits(n)
    decreases n
  {
    if n.HashArrayMap? {
      forall i | 0 <= i < 32 && n.slots[i].Some?
        ensures WithinLimits(n.slots[i].value)
      {
        assert Child(n, i) == n.slots[i];
        ValidIsWithinLimits(hash, n.slots[i].value, path + [i]);
      }
      RankBounds(Occupied(n.slots), 0, 32);
    } else if n.BitmapIndexed? {
      forall i | 0 <= i < |n.nodes|
        ensures WithinLimits(n.nodes[i])
      {
        var c := PositionOfSlot(Bits(n.bitmap), i, 32);
        assert Child(n, c) == Some(n.nodes[i]);
        ValidIsWithinLimits(hash, n.nodes[i], path + [c]);
      }
    }
  }

  /** Every node of every map keeps to these sizes, and the list of a small map is hashed when it gets a ninth entry. */
  lemma RunIsWithinLimits<K, V>(hash: K -> Word, ops: seq<Op<K, V>>, key: K, value: V)
    ensures var root := Run(hash, ops).root;
            root.Some? ==>
              && WithinLimits(root.value)
              && (root.value.ArrayMap? ==>
                    (UpdateMap(hash, Run(hash, ops), key, Some(value)).root.value.ArrayMap? <==>
                       |root.value.entries| < 8 || GetEntry(root.value.entries, key).Some?))
  {
    var root := Run(hash, ops).root;
    if root.Some? {
      ValidIsWithinLimits(hash, root.value, []);
    }
  }
}
