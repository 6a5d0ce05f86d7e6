/** Whole runs of the red-black engine: what they leave in the table, and two answers about timestamps
    that are not what a caller expects. */
module RbRuns {
  import opened Keys
  import opened SortedItems
  import opened SortedMaps
  import opened RecordTables
  import opened RbShapes
  import opened RbBalance
  import opened RbStamps
  import opened RbTreeModel
  import RbEngine

  datatype Op = Set(key: Key, val: Value, ts: nat) | Modify(key: Key, val: Value, ts: nat) | Delete(key: Key)

  /** What an operation does to a plain map. */
  function Apply(m: map<Key, Value>, op: Op): map<Key, Value> {
    match op
    case Set(key, val, _) => if key in m then m else m[key := val]
    case Modify(key, val, _) => if key in m then m[key := val] else m
    case Delete(key) => m - {key}
  }

  function ApplyAll(m: map<Key, Value>, ops: seq<Op>): map<Key, Value> {
    if ops == [] then m else Apply(ApplyAll(m, ops[..|ops| - 1]), ops[|ops| - 1])
  }

  /** After any run, one more operation changes at most its own key: it adds it if it was absent, overwrites
      it if it was present, or takes it out. */
  lemma {:induction false} LastDoes(m: map<Key, Value>, ops: seq<Op>, op: Op)
    ensures var f, g := ApplyAll(m, ops), ApplyAll(m, ops + [op]);
            && (forall k :: k != op.key ==> (k in g <==> k in f) && (k in f ==> g[k] == f[k]))
            && (op.Set? ==> op.key in g && g[op.key] == if op.key in f then f[op.key] else op.val)
            && (op.Modify? ==> (op.key in g <==> op.key in f) && (op.key in f ==> g[op.key] == op.val))
            && (op.Delete? ==> op.key !in g)
  {
    assert (ops + [op])[..|ops|] == ops;
  }

  /** The tree is sound, stands for `m`, and its sentinel's timestamp field holds `left`. */
  ghost predicate Holds(inst: RbTree, m: map<Key, Value>, left: nat)
    reads inst, inst.mem.Keys, inst.nil
  {
    inst.Valid() && ToMap(Items(inst.shape)) == m && inst.nil.timestamp == left
  }

  method Perform(inst: RbTree, op: Op, ghost m: map<Key, Value>, ghost left: nat)
    requires Holds(inst, m, left)
    modifies inst, inst.mem.Keys
    ensures Holds(inst, Apply(m, op), left) && fresh(inst.mem.Keys - old(inst.mem.Keys))
  {
    ghost var w := Items(inst.shape);
    LookupMeans(w, op.key);
    match op {
      case Set(key, val, ts) =>
        UpsertMeans(w, Item(key, val));
        var _ := RbEngine.Set(inst, key, val, ts);
      case Modify(key, val, ts) =>
        UpsertMeans(w, Item(key, val));
        var _ := RbEngine.Modify(inst, key, val, ts);
      case Delete(key) =>
        if Has(w, key) {
          RemoveMeans(w, Rank(w, key));
        } else {
          assert ToMap(w) - {key} == ToMap(w);
        }
        var _ := RbEngine.Delete(inst, key);
    }
  }

  /** Every run of the engine is a run of a plain map. */
  method Run(inst: RbTree, ops: seq<Op>)
    requires inst.Valid()
    modifies inst, inst.mem.Keys
    ensures inst.Valid() && ToMap(Items(inst.shape)) == ApplyAll(ToMap(old(Items(inst.shape))), ops)
    ensures inst.nil.timestamp == old(inst.nil.timestamp)
  {
    ghost var m, left := ToMap(Items(inst.shape)), inst.nil.timestamp;
    PerformAll(inst, ops, m, left);
  }

  method PerformAll(inst: RbTree, ops: seq<Op>, ghost m: map<Key, Value>, ghost left: nat)
    requires Holds(inst, m, left)
    modifies inst, inst.mem.Keys
    ensures Holds(inst, ApplyAll(m, ops), left)
  {
    hide Holds;
    for i := 0 to |ops|
      invariant Holds(inst, ApplyAll(m, ops[..i]), left) && fresh(inst.mem.Keys - old(inst.mem.Keys))
    {
      assert ops[..i + 1][..i] == ops[..i];
      Perform(inst, ops[i], ApplyAll(m, ops[..i]), left);
    }
    assert ops[..|ops|] == ops;
  }

  /** After every run from an empty tree, the timestamp of an absent key is answered with 0 exactly if the
      memory of the sentinel happened to hold 0 when the tree was created. */
  method AbsentTimestamp(leftover: nat, ops: seq<Op>, key: Key) returns (ts: nat)
    requires key !in ApplyAll(map[], ops)
    ensures ts == 0 <==> leftover == 0
  {
    var inst := new RbTree(leftover);
    Run(inst, ops);
    StampsKeys(inst.shape, key);
    ts := RbEngine.GetTimestamp(inst, key);
  }

  /** An empty tree answers with what it found in memory. */
  method EmptyTimestamp() returns (ts: nat)
    ensures ts == 7
  {
    var inst := new RbTree(7);
    StampsKeys(inst.shape, [1]);
    ts := RbEngine.GetTimestamp(inst, [1]);
  }

  // ----- the slipping timestamp

  /** A red-black tree of three items has the middle one at its root. */
  lemma ThreeItems(t: Shape)
    requires RedBlack(t) && |Items(t)| == 3
    ensures TwoChildren(t) && |Items(t.left)| == 1
  {
    BhSides(t);
    if t.left.Leaf? {
      LowTree(t.right);
    } else if t.right.Leaf? {
      LowTree(t.left);
    } else {
      SomeItem(t.left);
      SomeItem(t.right);
    }
  }

  lemma BhSides(t: Shape)
    requires RedBlack(t) && t.Br?
    ensures t.left.Leaf? ==> Bh(t.right, 0) && NoRedRed(t.right)
    ensures t.right.Leaf? ==> Bh(t.left, 0) && NoRedRed(t.left)
  {
    var k := BlackHeight(t) - Step(t.color);
    assert Bh(t.left, k) && Bh(t.right, k);
    assert t.left.Leaf? || t.right.Leaf? ==> k == 0;
  }

  lemma SomeItem(t: Shape)
    requires t.Br?
    ensures |Items(t)| > 0
  {
  }

  /** Below a missing sibling there is at most one, red, node. */
  lemma LowTree(t: Shape)
    requires Bh(t, 0) && NoRedRed(t)
    ensures |Items(t)| <= 1
  {
  }

  /** The contents of the tree that the run below builds. */
  lemma Built(w: seq<Item>)
    requires w == Upsert(Upsert(Upsert([], Item([2], [8])), Item([1], [7])), Item([3], [9]))
             || w == [Item([1], [7]), Item([2], [8]), Item([3], [9])]
    ensures w == [Item([1], [7]), Item([2], [8]), Item([3], [9])] && Has(w, [2]) && Rank(w, [2]) == 1
  {
    assert Upsert([], Item([2], [8])) == [Item([2], [8])];
    assert Upsert([Item([2], [8])], Item([1], [7])) == [Item([1], [7]), Item([2], [8])];
    StrcmpZero([2], [2]);
  }

  /** Its root holds the key 2 and has two children. */
  lemma MiddleAtRoot(t: Shape)
    requires RedBlack(t) && Items(t) == [Item([1], [7]), Item([2], [8]), Item([3], [9])]
    ensures Search(t, [2]) == t && TwoChildren(t)
  {
    ThreeItems(t);
    assert Items(t)[1] == t.it;
    StrcmpZero([2], [2]);
  }

  /** The tree is sound and holds these items and these timestamps. */
  ghost predicate Keeps(inst: RbTree, w: seq<Item>, s: Table)
    reads inst, inst.mem.Keys
  {
    inst.Valid() && Items(inst.shape) == w && Stamps(inst.shape) == s
  }

  method PutNew(inst: RbTree, key: Key, val: Value, ts: nat, ghost w: seq<Item>, ghost s: Table)
    requires Keeps(inst, w, s) && !Has(w, key)
    modifies inst, inst.mem.Keys
    ensures Keeps(inst, Upsert(w, Item(key, val)), s[key := Stamp(val, ts)])
    ensures fresh(inst.mem.Keys - old(inst.mem.Keys))
  {
    var _ := RbEngine.Set(inst, key, val, ts);
  }

  lemma EmptyKeeps(inst: RbTree)
    requires inst.Valid() && inst.shape == Leaf
    ensures Keeps(inst, [], map[]) && !Has([], [2])
  {
  }

  method BuildSample() returns (inst: RbTree)
    ensures fresh(inst) && fresh(inst.mem.Keys)
    ensures Keeps(inst, [Item([1], [7]), Item([2], [8]), Item([3], [9])],
                  map[[2] := Stamp([8], 200)][[1] := Stamp([7], 100)][[3] := Stamp([9], 300)])
  {
    hide *;
    inst := new RbTree(0);
    EmptyKeeps(inst);
    ghost var w1, w2 := Building();
    PutNew(inst, [2], [8], 200, [], map[]);
    PutNew(inst, [1], [7], 100, w1, map[[2] := Stamp([8], 200)]);
    PutNew(inst, [3], [9], 300, w2, map[[2] := Stamp([8], 200)][[1] := Stamp([7], 100)]);
  }

  /** The items after one, two and three insertions. */
  lemma Building() returns (w1: seq<Item>, w2: seq<Item>)
    ensures w1 == Upsert([], Item([2], [8])) && !Has(w1, [1])
    ensures w2 == Upsert(w1, Item([1], [7])) && !Has(w2, [3])
    ensures Upsert(w2, Item([3], [9])) == [Item([1], [7]), Item([2], [8]), Item([3], [9])]
  {
    w1 := Upsert([], Item([2], [8]));
    assert w1 == [Item([2], [8])];
    w2 := Upsert(w1, Item([1], [7]));
    assert w2 == [Item([1], [7]), Item([2], [8])];
    Built(Upsert(w2, Item([3], [9])));
  }

  /** What the deletion leaves of the table. */
  lemma SampleSlips(t: Shape)
    requires Sorted(Items(t)) && RedBlack(t) && Items(t) == [Item([1], [7]), Item([2], [8]), Item([3], [9])]
    requires Stamps(t) == map[[2] := Stamp([8], 200)][[1] := Stamp([7], 100)][[3] := Stamp([9], 300)]
    ensures [3] in StampsWithout(t, [2]) && StampsWithout(t, [2])[[3]].ts == 200
  {
    MiddleAtRoot(t);
    Built(Items(t));
    assert [1] != [2] && [3] != [2] by {
      assert [1][0] != [2][0] && [3][0] != [2][0];
    }
  }

  /** Three keys written at times 200, 100 and 300: deleting the key 2 gives the key 3 the timestamp
      that 2 had. */
  method TimestampSlips() returns (before: nat, after: nat)
    ensures before == 300 && after == 200
  {
    var inst := BuildSample();
    before := RbEngine.GetTimestamp(inst, [3]);
    SampleSlips(inst.shape);
    var _ := RbEngine.Delete(inst, [2]);
    after := RbEngine.GetTimestamp(inst, [3]);
  }
}
