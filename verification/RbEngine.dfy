/** The key-value operations of the red-black engine. */
module RbEngine {
  import opened Keys
  import opened SortedItems
  import opened SortedRanges
  import opened RbShapes
  import opened RbBalance
  import opened RbOrder
  import opened RbTreeModel
  import opened Records
  import opened RecordTables
  import opened RecordRanges
  import opened RbStamps

  method Get(inst: RbTree, key: Key) returns (value: Option<Value>)
    requires inst.Valid()
    ensures value == match Lookup(Items(inst.shape), key) case Some(it) => Some(it.val) case None => None
  {
    var x, y; ghost var c, t, k;
    x, y, c, t, k := inst.Walk(key);
    if x == inst.nil {
      DeadEnd(c, key);
      return None;
    }
    Hit(c, t);
    inst.SeatHere(c, t, k, Items(inst.shape));
    value := Some(x.value);
  }

  /** The stored timestamp; of an absent key, what the sentinel's field holds. */
  method GetTimestamp(inst: RbTree, key: Key) returns (ts: nat)
    requires inst.Valid()
    ensures ts == if key in Stamps(inst.shape) then Stamps(inst.shape)[key].ts else inst.nil.timestamp
  {
    var x, y; ghost var c, t, k;
    x, y, c, t, k := inst.Walk(key);
    FoundStamp(inst, c, t, k, key);
    ts := x.timestamp;
  }

  lemma FoundStamp(inst: RbTree, c: Path, t: Shape, k: nat, key: Key)
    requires inst.Valid() && inst.Seat(c, t, k, Items(inst.shape)) && Gap(c, key) && (t.Br? ==> t.it.key == key)
    ensures if key in Stamps(inst.shape) then t.Br? && t.node.timestamp == Stamps(inst.shape)[key].ts else t.Leaf?
  {
    StampsKeys(inst.shape, key);
    inst.SeatHere(c, t, k, Items(inst.shape));
    if t.Br? {
      NodeListed(inst.mem, inst.nil, inst.nil, inst.shape, t.node);
      StampsAt(inst.shape, Content(inst.mem[t.node]));
    } else {
      DeadEnd(c, key);
    }
  }

  /** The tree with a new node. */
  ghost function InsertedWith(t: Shape, node: Node, it: Item, ts: nat): Shape {
    InsertFixed(Descent(t, it.key), Br(node, Red, it, ts, Leaf, Leaf))
  }

  method Set(inst: RbTree, key: Key, value: Value, timestamp: nat) returns (code: int)
    requires inst.Valid()
    modifies inst, inst.mem.Keys
    ensures inst.Valid() && inst.nil.timestamp == old(inst.nil.timestamp) && fresh(inst.mem.Keys - old(inst.mem.Keys))
    ensures code == if Has(old(Items(inst.shape)), key) then 1 else 0
    ensures Items(inst.shape)
         == if code == 0 then Upsert(old(Items(inst.shape)), Item(key, value)) else old(Items(inst.shape))
    ensures Stamps(inst.shape)
         == if code == 0 then Stamps(old(inst.shape))[key := Stamp(value, timestamp)] else Stamps(old(inst.shape))
    ensures code == 0 ==> exists node :: inst.shape == InsertedWith(old(inst.shape), node, Item(key, value), timestamp)
    ensures code != 0 ==> inst.shape == old(inst.shape)
  {
    hide RbTree.Valid, RbTree.On, Items, TableOf, InsertedWith;
    var present := Get(inst, key);
    if present.Some? {
      return 1;
    }
    var node := new Node();
    node.key, node.value, node.timestamp := key, value, timestamp;
    InsertNode(inst, node);
    code := 0;
  }

  /** The tree in memory is the one of the shape. */
  lemma Spelled(inst: RbTree)
    requires inst.Valid()
    ensures Rep(inst.mem, inst.nil, inst.nil, inst.shape) && inst.mem.Keys == Ids(inst.shape) + {inst.nil}
    ensures inst.nil !in Ids(inst.shape) && Sorted(Items(inst.shape))
    ensures forall n {:trigger n in inst.mem} :: n in inst.mem ==> inst.mem[n] == RecOf(n)
  {
    RepLive(inst.mem, inst.nil, inst.nil, inst.shape);
  }

  /** Inserts a node whose key is new. */
  method InsertNode(inst: RbTree, node: Node)
    requires inst.Valid() && node !in inst.mem && !Has(Items(inst.shape), node.key)
    modifies inst, inst.mem.Keys, node
    ensures inst.Valid() && inst.nil.timestamp == old(inst.nil.timestamp) && inst.mem.Keys == old(inst.mem.Keys) + {node}
    ensures Items(inst.shape) == Upsert(old(Items(inst.shape)), old(Item(node.key, node.value)))
    ensures Stamps(inst.shape) == Stamps(old(inst.shape))[old(node.key) := old(Stamp(node.value, node.timestamp))]
    ensures inst.shape == InsertedWith(old(inst.shape), node, old(Item(node.key, node.value)), old(node.timestamp))
  {
    hide RbTree.Mirrored, Items, Stamps, RbTree.Seat, Upsert, Has, Sorted, InsertFixed, Descent;
    ghost var h, t := inst.mem, inst.shape;
    Spelled(inst);
    inst.Insert(node);
    assert Stamps(inst.shape) == Stamps(t)[node.key := Stamp(node.value, node.timestamp)] by {
      inst.ContentKept(h.Keys);
      Spelled(inst);
      assert inst.mem[node] == RecOf(node);
      InsertedStamps(h, inst.mem, inst.nil, t, inst.shape, node);
    }
  }

  /** Walk has come to where a search in the shape comes. */
  lemma {:induction false} FoundBySearch(inst: RbTree, c: Path, t: Shape, k: nat, key: Key)
    requires inst.Valid() && inst.Seat(c, t, k, Items(inst.shape)) && Gap(c, key) && (t.Br? ==> t.it.key == key)
    ensures Search(inst.shape, key) == t
  {
    PlugUnique(inst.mem, inst.nil, inst.root, c, t, inst.shape);
    SearchPath(c, t, key);
    if t.Br? { StrcmpZero(key, t.it.key); }
  }

  /** The tree without a key. */
  ghost function RemovedFrom(t: Shape, key: Key): Shape {
    RemovedAt(Descent(t, key), Search(t, key))
  }

  /** Taking a key out gives its successor's item the timestamp of the deleted one if the node of the
      deleted item has two children. */
  method Delete(inst: RbTree, key: Key) returns (code: int)
    requires inst.Valid()
    modifies inst, inst.mem.Keys
    ensures inst.Valid() && inst.nil.timestamp == old(inst.nil.timestamp) && inst.mem.Keys <= old(inst.mem.Keys)
    ensures code == if Has(old(Items(inst.shape)), key) then 0 else -2
    ensures Items(inst.shape)
         == if code == 0 then RemoveAt(old(Items(inst.shape)), Rank(old(Items(inst.shape)), key)) else old(Items(inst.shape))
    ensures Stamps(inst.shape) == StampsWithout(old(inst.shape), key)
    ensures inst.shape == if code == 0 then RemovedFrom(old(inst.shape), key) else old(inst.shape)
  {
    hide RbTree.On, Descent, RemovedAt;
    var x, y; ghost var c, t, k, i;
    x, y, c, t, k := inst.Walk(key);
    i := Found(inst, c, t, k, key);
    FoundBySearch(inst, c, t, k, key);
    if x == inst.nil {
      return -2;
    }
    DeleteNode(inst, x, c, t, k, i);
    code := 0;
  }

  /** Takes out the item of the node that was found. */
  method DeleteNode(inst: RbTree, z: Node, ghost c: Path, ghost t: Shape, ghost k: nat, ghost i: nat)
    requires inst.Valid() && inst.Seat(c, t, k, Items(inst.shape)) && t.Br? && z == t.node && i == Pos(c, t)
    modifies inst, inst.mem.Keys
    ensures inst.Valid() && inst.nil.timestamp == old(inst.nil.timestamp) && inst.mem.Keys <= old(inst.mem.Keys)
    ensures i < |old(Items(inst.shape))| && Items(inst.shape) == RemoveAt(old(Items(inst.shape)), i)
    ensures Stamps(inst.shape) == WithoutKey(old(Items(inst.shape)), Stamps(old(inst.shape)), i, TwoChildren(t))
    ensures inst.shape == RemovedAt(c, t)
  {
    hide RbTree.Seat, Items, Pos, RemovedAt;
    ghost var h, t0 := inst.mem, inst.shape;
    Spelled(inst);
    FoundNode(inst, c, t, k, z, i);
    var gone := inst.Delete(z, c, t, k, i);
    assert Stamps(inst.shape) == WithoutKey(Items(t0), Stamps(t0), i, TwoChildren(t)) by {
      inst.ContentKept(inst.mem.Keys - {z});
      Spelled(inst);
      assert gone != z ==> inst.mem[z] == RecOf(z);
      DeletedStamps(h, inst.mem, inst.nil, t0, inst.shape, z, gone, i);
    }
  }

  lemma FoundNode(inst: RbTree, c: Path, t: Shape, k: nat, z: Node, i: nat)
    requires inst.Valid() && inst.Seat(c, t, k, Items(inst.shape)) && t.Br? && z == t.node && i == Pos(c, t)
    ensures z in inst.mem && z != inst.nil && i < |Items(inst.shape)| && inst.mem[z].it == Items(inst.shape)[i]
  {
    inst.SeatHere(c, t, k, Items(inst.shape));
    inst.SeatPos(c, t, k, Items(inst.shape));
  }

  /** What the walk says about the key. */
  lemma Found(inst: RbTree, c: Path, t: Shape, k: nat, key: Key) returns (i: nat)
    requires inst.Valid() && inst.Seat(c, t, k, Items(inst.shape))
    requires if t.Br? then t.it.key == key else Gap(c, key)
    ensures t.Leaf? <==> !Has(Items(inst.shape), key)
    ensures t.Br? ==> i == Pos(c, t) == Rank(Items(inst.shape), key)
  {
    i := 0;
    if t.Br? {
      Hit(c, t);
      i := Pos(c, t);
    } else {
      DeadEnd(c, key);
    }
  }

  /** The tree with another value and timestamp for a present key. */
  ghost function RewrittenWith(t: Shape, it: Item, ts: nat): Shape
    requires Search(t, it.key).Br?
  {
    Plug(Descent(t, it.key), Search(t, it.key).(it := it, ts := ts))
  }

  method Modify(inst: RbTree, key: Key, value: Value, timestamp: nat) returns (code: int)
    requires inst.Valid()
    modifies inst, inst.mem.Keys
    ensures inst.Valid() && inst.nil.timestamp == old(inst.nil.timestamp) && inst.mem.Keys == old(inst.mem.Keys)
    ensures code == if Has(old(Items(inst.shape)), key) then 0 else -2
    ensures Items(inst.shape)
         == if code == 0 then Upsert(old(Items(inst.shape)), Item(key, value)) else old(Items(inst.shape))
    ensures Stamps(inst.shape)
         == if code == 0 then Stamps(old(inst.shape))[key := Stamp(value, timestamp)] else Stamps(old(inst.shape))
    ensures code != 0 ==> inst.shape == old(inst.shape)
    ensures code == 0 ==>
              Search(old(inst.shape), key).Br? && inst.shape == RewrittenWith(old(inst.shape), Item(key, value), timestamp)
  {
    hide Descent;
    var x, y; ghost var c, t, k, i;
    x, y, c, t, k := inst.Walk(key);
    i := Found(inst, c, t, k, key);
    FoundBySearch(inst, c, t, k, key);
    if x == inst.nil {
      return -2;
    }
    OverwriteFound(inst, x, value, timestamp, c, t, k);
    code := 0;
  }

  method OverwriteFound(inst: RbTree, x: Node, value: Value, timestamp: nat, ghost c: Path, ghost t: Shape, ghost k: nat)
    requires inst.Valid() && inst.Seat(c, t, k, Items(inst.shape)) && t.Br? && x == t.node
    modifies inst, x
    ensures inst.Valid() && inst.nil.timestamp == old(inst.nil.timestamp) && inst.mem.Keys == old(inst.mem.Keys)
    ensures Items(inst.shape) == Upsert(old(Items(inst.shape)), Item(t.it.key, value))
    ensures Stamps(inst.shape) == Stamps(old(inst.shape))[t.it.key := Stamp(value, timestamp)]
    ensures inst.shape == Plug(c, t.(it := Item(t.it.key, value), ts := timestamp))
  {
    hide *;
    ghost var h, t0 := inst.mem, inst.shape;
    Spelled(inst);
    FoundNode(inst, c, t, k, x, Pos(c, t));
    inst.SeatHere(c, t, k, Items(inst.shape));
    inst.Overwrite(x, value, timestamp, c, t, k);
    assert Stamps(inst.shape) == Stamps(t0)[t.it.key := Stamp(value, timestamp)] by {
      Spelled(inst);
      ReplacedStamps(h, inst.mem, inst.nil, t0, inst.shape, x, Item(t.it.key, value), timestamp);
    }
  }

  method Exist(inst: RbTree, key: Key) returns (code: int)
    requires inst.Valid()
    ensures code == if Has(Items(inst.shape), key) then 0 else -2
  {
    var value := Get(inst, key);
    code := if value.Some? then 0 else -2;
  }

  /** The number of nodes at or below `node`. */
  method CountNodes(inst: RbTree, node: Node, ghost c: Path, ghost t: Shape, ghost k: nat, ghost w: seq<Item>)
    returns (n: nat)
    requires inst.Seat(c, t, k, w) && node == Ptr(inst.nil, t)
    ensures n == |Items(t)|
    decreases t
  {
    inst.SeatHere(c, t, k, w);
    if node == inst.nil {
      return 0;
    }
    ghost var c1, t1, k1;
    c1, t1, k1 := inst.SeatDown(c, t, k, w, L);
    var left := CountNodes(inst, node.left, c1, t1, k1, w);
    c1, t1, k1 := inst.SeatDown(c, t, k, w, R);
    var right := CountNodes(inst, node.right, c1, t1, k1, w);
    n := 1 + left + right;
  }

  method Count(inst: RbTree) returns (n: nat)
    requires inst.Valid()
    ensures n == |Items(inst.shape)|
  {
    inst.SeatTop();
    n := CountNodes(inst, inst.root, [], inst.shape, BlackHeight(inst.shape), Items(inst.shape));
  }

  // ----- ranges

  /** `x` is the node at position `i` of the tree, or the sentinel past the last one. */
  ghost predicate Marks(inst: RbTree, x: Node, c: Path, t: Shape, k: nat, w: seq<Item>, i: nat)
    reads inst, inst.mem.Keys
  {
    match t
    case Leaf => x == inst.nil && i == |w|
    case Br(n, _, _, _, _, _) => x == n && x != inst.nil && inst.Seat(c, t, k, w) && i == Pos(c, t) && i < |w|
  }

  /** The node of the first key at or above `lo`. */
  method LowerBound(inst: RbTree, lo: Key) returns (start: Node, ghost c: Path, ghost t: Shape, ghost k: nat)
    requires inst.Valid()
    ensures Marks(inst, start, c, t, k, Items(inst.shape), Rank(Items(inst.shape), lo))
  {
    ghost var w := Items(inst.shape);
    var current := inst.root;
    start, c, t, k := inst.nil, [], Leaf, 0;
    ghost var i: nat := |w|;
    ghost var c1, t1, k1 := [], inst.shape, BlackHeight(inst.shape);
    inst.SeatTop();
    inst.SeatHere(c1, t1, k1, w);
    while current != inst.nil
      invariant inst.Seat(c1, t1, k1, w) && current == Ptr(inst.nil, t1) && (current == inst.nil <==> t1.Leaf?)
      invariant Bracket(c1, lo) && Marks(inst, start, c, t, k, w, i) && i == |Before(c1)| + |Items(t1)|
      decreases t1
    {
      inst.SeatHere(c1, t1, k1, w);
      ghost var d := if Less(t1.it.key, lo) then R else L;
      Turned(c1, t1, lo, d);
      if Strcmp(current.key, lo) >= 0 {
        inst.SeatPos(c1, t1, k1, w);
        start, c, t, k, i := current, c1, t1, k1, Pos(c1, t1);
        current := current.left;
      } else {
        current := current.right;
      }
      c1, t1, k1 := inst.SeatDown(c1, t1, k1, w, d);
      inst.SeatHere(c1, t1, k1, w);
    }
    BracketRank(c1, lo);
  }

  /** Where the remembered node stands relative to the next step of the search. */
  lemma {:induction false} Turned(c: Path, t: Shape, lo: Key, d: Dir)
    requires t.Br? && Sorted(Whole(c, t)) && Bracket(c, lo) && (d == R <==> Less(t.it.key, lo))
    ensures Bracket(c + [FrameOf(t, d)], lo)
    ensures d == L ==> Pos(c, t) == |Before(c + [FrameOf(t, d)])| + |Items(t.left)|
    ensures d == R ==> |Before(c)| + |Items(t)| == |Before(c + [FrameOf(t, d)])| + |Items(t.right)|
  {
    BracketTurn(c, t, lo, d);
    CutBranch(c, t);
  }

  /** The node one position further on. */
  method Next(inst: RbTree, x: Node, ghost c: Path, ghost t: Shape, ghost k: nat, ghost w: seq<Item>, ghost i: nat)
    returns (y: Node, ghost c1: Path, ghost t1: Shape, ghost k1: nat)
    requires Marks(inst, x, c, t, k, w, i) && x != inst.nil
    ensures Marks(inst, y, c1, t1, k1, w, i + 1)
  {
    ghost var ls;
    y, c1, ls, t1, k1 := inst.Successor(x, c, t, k, w);
    if y == inst.nil {
      c1, t1, k1 := [], Leaf, 0;
    } else {
      inst.SeatPos(c1, t1, k1, w);
    }
  }

  /** What the walk reads at a node. */
  lemma MarkedItem(inst: RbTree, x: Node, c: Path, t: Shape, k: nat, w: seq<Item>, i: nat)
    requires Marks(inst, x, c, t, k, w, i)
    ensures x == inst.nil <==> i == |w|
    ensures x != inst.nil ==> i < |w| && w[i] == Item(x.key, x.value)
  {
    if x != inst.nil {
      inst.SeatPos(c, t, k, w);
      inst.SeatHere(c, t, k, w);
    }
  }

  /** How many keys from `start` on are at or below `hi`. */
  method CountWithin(inst: RbTree, start: Node, hi: Key, ghost c0: Path, ghost t0: Shape, ghost k0: nat,
                     ghost w: seq<Item>, ghost r: nat) returns (count: nat)
    requires Marks(inst, start, c0, t0, k0, w, r)
    ensures Reaches(w, r, r + count, hi) && (r + count < |w| ==> Less(hi, w[r + count].key))
  {
    var current := start;
    count := 0;
    ghost var c, t, k := c0, t0, k0;
    MarkedItem(inst, current, c, t, k, w, r);
    while current != inst.nil
      invariant Marks(inst, current, c, t, k, w, r + count) && Reaches(w, r, r + count, hi)
      decreases |w| - r - count
    {
      MarkedItem(inst, current, c, t, k, w, r + count);
      StrcmpFlip(current.key, hi);
      if Strcmp(current.key, hi) > 0 {
        return;
      }
      ReachesOne(w, r, r + count, hi);
      current, c, t, k := Next(inst, current, c, t, k, w, r + count);
      count := count + 1;
    }
    MarkedItem(inst, current, c, t, k, w, r + count);
  }

  /** `v` lists what every node of the tree holds, timestamp included, as `w` lists its items. */
  ghost predicate Lists(inst: RbTree, w: seq<Item>, v: seq<Record>)
    reads inst, inst.mem.Keys
  {
    && Sorted(w) && ItemsOf(v) == w
    && forall n {:trigger n in inst.mem} :: n in inst.mem && n != inst.nil ==> Record(Item(n.key, n.value), n.timestamp) in v
  }

  /** A position in the tree together with the records that are listed. */
  ghost predicate Cursor(inst: RbTree, x: Node, c: Path, t: Shape, k: nat, w: seq<Item>, v: seq<Record>, i: nat)
    reads inst, inst.mem.Keys
  {
    match t
    case Leaf => Marks(inst, x, c, t, k, w, i) && Lists(inst, w, v)
    case Br(_, _, _, _, _, _) => Marks(inst, x, c, t, k, w, i) && Lists(inst, w, v)
  }

  lemma TreeLists(inst: RbTree)
    requires inst.Valid()
    ensures Lists(inst, Items(inst.shape), Recs(inst.shape))
  {
    RecItems(inst.shape);
    Spelled(inst);
    forall n | n in inst.mem && n != inst.nil
      ensures Record(Item(n.key, n.value), n.timestamp) in Recs(inst.shape)
    {
      NodeListed(inst.mem, inst.nil, inst.nil, inst.shape, n);
    }
  }

  /** What the copying loops read at a node. */
  lemma MarkedRecord(inst: RbTree, x: Node, c: Path, t: Shape, k: nat, w: seq<Item>, v: seq<Record>, i: nat)
    requires Marks(inst, x, c, t, k, w, i) && Lists(inst, w, v) && x != inst.nil
    ensures i < |v| && v[i] == Record(Item(x.key, x.value), x.timestamp)
  {
    hide RbTree.Seat;
    MarkedItem(inst, x, c, t, k, w, i);
    inst.SeatHere(c, t, k, w);
    var rec := Record(Item(x.key, x.value), x.timestamp);
    assert rec in v;
    var j :| 0 <= j < |v| && v[j] == rec;
    SortedUnique(v);
    assert v[i].it == w[i];
  }

  /** Copies `results.Length` records from `start` on. */
  method CopyOut(inst: RbTree, start: Node, results: array<Record>, ghost c0: Path, ghost t0: Shape, ghost k0: nat,
                 ghost w: seq<Item>, ghost v: seq<Record>, ghost r: nat) returns (index: nat)
    requires Cursor(inst, start, c0, t0, k0, w, v, r) && r + results.Length <= |w|
    modifies results
    ensures index == results.Length && Copied(results[..], v, r, r + index)
  {
    hide Marks, RbTree.Seat;
    var current := start;
    index := 0;
    ghost var c, t, k, p, done := c0, t0, k0, r, [];
    while current != inst.nil && index < results.Length
      invariant index <= results.Length && p == r + index && Cursor(inst, current, c, t, k, w, v, p)
      invariant results[..index] == done && Copied(done, v, r, p)
      decreases results.Length - index
    {
      current, c, t, k, done := CopyOne(inst, current, results, index, c, t, k, w, v, r, p, done);
      index, p := index + 1, p + 1;
    }
    MarkedItem(inst, current, c, t, k, w, p);
    WholeArray(results, index, done, v, r, p);
  }

  method CopyOne(inst: RbTree, x: Node, results: array<Record>, index: nat, ghost c: Path, ghost t: Shape, ghost k: nat,
                 ghost w: seq<Item>, ghost v: seq<Record>, ghost r: nat, ghost p: nat, ghost done0: seq<Record>)
    returns (y: Node, ghost c1: Path, ghost t1: Shape, ghost k1: nat, ghost done: seq<Record>)
    requires Cursor(inst, x, c, t, k, w, v, p) && x != inst.nil && index < results.Length
    requires results[..index] == done0 && Copied(done0, v, r, p)
    modifies results
    ensures Cursor(inst, y, c1, t1, k1, w, v, p + 1) && results[..index + 1] == done && Copied(done, v, r, p + 1)
  {
    MarkedRecord(inst, x, c, t, k, w, v, p);
    CopiedOne(done0, v, r, p);
    done := done0 + [v[p]];
    Store(results, index, Record(Item(x.key, x.value), x.timestamp), done0);
    y, c1, t1, k1 := Next(inst, x, c, t, k, w, p);
  }

  lemma WholeArray(results: array<Record>, index: nat, done: seq<Record>, v: seq<Record>, r: nat, p: nat)
    requires index == results.Length && results[..index] == done && Copied(done, v, r, p) && p == r + index
    ensures Copied(results[..], v, r, r + index)
  {
    assert results[..index] == results[..];
  }

  ghost predicate Copied(s: seq<Record>, v: seq<Record>, r: nat, p: nat) {
    r <= p <= |v| && s == v[r..p]
  }

  lemma CopiedOne(s: seq<Record>, v: seq<Record>, r: nat, p: nat)
    requires Copied(s, v, r, p) && p < |v|
    ensures Copied(s + [v[p]], v, r, p + 1)
  {
  }

  method Store(results: array<Record>, index: nat, rec: Record, ghost done: seq<Record>)
    requires index < results.Length && results[..index] == done
    modifies results
    ensures results[..index + 1] == done + [rec]
  {
    results[index] := rec;
    assert results[..index] == done;
  }

  /** The records with keys in `[lo, hi]`, in order. */
  method Range(inst: RbTree, lo: Key, hi: Key) returns (code: int, results: array?<Record>)
    requires inst.Valid()
    ensures code == -2 <==> Less(hi, lo)
    ensures code == 1 <==> !Less(hi, lo) && Rank(Items(inst.shape), lo) == |Items(inst.shape)|
    ensures code in {-2, 0, 1, 2} && (code == 0 <==> results != null)
    ensures code == 0 ==> fresh(results) && results.Length > 0 && results[..] == Select(Recs(inst.shape), lo, hi)
    ensures code == 1 || code == 2 ==> Select(Recs(inst.shape), lo, hi) == []
  {
    results := null;
    StrcmpFlip(lo, hi);
    if Strcmp(lo, hi) > 0 {
      return -2, null;
    }
    ghost var w, v, r := Items(inst.shape), Recs(inst.shape), Rank(Items(inst.shape), lo);
    var start; ghost var c, t, k;
    start, c, t, k := LowerBound(inst, lo);
    MarkedItem(inst, start, c, t, k, w, r);
    TreeLists(inst);
    if start == inst.nil {
      WalkSelects(v, w, lo, hi, r, r);
      return 1, null;
    }
    results := Collect(inst, start, lo, hi, c, t, k, w, v, r);
    code := if results == null then 2 else 0;
  }

  /** An ordered walk over the items of a record list finds the records of the range. */
  lemma {:induction false} WalkSelects(v: seq<Record>, w: seq<Item>, lo: Key, hi: Key, r: nat, p: nat)
    requires Sorted(w) && ItemsOf(v) == w && r == Rank(w, lo) && Reaches(w, r, p, hi) && (p < |w| ==> Less(hi, w[p].key))
    ensures Select(v, lo, hi) == v[r..p]
  {
    WalkIsRange(w, lo, hi, p);
    SelectItems(v, lo, hi);
    SortedUnique(v);
    var s := Select(v, lo, hi);
    forall i | 0 <= i < |s|
      ensures s[i] in v
    {
      SelectMember(v, lo, hi, s[i]);
    }
    SliceByItems(s, v, w, r, p);
  }

  lemma SliceByItems(s: seq<Record>, v: seq<Record>, w: seq<Item>, r: nat, p: nat)
    requires UniqueKeys(v) && ItemsOf(v) == w && r <= p <= |w| && ItemsOf(s) == w[r..p]
    requires forall i {:trigger s[i]} :: 0 <= i < |s| ==> s[i] in v
    ensures s == v[r..p]
  {
    assert |s| == p - r;
    forall i | 0 <= i < |s|
      ensures s[i] == v[r + i]
    {
      var j :| 0 <= j < |v| && v[j] == s[i];
      assert s[i].it == w[r..p][i] == w[r + i] == v[r + i].it;
    }
  }

  /** Counts the matches, then copies them into an array of exactly that size. */
  method Collect(inst: RbTree, start: Node, lo: Key, hi: Key, ghost c: Path, ghost t: Shape, ghost k: nat,
                 ghost w: seq<Item>, ghost v: seq<Record>, ghost r: nat) returns (results: array?<Record>)
    requires Marks(inst, start, c, t, k, w, r) && Lists(inst, w, v) && r == Rank(w, lo)
    ensures results == null ==> Select(v, lo, hi) == []
    ensures results != null ==> fresh(results) && results.Length > 0 && results[..] == Select(v, lo, hi)
  {
    hide RbTree.Seat;
    var matchCount := CountWithin(inst, start, hi, c, t, k, w, r);
    WalkSelects(v, w, lo, hi, r, r + matchCount);
    if matchCount == 0 {
      return null;
    }
    var items := new Record[matchCount](_ => Record(Item([], []), 0));
    var count := CopyOut(inst, start, items, c, t, k, w, v, r);
    results := items;
  }

  /** All records, in order. */
  method GetAll(inst: RbTree) returns (results: array?<Record>, count: nat)
    requires inst.Valid()
    ensures count == |Recs(inst.shape)| && (count == 0 <==> results == null)
    ensures count > 0 ==> fresh(results) && results[..] == Recs(inst.shape)
  {
    count := Count(inst);
    RecItems(inst.shape);
    if count == 0 {
      return null, 0;
    }
    results := CollectAll(inst, count);
  }

  method CollectAll(inst: RbTree, count: nat) returns (results: array<Record>)
    requires inst.Valid() && count == |Items(inst.shape)| > 0
    ensures fresh(results) && results[..] == Recs(inst.shape)
  {
    hide RbTree.On;
    var current; ghost var c, t, k;
    current, c, t, k := First(inst);
    results := new Record[count](_ => Record(Item([], []), 0));
    TreeLists(inst);
    RecItems(inst.shape);
    var index := CopyOut(inst, current, results, c, t, k, Items(inst.shape), Recs(inst.shape), 0);
  }

  method First(inst: RbTree) returns (x: Node, ghost c: Path, ghost t: Shape, ghost k: nat)
    requires inst.Valid() && Items(inst.shape) != []
    ensures Marks(inst, x, c, t, k, Items(inst.shape), 0)
  {
    inst.SeatTop();
    x, c, t, k := inst.Mini(inst.root, [], inst.shape, BlackHeight(inst.shape), Items(inst.shape));
    Leftmost(inst, c, t, k, Items(inst.shape));
  }

  lemma Leftmost(inst: RbTree, ls: Path, t: Shape, k: nat, w: seq<Item>)
    requires inst.Seat([] + ls, t, k, w) && AllLeft(ls) && t.Br? && t.left.Leaf?
    ensures Marks(inst, t.node, ls, t, k, w, 0)
  {
    assert [] + ls == ls;
    LeftBefore([], ls);
    inst.SeatPos(ls, t, k, w);
  }
}
