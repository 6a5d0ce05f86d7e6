/** Saving the engines to a file and loading them back. A file is the sequence of its bytes; opening,
    writing and closing it always succeed. */
module SaveEngines {
  import opened Keys
  import opened SortedItems
  import opened SortedMaps
  import opened Records
  import opened RecordRanges
  import opened RecordTables
  import opened SaveFormat
  import opened RbShapes
  import opened RbBalance
  import RbTreeModel
  import RbEngine
  import ArrayEngine
  import HashChains
  import HashEngine

  // ----- what loading items does to a map

  datatype Room = Unbounded | Slots(n: nat)

  /** A key that is present keeps its value, and a full store takes no new key. */
  function AddOne(m: map<Key, Value>, it: Item, room: Room): map<Key, Value> {
    if it.key in m || (room.Slots? && |m| >= room.n) then m else m[it.key := it.val]
  }

  function AddAll(m: map<Key, Value>, w: seq<Item>, room: Room): map<Key, Value> {
    if w == [] then m else AddOne(AddAll(m, w[..|w| - 1], room), w[|w| - 1], room)
  }

  lemma {:induction false} AddNext(m: map<Key, Value>, w: seq<Item>, it: Item, room: Room)
    ensures AddAll(m, w + [it], room) == AddOne(AddAll(m, w, room), it, room)
  {
    assert (w + [it])[..|w|] == w;
  }

  /** A present key keeps its value, of a new one the first occurrence counts; nothing else comes in. */
  lemma {:induction false} AddMeans(m: map<Key, Value>, w: seq<Item>, k: Key)
    ensures k in m ==> k in AddAll(m, w, Unbounded) && AddAll(m, w, Unbounded)[k] == m[k]
    ensures k !in m ==> (k in AddAll(m, w, Unbounded) <==> exists i :: FirstWith(w, k, i))
    ensures k !in m ==> forall i :: FirstWith(w, k, i) ==> AddAll(m, w, Unbounded)[k] == w[i].val
  {
    if w != [] {
      var n := |w| - 1;
      AddMeans(m, w[..n], k);
      FirstBefore(w, n, k);
      if k !in AddAll(m, w[..n], Unbounded) && w[n].key == k { FirstNow(w, n, k); }
    }
  }

  ghost predicate FirstWith(w: seq<Item>, k: Key, i: int) {
    0 <= i < |w| && w[i].key == k && forall j :: 0 <= j < i ==> w[j].key != k
  }

  lemma FirstBefore(w: seq<Item>, n: nat, k: Key)
    requires n < |w|
    ensures forall i :: FirstWith(w[..n], k, i) <==> FirstWith(w, k, i) && i < n
  {
  }

  lemma {:induction false} FirstNow(w: seq<Item>, n: nat, k: Key)
    requires n < |w| && w[n].key == k && !exists i :: FirstWith(w[..n], k, i)
    ensures FirstWith(w, k, n)
  {
    if j :| 0 <= j < n && w[j].key == k {
      Least(w[..n], k, j);
    }
  }

  lemma {:induction false} Least(w: seq<Item>, k: Key, j: nat)
    requires j < |w| && w[j].key == k
    ensures exists i :: FirstWith(w, k, i)
  {
    if i :| 0 <= i < j && w[i].key == k {
      Least(w, k, i);
    } else {
      assert FirstWith(w, k, j);
    }
  }

  /** A full store takes nothing, and one that never fills up everything. */
  lemma {:induction false} RoomMeans(m: map<Key, Value>, w: seq<Item>, n: nat)
    ensures |m| >= n ==> AddAll(m, w, Slots(n)) == m
    ensures |AddAll(m, w, Unbounded)| <= n ==> AddAll(m, w, Slots(n)) == AddAll(m, w, Unbounded)
    ensures |m| <= |AddAll(m, w, Unbounded)|
  {
    if w != [] {
      RoomMeans(m, w[..|w| - 1], n);
      var u, it := AddAll(m, w[..|w| - 1], Unbounded), w[|w| - 1];
      if it.key !in u { assert |u[it.key := it.val]| == |u| + 1; }
    }
  }

  /** Slot by slot: a new key goes behind the last one, while there is room. */
  ghost function StoreOne(d: seq<Item>, it: Item, room: nat): seq<Item> {
    if |d| >= room || exists i :: 0 <= i < |d| && d[i].key == it.key then d else d + [it]
  }

  ghost function StoreAll(d: seq<Item>, w: seq<Item>, room: nat): seq<Item> {
    if w == [] then d else StoreOne(StoreAll(d, w[..|w| - 1], room), w[|w| - 1], room)
  }

  /** Chain by chain: a new key goes to the front of its chain. */
  ghost function PushOne(cs: seq<seq<Item>>, it: Item): (r: seq<seq<Item>>)
    ensures |r| == |cs|
  {
    var s := HashChains.SlotOf(it.key);
    if s >= |cs| || exists i :: 0 <= i < |cs[s]| && cs[s][i].key == it.key then cs else cs[s := [it] + cs[s]]
  }

  ghost function PushAll(cs: seq<seq<Item>>, w: seq<Item>): (r: seq<seq<Item>>)
    ensures |r| == |cs|
  {
    if w == [] then cs else PushOne(PushAll(cs, w[..|w| - 1]), w[|w| - 1])
  }

  ghost function ChainsOf(rs: seq<seq<Record>>): seq<seq<Item>> {
    seq(|rs|, s requires 0 <= s < |rs| => ItemsOf(rs[s]))
  }

  // ----- reading and writing

  /** `fread` of one object of `n` bytes. */
  method Fread(s: Bytes, n: int) returns (res: int, buf: Bytes, rest: Bytes)
    ensures res == 1 ==> 0 < n <= |s| && buf == s[..n] && rest == s[n..]
    ensures res != 1 ==> n <= 0 || |s| < n
  {
    if n <= 0 || |s| < n {
      return 0, [], [];
    }
    res, buf, rest := 1, s[..n], s[n..];
  }

  /** Reads a length and as many bytes, taken as a C string: one that runs on behind the buffer if there
      is no NUL in it. */
  method ReadString(s: Bytes, code0: int) returns (code: int, k: Key, rest: Bytes)
    requires code0 < 0
    ensures code != 0 ==> ReadField(s, code0) == Missing(code)
    ensures code == 0 ==> ReadField(s, code0).Field? && ReadField(s, code0).rest == rest
    ensures code == 0 ==> IsString(k, ReadField(s, code0).buf)
  {
    k, rest := [], [];
    var res, buf, t := Fread(s, 4);
    if res != 1 {
      return code0, k, rest;
    }
    var len := IntOf(buf);
    if len < 0 {
      return code0 - 1, k, rest;
    }
    res, buf, t := Fread(t, len);
    if res != 1 {
      return code0 - 2, k, rest;
    }
    assert buf == s[4..4 + len];
    var beyond: Key := *;
    code, k, rest := 0, StringFrom(buf, beyond), t;
  }

  /** Reads one item; `code` is 0 or tells which step failed. */
  method ReadItem(s: Bytes) returns (code: int, key: Key, value: Value, rest: Bytes)
    ensures code != 0 ==> ReadOne(s) == Short(code)
    ensures code == 0 ==> ReadOne(s).Got? && ReadOne(s).rest == rest
    ensures code == 0 ==> IsString(key, ReadOne(s).key) && IsString(value, ReadOne(s).val)
  {
    value := [];
    code, key, rest := ReadString(s, -3);
    if code == 0 {
      code, value, rest := ReadString(rest, -6);
    }
  }

  /** Reads the item behind those read so far. */
  method ReadNext(s: Bytes, ghost file: Bytes, ghost w: seq<Item>) returns (code: int, it: Item, rest: Bytes)
    requires |file| >= 4 && Reads(file[4..], w, s)
    ensures code != 0 ==> ReadOne(s) == Short(code)
    ensures code == 0 ==> Reads(file[4..], w + [it], rest)
  {
    var key, value;
    code, key, value, rest := ReadItem(s);
    it := Item(key, value);
    if code == 0 {
      ReadsSnoc(file[4..], w, s, it);
    }
  }

  /** Writes one item behind what is in the file. */
  method WriteItem(file0: Bytes, key: Key, value: Value) returns (file: Bytes)
    ensures file == file0 + Image(Item(key, value))
  {
    var keyLen, valueLen := |key| + 1, |value| + 1;
    file := file0 + IntBytes(keyLen);
    file := file + (key + [NUL]);
    file := file + IntBytes(valueLen);
    file := file + (value + [NUL]);
  }

  lemma WrittenNext(head: Bytes, w: seq<Item>, i: nat)
    requires i < |w|
    ensures head + Images(w[..i + 1]) == head + Images(w[..i]) + Image(w[i])
  {
    assert w[..i + 1][..i] == w[..i];
    Reassociate(head, Images(w[..i]), Image(w[i]));
  }

  // ----- the array engine

  method SaveArray(store: ArrayEngine.Store) returns (ret: int, file: Bytes)
    requires store.Valid()
    ensures ret == 0 && file == Saved(ItemsOf(store.data))
  {
    file := IntBytes(store.total);
    ghost var w := ItemsOf(store.data);
    for i := 0 to store.total
      invariant file == IntBytes(|w|) + Images(w[..i])
    {
      assert store.table[i] == ArrayEngine.Used(store.data[i]);
      WrittenNext(IntBytes(|w|), w, i);
      file := WriteItem(file, store.table[i].rec.it.key, store.table[i].rec.it.val);
    }
    assert w[..|w|] == w;
    ret := 0;
  }

  method AddToArray(store: ArrayEngine.Store, it: Item, ghost m: map<Key, Value>, ghost w: seq<Item>)
    requires store.Valid() && ValuesOf(TableOf(store.data)) == AddAll(m, w, Slots(ArrayEngine.ARRAY_SIZE))
    modifies store, store.table
    ensures store.Valid() && ValuesOf(TableOf(store.data)) == AddAll(m, w + [it], Slots(ArrayEngine.ARRAY_SIZE))
    ensures ItemsOf(store.data) == StoreOne(ItemsOf(old(store.data)), it, ArrayEngine.ARRAY_SIZE)
  {
    hide TableOf;
    var now: nat := *;
    AddNext(m, w, it, Slots(ArrayEngine.ARRAY_SIZE));
    ItemKey(store.data, it.key);
    ItemsSnoc(store.data, Record(it, now));
    ArrayEngine.TableSize(store.data);
    StampLost(TableOf(store.data), it.key, Stamp(it.val, now));
    var _ := store.Set(it.key, it.val, now);
  }

  lemma {:induction false} ItemKey(d: seq<Record>, key: Key)
    ensures key in TableOf(d) <==> exists i :: 0 <= i < |ItemsOf(d)| && ItemsOf(d)[i].key == key
  {
    TableKey(d, key);
    if i :| 0 <= i < |d| && d[i].it.key == key { assert ItemsOf(d)[i].key == key; }
    if i :| 0 <= i < |ItemsOf(d)| && ItemsOf(d)[i].key == key { assert d[i].it.key == key; }
  }

  lemma StampLost(t: Table, k: Key, stamp: Stamp)
    ensures ValuesOf(t[k := stamp]) == ValuesOf(t)[k := stamp.val]
    ensures k in ValuesOf(t) <==> k in t
    ensures |ValuesOf(t)| == |t|
  {
    assert ValuesOf(t).Keys == t.Keys;
  }

  method LoadArray(store: ArrayEngine.Store, file: Bytes) returns (ret: int, ghost w: seq<Item>, ghost rest: Bytes)
    requires store.Valid()
    modifies store, store.table
    ensures store.Valid() && Loads(file, w, rest, ret)
    ensures ValuesOf(TableOf(store.data)) == AddAll(ValuesOf(TableOf(old(store.data))), w, Slots(ArrayEngine.ARRAY_SIZE))
    ensures ItemsOf(store.data) == StoreAll(ItemsOf(old(store.data)), w, ArrayEngine.ARRAY_SIZE)
  {
    w, rest := [], file;
    var res, buf, s := Fread(file, 4);
    if res != 1 {
      return -2, w, rest;
    }
    ret, w, rest := LoadArrayItems(store, IntOf(buf), s, file);
  }

  method LoadArrayItems(store: ArrayEngine.Store, total: int, s: Bytes, ghost file: Bytes) returns (ret: int, ghost w: seq<Item>, rest: Bytes)
    requires store.Valid() && |file| >= 4 && total == IntOf(file[..4]) && s == file[4..]
    modifies store, store.table
    ensures store.Valid() && Loads(file, w, rest, ret)
    ensures ValuesOf(TableOf(store.data)) == AddAll(ValuesOf(TableOf(old(store.data))), w, Slots(ArrayEngine.ARRAY_SIZE))
    ensures ItemsOf(store.data) == StoreAll(ItemsOf(old(store.data)), w, ArrayEngine.ARRAY_SIZE)
  {
    w, rest := [], s;
    ghost var m, d := ValuesOf(TableOf(store.data)), ItemsOf(store.data);
    var i := 0;
    while i < total
      invariant store.Valid() && |w| == i && (i <= total || i == 0) && Reads(file[4..], w, rest)
      invariant ItemsOf(store.data) == StoreAll(d, w, ArrayEngine.ARRAY_SIZE)
      invariant ValuesOf(TableOf(store.data)) == AddAll(m, w, Slots(ArrayEngine.ARRAY_SIZE))
    {
      var code, it, t := ReadNext(rest, file, w);
      if code != 0 {
        return code, w, rest;
      }
      AddToArray(store, it, m, w);
      assert (w + [it])[..|w|] == w;
      w, rest, i := w + [it], t, i + 1;
    }
    ret := 0;
  }

  // ----- the hash engine

  method SaveHash(store: HashEngine.HashTable) returns (ret: int, file: Bytes)
    requires store.Valid()
    ensures ret == 0 && file == Saved(ItemsOf(store.Data()))
  {
    file := IntBytes(store.count);
    ghost var w := ItemsOf(store.Data());
    for i := 0 to HashChains.TABLE_SIZE
      invariant HashChains.Start(store.recs, i) <= |w|
      invariant file == IntBytes(|w|) + Images(w[..HashChains.Start(store.recs, i)])
    {
      HashChains.StartNext(store.recs, i);
      file := SaveChain(store, i, file, w);
    }
    assert store.recs[..HashChains.TABLE_SIZE] == store.recs && w[..|w|] == w;
    ret := 0;
  }

  method SaveChain(store: HashEngine.HashTable, i: nat, file0: Bytes, ghost w: seq<Item>) returns (file: Bytes)
    requires store.Valid() && i < HashChains.TABLE_SIZE && w == ItemsOf(store.Data())
    requires HashChains.Start(store.recs, i) + |store.recs[i]| <= |w|
    requires file0 == IntBytes(|w|) + Images(w[..HashChains.Start(store.recs, i)])
    ensures file == IntBytes(|w|) + Images(w[..HashChains.Start(store.recs, i) + |store.recs[i]|])
  {
    hide Image, Images, HashChains.InSlot;
    file := file0;
    var current := store.table[i];
    ghost var j: nat, start := 0, HashChains.Start(store.recs, i);
    assert HashChains.Chained(store.table[i], store.chains[i], store.recs[i]);
    while current != null
      invariant j <= |store.recs[i]| && current == HashChains.NodeAt(store.chains[i], j)
      invariant file == IntBytes(|w|) + Images(w[..start + j])
      decreases |store.recs[i]| - j
    {
      var rec, next := store.Visit(current, i, j);
      WrittenNext(IntBytes(|w|), w, start + j);
      file := WriteItem(file, rec.it.key, rec.it.val);
      current, j := next, j + 1;
    }
    assert j == |store.recs[i]|;
  }

  method AddToHash(store: HashEngine.HashTable, it: Item, ghost m: map<Key, Value>, ghost w: seq<Item>)
    requires store.Valid() && HashChains.Hashable(it.key) && ValuesOf(TableOf(store.Data())) == AddAll(m, w, Unbounded)
    modifies store, store.table
    ensures store.Valid() && fresh(store.nodes - old(store.nodes))
    ensures ValuesOf(TableOf(store.Data())) == AddAll(m, w + [it], Unbounded)
    ensures ChainsOf(store.recs) == PushOne(ChainsOf(old(store.recs)), it)
  {
    var now: nat := *;
    AddNext(m, w, it, Unbounded);
    PushedItem(store.recs, Record(it, now));
    StampLost(TableOf(store.Data()), it.key, Stamp(it.val, now));
    var _ := store.Set(it.key, it.val, now);
  }

  lemma {:induction false} PushedItem(rs: seq<seq<Record>>, rec: Record)
    requires HashChains.Placed(rs) && |rs| == HashChains.TABLE_SIZE
    ensures var s := HashChains.SlotOf(rec.it.key);
            ChainsOf(if rec.it.key in TableOf(HashChains.Concat(rs)) then rs else rs[s := [rec] + rs[s]])
            == PushOne(ChainsOf(rs), rec.it)
  {
    var s := HashChains.SlotOf(rec.it.key);
    HashChains.SlotLookup(rs, rec.it.key);
    if j :| 0 <= j < |rs[s]| && rs[s][j].it.key == rec.it.key { assert ChainsOf(rs)[s][j].key == rec.it.key; }
    if j :| 0 <= j < |ChainsOf(rs)[s]| && ChainsOf(rs)[s][j].key == rec.it.key { assert rs[s][j].it.key == rec.it.key; }
    assert ItemsOf([rec] + rs[s]) == [rec.it] + ItemsOf(rs[s]);
  }

  /** Whatever is read from the file, its keys are such as the hash function takes. */
  ghost predicate HashableFile(file: Bytes) {
    |file| >= 4 ==> forall w: seq<Item>, rest {:trigger Reads(file[4..], w, rest)} ::
      Reads(file[4..], w, rest) && w != [] ==> HashChains.Hashable(w[|w| - 1].key)
  }

  lemma LastHashable(file: Bytes, w: seq<Item>, rest: Bytes)
    requires HashableFile(file) && |file| >= 4 && Reads(file[4..], w, rest) && w != []
    ensures HashChains.Hashable(w[|w| - 1].key)
  {
  }

  method LoadHash(store: HashEngine.HashTable, file: Bytes) returns (ret: int, ghost w: seq<Item>, ghost rest: Bytes)
    requires store.Valid() && HashableFile(file)
    modifies store, store.table
    ensures store.Valid() && Loads(file, w, rest, ret)
    ensures ValuesOf(TableOf(store.Data())) == AddAll(ValuesOf(TableOf(old(store.Data()))), w, Unbounded)
    ensures ChainsOf(store.recs) == PushAll(ChainsOf(old(store.recs)), w)
  {
    w, rest := [], file;
    var res, buf, s := Fread(file, 4);
    if res != 1 {
      return -2, w, rest;
    }
    ret, w, rest := LoadHashItems(store, IntOf(buf), s, file);
  }

  method LoadHashItems(store: HashEngine.HashTable, total: int, s: Bytes, ghost file: Bytes) returns (ret: int, ghost w: seq<Item>, rest: Bytes)
    requires store.Valid() && HashableFile(file) && |file| >= 4 && total == IntOf(file[..4]) && s == file[4..]
    modifies store, store.table
    ensures store.Valid() && Loads(file, w, rest, ret)
    ensures ValuesOf(TableOf(store.Data())) == AddAll(ValuesOf(TableOf(old(store.Data()))), w, Unbounded)
    ensures ChainsOf(store.recs) == PushAll(ChainsOf(old(store.recs)), w)
  {
    hide IntOf, HashEngine.HashTable.Valid, UniqueKeys;
    w, rest := [], s;
    ghost var m, cs := ValuesOf(TableOf(store.Data())), ChainsOf(store.recs);
    var i := 0;
    while i < total
      invariant store.Valid() && |w| == i && (i <= total || i == 0) && Reads(file[4..], w, rest)
      invariant ValuesOf(TableOf(store.Data())) == AddAll(m, w, Unbounded) && ChainsOf(store.recs) == PushAll(cs, w)
    {
      var code, it, t := ReadNext(rest, file, w);
      if code != 0 {
        return code, w, rest;
      }
      LastHashable(file, w + [it], t);
      AddToHash(store, it, m, w);
      assert (w + [it])[..|w|] == w;
      w, rest, i := w + [it], t, i + 1;
    }
    ret := 0;
  }

  // ----- the red-black tree engine

  /** Every node before its subtrees. */
  function Preorder(t: Shape): seq<Item> {
    if t.Leaf? then [] else [t.it] + Preorder(t.left) + Preorder(t.right)
  }

  /** Writes `node` and the nodes below it. */
  method SaveNode(inst: RbTreeModel.RbTree, node: Node, file0: Bytes, ghost c: Path, ghost t: Shape, ghost k: nat, ghost w: seq<Item>)
    returns (ret: int, file: Bytes)
    requires inst.Seat(c, t, k, w) && node == Ptr(inst.nil, t)
    ensures ret == 0 && file == file0 + Images(Preorder(t))
    decreases t, 0
  {
    hide Image, Fits, RbTreeModel.RbTree.Seat;
    inst.SeatHere(c, t, k, w);
    if node == inst.nil {
      return 0, file0 + [];
    }
    PreorderImages(file0, t);
    file := WriteItem(file0, node.key, node.value);
    ghost var c1, t1, k1;
    c1, t1, k1 := inst.SeatDown(c, t, k, w, L);
    ret, file := SaveChild(inst, node.left, 0, file, c1, t1, k1, w);
    c1, t1, k1 := inst.SeatDown(c, t, k, w, R);
    ret, file := SaveChild(inst, node.right, ret, file, c1, t1, k1, w);
  }

  /** Skips the sentinel, and then keeps the code there was. */
  method SaveChild(inst: RbTreeModel.RbTree, node: Node, ret0: int, file0: Bytes, ghost c: Path, ghost t: Shape, ghost k: nat, ghost w: seq<Item>)
    returns (ret: int, file: Bytes)
    requires inst.Seat(c, t, k, w) && node == Ptr(inst.nil, t) && ret0 == 0
    ensures ret == 0 && file == file0 + Images(Preorder(t))
    decreases t, 1
  {
    inst.SeatHere(c, t, k, w);
    if node == inst.nil {
      return ret0, file0 + [];
    }
    ret, file := SaveNode(inst, node, file0, c, t, k, w);
  }

  lemma {:induction false} ImagesJoin(a: seq<Item>, b: seq<Item>)
    ensures Images(a + b) == Images(a) + Images(b)
  {
    if b == [] {
      assert a + b == a;
      assert Images(a) + [] == Images(a);
    } else {
      var b0, z := b[..|b| - 1], b[|b| - 1];
      ImagesJoin(a, b0);
      JoinLast(a, b, b0, z);
      Reassociate(Images(a), Images(b0), Image(z));
    }
  }

  lemma {:induction false} JoinLast(a: seq<Item>, b: seq<Item>, b0: seq<Item>, z: Item)
    requires b == b0 + [z]
    ensures Images(b) == Images(b0) + Image(z) && Images(a + b) == Images(a + b0) + Image(z)
  {
    assert b[..|b0|] == b0 && (a + b)[..|a + b| - 1] == a + b0;
  }

  lemma {:induction false} PreorderImages(file: Bytes, t: Shape)
    requires t.Br?
    ensures file + Images(Preorder(t)) == file + Image(t.it) + Images(Preorder(t.left)) + Images(Preorder(t.right))
  {
    var a, l, r := Image(t.it), Images(Preorder(t.left)), Images(Preorder(t.right));
    ImagesJoin([t.it] + Preorder(t.left), Preorder(t.right));
    ImagesCons(t.it, Preorder(t.left));
    Reassociate(file, a + l, r);
    Reassociate(file, a, l);
  }

  method SaveRb(inst: RbTreeModel.RbTree) returns (ret: int, file: Bytes)
    requires inst.Valid()
    ensures ret == 0 && file == Saved(Preorder(inst.shape))
  {
    var total := RbEngine.Count(inst);
    PreorderSize(inst.shape);
    inst.SeatTop();
    ret, file := SaveNode(inst, inst.root, IntBytes(total), [], inst.shape, BlackHeight(inst.shape), Items(inst.shape));
  }

  lemma {:induction false} PreorderSize(t: Shape)
    ensures |Preorder(t)| == |Items(t)|
  {
    if t.Br? {
      PreorderSize(t.left);
      PreorderSize(t.right);
    }
  }

  /** The tree is sound, has the shape `t` and stands for `v`. */
  ghost predicate RbHolds(inst: RbTreeModel.RbTree, t: Shape, v: map<Key, Value>)
    reads inst, inst.mem.Keys
  {
    match t
    case Leaf => inst.Valid() && inst.shape == t && ToMap(Items(t)) == v
    case Br(_, _, _, _, _, _) => inst.Valid() && inst.shape == t && ToMap(Items(t)) == v
  }

  /** An item with a new key gets a node of its own and the time of loading. */
  ghost function PlantedOne(t: Shape, it: Item, at: (Node, nat)): Shape {
    if Has(Items(t), it.key) then t else RbEngine.InsertedWith(t, at.0, it, at.1)
  }

  ghost function Planted(t: Shape, w: seq<Item>, ats: seq<(Node, nat)>): Shape
    requires |ats| == |w|
  {
    if w == [] then t else PlantedOne(Planted(t, w[..|w| - 1], ats[..|w| - 1]), w[|w| - 1], ats[|w| - 1])
  }

  lemma {:induction false} PlantedNext(t: Shape, w: seq<Item>, ats: seq<(Node, nat)>, it: Item, at: (Node, nat))
    requires |ats| == |w|
    ensures Planted(t, w + [it], ats + [at]) == PlantedOne(Planted(t, w, ats), it, at)
  {
    assert (w + [it])[..|w|] == w && (ats + [at])[..|w|] == ats;
  }

  method AddToRb(inst: RbTreeModel.RbTree, it: Item, ghost m: map<Key, Value>, ghost w: seq<Item>)
    returns (ghost at: (Node, nat))
    requires RbHolds(inst, inst.shape, AddAll(m, w, Unbounded))
    modifies inst, inst.mem.Keys
    ensures RbHolds(inst, inst.shape, AddAll(m, w + [it], Unbounded)) && fresh(inst.mem.Keys - old(inst.mem.Keys))
    ensures inst.shape == PlantedOne(old(inst.shape), it, at)
  {
    hide RbEngine.InsertedWith;
    ghost var t := inst.shape;
    var now: nat := *;
    assert RbHolds(inst, inst.shape, AddAll(m, w, Unbounded));
    AddNext(m, w, it, Unbounded);
    LookupMeans(Items(inst.shape), it.key);
    UpsertMeans(Items(inst.shape), it);
    var code := RbEngine.Set(inst, it.key, it.val, now);
    at := (inst.nil, now);
    if code == 0 {
      ghost var node :| inst.shape == RbEngine.InsertedWith(t, node, it, now);
      at := (node, now);
    }
  }

  method LoadRb(inst: RbTreeModel.RbTree, file: Bytes) returns (ret: int, ghost w: seq<Item>, ghost rest: Bytes)
    requires inst.Valid()
    modifies inst, inst.mem.Keys
    ensures inst.Valid() && Loads(file, w, rest, ret)
    ensures ToMap(Items(inst.shape)) == AddAll(ToMap(old(Items(inst.shape))), w, Unbounded)
    ensures exists ats :: |ats| == |w| && inst.shape == Planted(old(inst.shape), w, ats)
  {
    w, rest := [], file;
    var res, buf, s := Fread(file, 4);
    if res != 1 {
      return -2, w, rest;
    }
    ret, w, rest := LoadRbItems(inst, IntOf(buf), s, file);
  }

  method LoadRbItems(inst: RbTreeModel.RbTree, total: int, s: Bytes, ghost file: Bytes) returns (ret: int, ghost w: seq<Item>, rest: Bytes)
    requires inst.Valid() && |file| >= 4 && total == IntOf(file[..4]) && s == file[4..]
    modifies inst, inst.mem.Keys
    ensures inst.Valid() && Loads(file, w, rest, ret)
    ensures ToMap(Items(inst.shape)) == AddAll(ToMap(old(Items(inst.shape))), w, Unbounded)
    ensures exists ats :: |ats| == |w| && inst.shape == Planted(old(inst.shape), w, ats)
  {
    hide RbTreeModel.RbTree.Valid, PlantedOne;
    w, rest := [], s;
    ghost var m, t, ats := ToMap(Items(inst.shape)), inst.shape, [];
    var i := 0;
    assert RbHolds(inst, inst.shape, m);
    while i < total
      invariant fresh(inst.mem.Keys - old(inst.mem.Keys)) && RbHolds(inst, inst.shape, AddAll(m, w, Unbounded))
      invariant |w| == i && (i <= total || i == 0) && Reads(file[4..], w, rest)
      invariant |ats| == |w| && inst.shape == Planted(t, w, ats)
    {
      ret, w, ats, rest := LoadRbItem(inst, rest, file, m, w, t, ats);
      if ret != 0 {
        return;
      }
      i := i + 1;
    }
    ret := 0;
  }

  method LoadRbItem(inst: RbTreeModel.RbTree, s: Bytes, ghost file: Bytes, ghost m: map<Key, Value>, ghost w0: seq<Item>,
                    ghost t: Shape, ghost ats0: seq<(Node, nat)>)
    returns (ret: int, ghost w: seq<Item>, ghost ats: seq<(Node, nat)>, rest: Bytes)
    requires |file| >= 4 && Reads(file[4..], w0, s) && RbHolds(inst, inst.shape, AddAll(m, w0, Unbounded))
    requires |ats0| == |w0| && inst.shape == Planted(t, w0, ats0)
    modifies inst, inst.mem.Keys
    ensures fresh(inst.mem.Keys - old(inst.mem.Keys))
    ensures Reads(file[4..], w, rest) && RbHolds(inst, inst.shape, AddAll(m, w, Unbounded))
    ensures |ats| == |w| && inst.shape == Planted(t, w, ats)
    ensures if ret == 0 then |w| == |w0| + 1 else w == w0 && rest == s && ReadOne(s) == Short(ret)
  {
    hide *;
    w, ats, rest := w0, ats0, s;
    var code, it, s1 := ReadNext(s, file, w0);
    if code != 0 {
      return code, w, ats, rest;
    }
    ghost var at := AddToRb(inst, it, m, w0);
    PlantedNext(t, w0, ats0, it, at);
    ret, w, ats, rest := 0, w0 + [it], ats0 + [at], s1;
  }
}
