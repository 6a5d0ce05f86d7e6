/** What is saved and loaded into an empty store comes back; of a file that was cut off, exactly what
    is complete in it. */
module SaveRoundTrips {
  import opened Keys
  import opened SortedItems
  import opened SortedMaps
  import opened Records
  import opened RecordTables
  import opened SaveFormat
  import opened SaveEngines
  import opened SaveOrders
  import opened RbShapes
  import RbTreeModel
  import ArrayEngine
  import HashChains
  import HashEngine

  // ----- what a list of items loads as

  lemma {:induction false} AddAllKey(w: seq<Item>, k: Key)
    ensures k in AddAll(map[], w, Unbounded) <==> exists i :: 0 <= i < |w| && w[i].key == k
  {
    if w != [] {
      var n := |w| - 1;
      AddAllKey(w[..n], k);
      if i :| 0 <= i < n && w[..n][i].key == k {
        assert w[i].key == k;
      }
      if i :| 0 <= i < n && w[i].key == k {
        assert w[..n][i].key == k;
      }
    }
  }

  /** Loading items that agree with a map gives a part of that map. */
  lemma {:induction false} AddAllWithin(w: seq<Item>, m: map<Key, Value>, k: Key)
    requires forall i {:trigger w[i]} :: 0 <= i < |w| ==> w[i].key in m && m[w[i].key] == w[i].val
    ensures k in AddAll(map[], w, Unbounded) ==> k in m && AddAll(map[], w, Unbounded)[k] == m[k]
  {
    if w != [] {
      assert w[|w| - 1].key in m;
      AddAllWithin(w[..|w| - 1], m, k);
    }
  }

  /** A store with room for all of them never turns an item down. */
  lemma {:induction false} AddAllRoom(w: seq<Item>, n: nat)
    requires |w| <= n
    ensures AddAll(map[], w, Slots(n)) == AddAll(map[], w, Unbounded) && |AddAll(map[], w, Unbounded)| <= |w|
  {
    if w != [] {
      AddAllRoom(w[..|w| - 1], n);
    }
  }

  lemma {:induction false} AddAllTable(d: seq<Record>)
    requires UniqueKeys(d)
    ensures AddAll(map[], ItemsOf(d), Unbounded) == ValuesOf(TableOf(d))
  {
    if d == [] {
      assert ItemsOf(d) == [];
    } else {
      var n := |d| - 1;
      AddAllTable(d[..n]);
      assert ItemsOf(d)[..n] == ItemsOf(d[..n]);
      TableKey(d[..n], d[n].it.key);
      StampLost(TableOf(d[..n]), d[n].it.key, StampOf(d[n]));
    }
  }

  lemma ItemsPrefix(d: seq<Record>, j: nat)
    requires UniqueKeys(d) && j <= |d|
    ensures ItemsOf(d)[..j] == ItemsOf(d[..j]) && UniqueKeys(d[..j])
  {
  }

  // ----- cut-off files

  /** `u` is what is complete in a file of the items `w` that ends after `n` bytes. */
  ghost predicate Complete(w: seq<Item>, n: nat, u: seq<Item>) {
    && |u| <= |w| && u == w[..|u|]
    && (if n < 4 then u == [] else |Saved(u)| <= n && (|u| < |w| ==> n < |Saved(w[..|u| + 1])|))
  }

  /** The code the load ends with: whether the count is missing, everything is there, or where in the
      next item the file ends. */
  ghost predicate EndsWith(w: seq<Item>, n: nat, u: seq<Item>, ret: int)
    requires Complete(w, n, u)
  {
    ret == if n < 4 then -2 else if |u| == |w| then 0 else CutCode(w[|u|], n - |Saved(u)|)
  }

  /** The file cut off after `n` bytes. */
  function CutOff(file: Bytes, n: nat): Bytes { if n < |file| then file[..n] else file }

  lemma CutLoads(w: seq<Item>, n: nat, u: seq<Item>, rest: Bytes, ret: int)
    requires AllSmall(w) && Loads(CutOff(Saved(w), n), u, rest, ret)
    ensures Complete(w, n, u) && EndsWith(w, n, u, ret) && (ret == 0 <==> n >= |Saved(w)|) && (ret == 0 ==> u == w)
  {
    var s := Saved(w);
    assert s[..|s|] == s;
    LoadTruncated(w, if n < |s| then n else |s|, u, rest, ret);
  }

  lemma {:induction false} RecordsLoaded(d: seq<Record>, w: seq<Item>, n: nat, u: seq<Item>, rest: Bytes, ret: int)
    requires UniqueKeys(d) && w == ItemsOf(d) && AllSmall(w) && Loads(CutOff(Saved(w), n), u, rest, ret)
    ensures Complete(w, n, u) && EndsWith(w, n, u, ret) && (ret == 0 <==> n >= |Saved(w)|)
    ensures |u| <= |d| && AddAll(map[], u, Unbounded) == ValuesOf(TableOf(d[..|u|]))
    ensures ret == 0 ==> d[..|u|] == d
  {
    CutLoads(w, n, u, rest, ret);
    ItemsPrefix(d, |u|);
    AddAllTable(d[..|u|]);
    assert d[..|d|] == d;
  }

  /** What the first `n` bytes of the saved records load as into an empty store. */
  ghost predicate Restored(d: seq<Record>, n: nat, u: seq<Item>, ret: int, m: map<Key, Value>) {
    && Complete(ItemsOf(d), n, u) && EndsWith(ItemsOf(d), n, u, ret) && |u| <= |d|
    && (ret == 0 <==> n >= |Saved(ItemsOf(d))|) && (ret == 0 ==> u == ItemsOf(d))
    && m == ValuesOf(TableOf(d[..|u|])) && (ret == 0 ==> m == ValuesOf(TableOf(d)))
  }

  lemma {:induction false} RestoredFrom(d: seq<Record>, n: nat, u: seq<Item>, rest: Bytes, ret: int)
    requires UniqueKeys(d) && AllSmall(ItemsOf(d)) && Loads(CutOff(Saved(ItemsOf(d)), n), u, rest, ret)
    ensures Restored(d, n, u, ret, AddAll(map[], u, Unbounded))
  {
    hide Saved, Loads, AllSmall, CutOff;
    RecordsLoaded(d, ItemsOf(d), n, u, rest, ret);
    CutLoads(ItemsOf(d), n, u, rest, ret);
  }

  /** In an array the items are then in the slots they were in. */
  lemma {:induction false} RestoredArray(d: seq<Record>, n: nat, u: seq<Item>, rest: Bytes, ret: int)
    requires UniqueKeys(d) && |d| <= ArrayEngine.ARRAY_SIZE && AllSmall(ItemsOf(d))
    requires Loads(CutOff(Saved(ItemsOf(d)), n), u, rest, ret)
    ensures Restored(d, n, u, ret, AddAll(map[], u, Slots(ArrayEngine.ARRAY_SIZE)))
    ensures StoreAll([], u, ArrayEngine.ARRAY_SIZE) == u
  {
    hide Saved, Loads, AllSmall, CutOff, StoreAll, AddAll;
    RestoredFrom(d, n, u, rest, ret);
    AddAllRoom(u, ArrayEngine.ARRAY_SIZE);
    LoadedApart(d, u);
    StoredBack(u, ArrayEngine.ARRAY_SIZE);
  }

  lemma LoadedApart(d: seq<Record>, u: seq<Item>)
    requires UniqueKeys(d) && |u| <= |d| && u == ItemsOf(d)[..|u|]
    ensures DifferentKeys(u)
  {
  }

  /** Saving one array and loading the first `n` bytes of the file into an empty one. */
  method ArrayRoundTrip(src: ArrayEngine.Store, dst: ArrayEngine.Store, n: nat) returns (ret: int, ghost u: seq<Item>)
    requires src.Valid() && dst.Valid() && src != dst && src.table != dst.table && dst.data == []
    requires AllSmall(ItemsOf(src.data))
    modifies dst, dst.table
    ensures dst.Valid() && Restored(src.data, n, u, ret, ValuesOf(TableOf(dst.data))) && ItemsOf(dst.data) == u
  {
    hide Restored, Loads, Saved, AllSmall, StoreAll, AddAll, CutOff;
    ghost var d := src.data;
    EmptyStore(dst.data);
    var file;
    ret, file := SaveArray(src);
    file := CutOff(file, n);
    ghost var rest;
    ret, u, rest := LoadArray(dst, file);
    RestoredArray(d, n, u, rest, ret);
  }

  lemma EmptyStore(d: seq<Record>)
    requires d == []
    ensures ItemsOf(d) == [] && ValuesOf(TableOf(d)) == map[]
  {
  }

  /** Nothing but keys the hash function takes is read from a file of such keys. */
  lemma SavedHashable(w: seq<Item>, n: nat)
    requires AllSmall(w) && n <= |Saved(w)| && forall i {:trigger w[i]} :: 0 <= i < |w| ==> HashChains.Hashable(w[i].key)
    ensures HashableFile(Saved(w)[..n])
  {
    var s := Saved(w)[..n];
    if n >= 4 {
      SavedHead(w, n, s);
      forall u: seq<Item>, rest {:trigger Reads(s[4..], u, rest)} | Reads(s[4..], u, rest) && u != []
        ensures HashChains.Hashable(u[|u| - 1].key)
      {
        var tail, m := ReadsImages(w, n - 4, s[4..], u, rest);
        assert w[|u| - 1] == u[|u| - 1];
      }
    }
  }

  /** The same for a hash table; if all is loaded, every chain has been turned around. */
  method HashRoundTrip(src: HashEngine.HashTable, dst: HashEngine.HashTable, n: nat) returns (ret: int, ghost u: seq<Item>)
    requires src.Valid() && dst.Valid() && src != dst && src.table != dst.table && dst.Data() == []
    requires AllSmall(ItemsOf(src.Data()))
    modifies dst, dst.table
    ensures dst.Valid() && Restored(src.Data(), n, u, ret, ValuesOf(TableOf(dst.Data())))
    ensures ret == 0 ==> ChainsMirrored(dst.recs, src.recs)
  {
    hide Restored, Loads, Saved, AllSmall, PushAll, AddAll, CutOff, ChainsMirrored, TableOf, ChainsOf;
    ghost var d, rs0 := src.Data(), dst.recs;
    HashItems(src, n);
    EmptyStore(dst.Data());
    var file;
    ret, file := SaveHash(src);
    file := CutOff(file, n);
    ghost var rest;
    ret, u, rest := LoadHash(dst, file);
    RestoredFrom(d, n, u, rest, ret);
    if ret == 0 { RestoredChains(src.recs, rs0, dst.recs, n, u, AddAll(map[], u, Unbounded)); }
  }

  ghost predicate ChainsMirrored(rs1: seq<seq<Record>>, rs: seq<seq<Record>>) {
    |rs1| == |rs| && forall s :: 0 <= s < |rs| ==> Mirrored(ItemsOf(rs1[s]), ItemsOf(rs[s]))
  }

  lemma {:induction false} RestoredChains(rs: seq<seq<Record>>, rs0: seq<seq<Record>>, rs1: seq<seq<Record>>, n: nat, u: seq<Item>,
                                          m: map<Key, Value>)
    requires HashChains.Placed(rs) && |rs0| == |rs1| == |rs| && HashChains.Concat(rs0) == []
    requires Restored(HashChains.Concat(rs), n, u, 0, m) && ChainsOf(rs1) == PushAll(ChainsOf(rs0), u)
    ensures ChainsMirrored(rs1, rs)
  {
    ChainsTurned(rs, rs0, rs1);
  }

  lemma HashItems(src: HashEngine.HashTable, n: nat)
    requires src.Valid() && AllSmall(ItemsOf(src.Data()))
    ensures UniqueKeys(src.Data())
    ensures HashableFile(CutOff(Saved(ItemsOf(src.Data())), n))
  {
    HashChains.ConcatUnique(src.recs);
    var w := ItemsOf(src.Data());
    var s := Saved(w);
    assert s[..|s|] == s;
    SavedHashable(w, if n < |s| then n else |s|);
  }

  // ----- the red-black tree

  lemma {:induction false} PreorderMember(t: Shape, it: Item)
    ensures it in Preorder(t) <==> it in Items(t)
  {
    if t.Br? {
      PreorderMember(t.left, it);
      PreorderMember(t.right, it);
    }
  }

  /** Part of the tree's map, and all of it if all nodes are there. */
  lemma {:induction false} PreorderMap(t: Shape, j: nat, k: Key)
    requires Sorted(Items(t)) && j <= |Preorder(t)|
    ensures k in AddAll(map[], Preorder(t)[..j], Unbounded) ==>
              k in ToMap(Items(t)) && ToMap(Items(t))[k] == AddAll(map[], Preorder(t)[..j], Unbounded)[k]
    ensures j == |Preorder(t)| && k in ToMap(Items(t)) ==> k in AddAll(map[], Preorder(t)[..j], Unbounded)
  {
    var p, w := Preorder(t)[..j], Items(t);
    forall i | 0 <= i < |p|
      ensures p[i].key in ToMap(w) && ToMap(w)[p[i].key] == p[i].val
    {
      assert p[i] in Preorder(t);
      PreorderMember(t, p[i]);
      var i1 :| 0 <= i1 < |w| && w[i1] == p[i];
      ValueInMap(w, i1);
    }
    AddAllWithin(p, ToMap(w), k);
    AddAllKey(p, k);
    KeyInMap(w, k);
    if j == |Preorder(t)| && k in ToMap(w) {
      var i :| 0 <= i < |w| && w[i].key == k;
      PreorderMember(t, w[i]);
      assert p == Preorder(t);
      var i1 :| 0 <= i1 < |p| && p[i1] == w[i];
      assert p[i1].key == k;
    }
  }

  lemma {:induction false} PreorderLoaded(t: Shape, n: nat, u: seq<Item>, rest: Bytes, ret: int)
    requires Sorted(Items(t)) && AllSmall(Preorder(t))
    requires Loads(CutOff(Saved(Preorder(t)), n), u, rest, ret)
    ensures Complete(Preorder(t), n, u) && EndsWith(Preorder(t), n, u, ret) && (ret == 0 <==> n >= |Saved(Preorder(t))|)
    ensures ret == 0 ==> AddAll(map[], u, Unbounded) == ToMap(Items(t))
    ensures forall k :: k in AddAll(map[], u, Unbounded) ==> k in ToMap(Items(t)) && ToMap(Items(t))[k] == AddAll(map[], u, Unbounded)[k]
  {
    hide *;
    CutLoads(Preorder(t), n, u, rest, ret);
    forall k: Key
      ensures k in AddAll(map[], u, Unbounded) ==> k in ToMap(Items(t)) && ToMap(Items(t))[k] == AddAll(map[], u, Unbounded)[k]
      ensures ret == 0 && k in ToMap(Items(t)) ==> k in AddAll(map[], u, Unbounded)
    {
      PreorderMap(t, |u|, k);
    }
  }

  method RbRoundTrip(src: RbTreeModel.RbTree, dst: RbTreeModel.RbTree, n: nat) returns (ret: int, ghost u: seq<Item>)
    requires src.Valid() && dst.Valid() && src != dst && src.mem.Keys !! dst.mem.Keys && dst.shape == Leaf
    requires AllSmall(Preorder(src.shape))
    modifies dst, dst.mem.Keys
    ensures dst.Valid() && Complete(Preorder(src.shape), n, u) && EndsWith(Preorder(src.shape), n, u, ret)
    ensures ToMap(Items(dst.shape)) == AddAll(map[], u, Unbounded)
    ensures ret == 0 <==> n >= |Saved(Preorder(src.shape))|
    ensures ret == 0 ==> ToMap(Items(dst.shape)) == ToMap(Items(src.shape))
  {
    hide RbTreeModel.RbTree.On;
    ghost var t := src.shape;
    var file;
    ret, file := SaveRb(src);
    file := CutOff(file, n);
    ghost var rest;
    ret, u, rest := LoadRb(dst, file);
    PreorderLoaded(t, n, u, rest, ret);
  }
}
