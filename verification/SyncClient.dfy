/** Applying pulled records to the local engines, one by one. */
module SyncClient {
  import opened Keys
  import opened SortedItems
  import opened Records
  import opened RecordTables
  import opened Replication
  import ArrayEngine
  import HashChains
  import HashEngine
  import opened SkipTableModel
  import opened LongKeys
  import opened RbShapes
  import opened RbStamps
  import RbTreeModel
  import RbEngine

  lemma {:induction false} MergeNext(t: Table, d: seq<Record>, i: nat)
    requires i < |d|
    ensures Merge(t, d[..i + 1]) == MergeOne(Merge(t, d[..i]), d[i])
  {
    assert d[..i + 1][..i] == d[..i];
  }

  // ----- where the records go

  /** A newer record takes the place of the old one. */
  function Renewed(d: seq<Record>, rec: Record): seq<Record> {
    seq(|d|, i requires 0 <= i < |d| => if d[i].it.key == rec.it.key && rec.ts > d[i].ts then rec else d[i])
  }

  lemma {:induction false} RenewedNewer(d: seq<Record>, rec: Record, e: seq<Record>)
    requires UniqueKeys(d) && rec.it.key in TableOf(d) && |e| == |d|
    requires forall i :: 0 <= i < |d| ==>
               e[i] == if d[i].it.key == rec.it.key && rec.ts > TableOf(d)[rec.it.key].ts then rec else d[i]
    ensures e == Renewed(d, rec)
  {
    forall i | 0 <= i < |d|
      ensures e[i] == Renewed(d, rec)[i]
    {
      TableAt(d, i);
    }
  }

  /** In an array a new key goes behind the last record. */
  function Stored(d: seq<Record>, rec: Record): seq<Record> {
    if rec.it.key in TableOf(d) then Renewed(d, rec) else d + [rec]
  }

  function StoredAll(d: seq<Record>, recs: seq<Record>): seq<Record> {
    if recs == [] then d else Stored(StoredAll(d, recs[..|recs| - 1]), recs[|recs| - 1])
  }

  /** No record ever changes its place, and new ones come in the order in which they are applied. */
  lemma {:induction false} PlacesStay(d: seq<Record>, a: seq<Record>, b: seq<Record>)
    ensures |StoredAll(d, a)| <= |StoredAll(d, a + b)| <= |StoredAll(d, a)| + |b|
    ensures forall i {:trigger StoredAll(d, a + b)[i]} :: 0 <= i < |StoredAll(d, a)| ==>
              StoredAll(d, a + b)[i].it.key == StoredAll(d, a)[i].it.key
  {
    if b == [] {
      assert a + b == a;
    } else {
      var n := |b| - 1;
      assert (a + b)[..|a + b| - 1] == a + b[..n];
      PlacesStay(d, a, b[..n]);
      var e := StoredAll(d, a + b[..n]);
      assert StoredAll(d, a + b) == Stored(e, b[n]);
    }
  }

  /** In the hash engine it goes to the front of its chain. */
  function Hung(rs: seq<seq<Record>>, rec: Record): (r: seq<seq<Record>>)
    ensures |r| == |rs|
  {
    var s := HashChains.SlotOf(rec.it.key);
    if s >= |rs| then rs
    else rs[s := if rec.it.key in TableOf(rs[s]) then Renewed(rs[s], rec) else [rec] + rs[s]]
  }

  function HungAll(rs: seq<seq<Record>>, recs: seq<Record>): (r: seq<seq<Record>>)
    ensures |r| == |rs|
  {
    if recs == [] then rs else Hung(HungAll(rs, recs[..|recs| - 1]), recs[|recs| - 1])
  }

  lemma ChainHas(rs: seq<seq<Record>>, key: Key)
    requires HashChains.Placed(rs) && |rs| == HashChains.TABLE_SIZE
    ensures key in TableOf(rs[HashChains.SlotOf(key)]) <==> key in TableOf(HashChains.Concat(rs))
  {
    HashChains.SlotLookup(rs, key);
    TableKey(rs[HashChains.SlotOf(key)], key);
  }

  /** A present key is met once in its chain. */
  lemma {:induction false} RenewedAt(d: seq<Record>, rec: Record, j: nat)
    requires UniqueKeys(d) && j < |d| && d[j].it.key == rec.it.key
    ensures Renewed(d, rec) == if rec.ts > d[j].ts then d[j := rec] else d
  {
  }

  lemma {:induction false} HungAt(rs: seq<seq<Record>>, rec: Record, j: nat)
    requires HashChains.Placed(rs) && |rs| == HashChains.TABLE_SIZE
    requires var d := rs[HashChains.SlotOf(rec.it.key)]; j < |d| && d[j].it.key == rec.it.key
    ensures rec.it.key in TableOf(HashChains.Concat(rs))
    ensures var s := HashChains.SlotOf(rec.it.key);
            Hung(rs, rec) == if rec.ts > TableOf(HashChains.Concat(rs))[rec.it.key].ts then rs[s := rs[s][j := rec]] else rs
  {
    hide UniqueKeys, Renewed, TableOf, HashChains.Concat, HashChains.Hashable, HashChains.SlotOf;
    var s := HashChains.SlotOf(rec.it.key);
    HashChains.SlotStamp(rs, s, j);
    ChainHas(rs, rec.it.key);
    assert HashChains.InSlot(rs[s], s);
    RenewedAt(rs[s], rec, j);
    assert rs[s := rs[s]] == rs;
  }

  lemma {:induction false} HungInPlace(rs: seq<seq<Record>>, rec: Record, rs1: seq<seq<Record>>)
    requires HashChains.Placed(rs) && |rs| == HashChains.TABLE_SIZE && rec.it.key in TableOf(HashChains.Concat(rs))
    requires var s := HashChains.SlotOf(rec.it.key);
             if rec.ts > TableOf(HashChains.Concat(rs))[rec.it.key].ts then
               exists j :: 0 <= j < |rs[s]| && rs[s][j].it.key == rec.it.key && rs1 == rs[s := rs[s][j := rec]]
             else rs1 == rs
    ensures rs1 == Hung(rs, rec)
  {
    hide Hung, TableOf, HashChains.Placed, HashChains.Concat, HashChains.SlotOf;
    var s := HashChains.SlotOf(rec.it.key);
    if rec.ts > TableOf(HashChains.Concat(rs))[rec.it.key].ts {
      var j :| 0 <= j < |rs[s]| && rs[s][j].it.key == rec.it.key && rs1 == rs[s := rs[s][j := rec]];
      HungAt(rs, rec, j);
    } else {
      HashChains.SlotLookup(rs, rec.it.key);
      var j :| 0 <= j < |rs[s]| && rs[s][j].it.key == rec.it.key;
      HungAt(rs, rec, j);
    }
  }

  /** The array engine stops at the first record that needs a slot when none is left; the records
      before it, and only they, have been merged. */
  method SyncArray(local: ArrayEngine.Store, d: seq<Record>) returns (ret: int, ghost done: nat)
    requires local.Valid()
    modifies local, local.table
    ensures local.Valid() && done <= |d| && TableOf(local.data) == Merge(TableOf(old(local.data)), d[..done])
    ensures local.data == StoredAll(old(local.data), d[..done])
    ensures ret == 0 <==> done == |d|
    ensures ret != 0 ==> |local.data| == ArrayEngine.ARRAY_SIZE && d[done].it.key !in TableOf(local.data)
  {
    ret, done := 0, 0;
    ghost var t, data0 := TableOf(local.data), local.data;
    for i := 0 to |d|
      invariant local.Valid() && ret == 0 && done == i && TableOf(local.data) == Merge(t, d[..i])
      invariant local.data == StoredAll(data0, d[..i])
    {
      assert d[..i + 1][..i] == d[..i];
      ret := SyncArrayOne(local, d[i]);
      if ret != 0 {
        return;
      }
      done := i + 1;
    }
    assert d[..|d|] == d;
  }

  method SyncArrayOne(local: ArrayEngine.Store, rec: Record) returns (ret: int)
    requires local.Valid()
    modifies local, local.table
    ensures local.Valid()
    ensures ret == 0 ==> TableOf(local.data) == MergeOne(TableOf(old(local.data)), rec)
    ensures ret == 0 ==> local.data == Stored(old(local.data), rec)
    ensures ret != 0 ==> local.data == old(local.data) && |local.data| == ArrayEngine.ARRAY_SIZE && rec.it.key !in TableOf(local.data)
  {
    hide TableOf, Renewed;
    ret := 0;
    ghost var d := local.data;
    var localValue := local.Get(rec.it.key);
    if localValue.Some? {
      var localTimestamp := local.GetTimestamp(rec.it.key);
      if rec.ts > localTimestamp {
        TableKey(local.data, rec.it.key);
        ret := local.Modify(rec.it.key, rec.it.val, rec.ts);
        if ret != 0 {
          assert false;
        }
      }
      RenewedNewer(d, rec, local.data);
    } else {
      ret := local.Set(rec.it.key, rec.it.val, rec.ts);
    }
  }

  method SyncHash(local: HashEngine.HashTable, d: seq<Record>) returns (ret: int)
    requires local.Valid() && forall i :: 0 <= i < |d| ==> HashChains.Hashable(d[i].it.key)
    modifies local, local.table, local.nodes
    ensures local.Valid() && ret == 0 && TableOf(local.Data()) == Merge(TableOf(old(local.Data())), d)
    ensures local.recs == HungAll(old(local.recs), d)
  {
    ret := 0;
    ghost var t, nodes, recs0 := TableOf(local.Data()), local.nodes, local.recs;
    for i := 0 to |d|
      invariant local.Valid() && ret == 0 && TableOf(local.Data()) == Merge(t, d[..i])
      invariant fresh(local.nodes - nodes) && local.recs == HungAll(recs0, d[..i])
    {
      assert d[..i + 1][..i] == d[..i];
      ret := SyncHashOne(local, d[i]);
    }
    assert d[..|d|] == d;
  }

  method SyncHashOne(local: HashEngine.HashTable, rec: Record) returns (ret: int)
    requires local.Valid() && HashChains.Hashable(rec.it.key)
    modifies local, local.table, local.nodes
    ensures local.Valid() && ret == 0 && fresh(local.nodes - old(local.nodes))
    ensures TableOf(local.Data()) == MergeOne(TableOf(old(local.Data())), rec)
    ensures local.recs == Hung(old(local.recs), rec)
  {
    hide TableOf, Renewed, HashChains.Placed;
    ret := 0;
    ghost var rs := local.recs;
    ChainHas(rs, rec.it.key);
    var localValue := local.Get(rec.it.key);
    if localValue.Some? {
      var localTimestamp := local.GetTimestamp(rec.it.key);
      if rec.ts > localTimestamp {
        ret := local.Modify(rec.it.key, rec.it.val, rec.ts);
      }
      HungInPlace(rs, rec, local.recs);
    } else {
      ret := local.Set(rec.it.key, rec.it.val, rec.ts);
    }
  }

  /** What becomes of a record in the skip list: key and value are cut. */
  function Trim(rec: Record): Record { Record(Item(Cut(rec.it.key), Cut(rec.it.val)), rec.ts) }

  function Trimmed(d: seq<Record>): seq<Record> {
    seq(|d|, i requires 0 <= i < |d| => Trim(d[i]))
  }

  /** What applying one record makes of the list. */
  function Applied(d: seq<Record>, rec: Record): seq<Record> {
    var r := Rank(ItemsOf(d), rec.it.key);
    if !Has(ItemsOf(d), rec.it.key) then Spliced(d, r, Trim(rec))
    else if rec.ts > d[r].ts then Put(d, Record(Item(rec.it.key, Cut(rec.it.val)), rec.ts))
    else d
  }

  function AppliedAll(d: seq<Record>, recs: seq<Record>): seq<Record> {
    if recs == [] then d else Applied(AppliedAll(d, recs[..|recs| - 1]), recs[|recs| - 1])
  }

  /** The record's key fits its field, or what is kept of it is not there. */
  predicate CutFree(t: Table, rec: Record) { |rec.it.key| <= FIELD || Cut(rec.it.key) !in t }

  /** So it is for each of the first `n` records when its turn comes. */
  ghost predicate CutsFree(t: Table, recs: seq<Record>, n: nat)
    requires n <= |recs|
  {
    forall i {:trigger recs[i]} :: 0 <= i < n ==> CutFree(Merge(t, Trimmed(recs)[..i]), recs[i])
  }

  /** The list holds each key once exactly if it did and no cut key met itself; then applying the record
      is a merge. */
  lemma AppliedTable(d: seq<Record>, rec: Record)
    requires Sorted(ItemsOf(d)) && Kept(ItemsOf(d))
    ensures Sorted(ItemsOf(Applied(d, rec))) <==> CutFree(TableOf(d), rec)
    ensures CutFree(TableOf(d), rec) ==> TableOf(Applied(d, rec)) == MergeOne(TableOf(d), Trim(rec))
  {
    hide Sorted, Less, Ascending, Kept;
    var w, key := ItemsOf(d), rec.it.key;
    SortedAscends(w);
    TableRank(d, key);
    if Has(w, key) {
      AppliedPresent(d, rec);
    } else {
      TableRank(d, Cut(key));
      SplicedItems(d, Rank(w, key), Trim(rec));
      SplicedStrict(w, key, Cut(rec.it.val));
      if CutFree(TableOf(d), rec) {
        CutRank(w, key);
        PutSorted(d, Trim(rec));
      }
    }
  }

  lemma AppliedPresent(d: seq<Record>, rec: Record)
    requires Kept(ItemsOf(d)) && Sorted(ItemsOf(d)) && Has(ItemsOf(d), rec.it.key)
    ensures |rec.it.key| <= FIELD && Sorted(ItemsOf(Applied(d, rec)))
    ensures TableOf(Applied(d, rec)) == MergeOne(TableOf(d), Trim(rec))
  {
    if |rec.it.key| > FIELD { LongAbsent(ItemsOf(d), rec.it.key); }
    TableRank(d, rec.it.key);
    PutSorted(d, Trim(rec));
  }

  /** A list that holds a key twice does so for good: applying records takes none away. */
  lemma AppliedStays(d: seq<Record>, rec: Record)
    requires Ascending(ItemsOf(d)) && Sorted(ItemsOf(Applied(d, rec)))
    ensures Sorted(ItemsOf(d))
  {
    var w, r := ItemsOf(d), Rank(ItemsOf(d), rec.it.key);
    if !Has(w, rec.it.key) {
      SplicedItems(d, r, Trim(rec));
      SplicedFrom(w, r, Trim(rec).it);
    } else {
      SameKeysAscend(w, ItemsOf(Applied(d, rec)));
    }
  }

  /** Where the skip list stands after the first `i` records. */
  ghost predicate Merging(data0: seq<Record>, recs: seq<Record>, i: nat, data: seq<Record>)
    requires i <= |recs|
  {
    var t := TableOf(data0);
    && data == AppliedAll(data0, recs[..i])
    && (Sorted(ItemsOf(data0)) ==> (Sorted(ItemsOf(data)) <==> CutsFree(t, recs, i)))
    && (Sorted(ItemsOf(data0)) && CutsFree(t, recs, i) ==> TableOf(data) == Merge(t, Trimmed(recs)[..i]))
  }

  lemma MergingNext(data0: seq<Record>, recs: seq<Record>, i: nat, data: seq<Record>)
    requires i < |recs| && Merging(data0, recs, i, data) && Ascending(ItemsOf(data)) && Kept(ItemsOf(data))
    ensures Merging(data0, recs, i + 1, Applied(data, recs[i]))
  {
    hide Sorted, Ascending, Kept, Applied, CutFree;
    var t := TableOf(data0);
    assert recs[..i + 1][..i] == recs[..i];
    MergeNext(t, Trimmed(recs), i);
    if Sorted(ItemsOf(data)) {
      AppliedTable(data, recs[i]);
    } else if Sorted(ItemsOf(Applied(data, recs[i]))) {
      AppliedStays(data, recs[i]);
    }
  }

  /** Applies the records one by one. If the list held each key once it still does exactly if no cut key
      met itself, and then the records have been merged. */
  method SyncSkip(local: SkipTable, recs: seq<Record>) returns (ret: int)
    requires local.Valid()
    modifies local, local.links.Keys, set n | n in local.links :: n.forward
    ensures local.Valid() && ret == 0 && local.data == AppliedAll(old(local.data), recs)
    ensures Sorted(ItemsOf(old(local.data))) ==>
              (Sorted(ItemsOf(local.data)) <==> CutsFree(TableOf(old(local.data)), recs, |recs|))
    ensures Sorted(ItemsOf(old(local.data))) && CutsFree(TableOf(old(local.data)), recs, |recs|) ==>
              TableOf(local.data) == Merge(TableOf(old(local.data)), Trimmed(recs))
  {
    ghost var data0 := local.data;
    assert Merging(data0, recs, 0, data0);
    ret := SyncFrom(local, recs, data0);
    assert Trimmed(recs)[..|recs|] == Trimmed(recs) && recs[..|recs|] == recs;
  }

  method SyncFrom(local: SkipTable, recs: seq<Record>, ghost data0: seq<Record>) returns (ret: int)
    requires local.Valid() && Merging(data0, recs, 0, local.data)
    modifies local, local.links.Keys, set n | n in local.links :: n.forward
    ensures local.Valid() && ret == 0 && Merging(data0, recs, |recs|, local.data)
  {
    hide Merging;
    ret := 0;
    ghost var links := local.links;
    for i := 0 to |recs|
      invariant local.Valid() && ret == 0 && Merging(data0, recs, i, local.data)
      invariant forall n :: n in local.links && n !in links ==> fresh(n) && fresh(n.forward)
    {
      ret := SyncNext(local, recs, i, data0);
    }
  }

  method SyncNext(local: SkipTable, recs: seq<Record>, i: nat, ghost data0: seq<Record>) returns (ret: int)
    requires local.Valid() && i < |recs| && Merging(data0, recs, i, local.data)
    modifies local, local.links.Keys, set n | n in local.links :: n.forward
    ensures local.Valid() && ret == 0 && Merging(data0, recs, i + 1, local.data)
    ensures forall n :: n in local.links && n !in old(local.links) ==> fresh(n) && fresh(n.forward)
  {
    hide Merging, Applied;
    local.AllKept();
    MergingNext(data0, recs, i, local.data);
    ret := SyncSkipOne(local, recs[i]);
  }

  method SyncSkipOne(local: SkipTable, rec: Record) returns (ret: int)
    requires local.Valid()
    modifies local, local.links.Keys, set n | n in local.links :: n.forward
    ensures local.Valid() && ret == 0 && local.data == Applied(old(local.data), rec)
    ensures forall n :: n in local.links && n !in old(local.links) ==> fresh(n) && fresh(n.forward)
  {
    hide Put, Rank, ItemsOf, Sorted, Ascending;
    ret := 0;
    var localValue := local.Get(rec.it.key);
    if localValue.Some? {
      var localTimestamp := local.GetTimestamp(rec.it.key);
      if rec.ts > localTimestamp {
        ret := local.Modify(rec.it.key, rec.it.val, rec.ts);
      }
    } else {
      ret := local.Set(rec.it.key, rec.it.val, rec.ts);
    }
  }

  /** The tree is sound, has the shape `s`, and its records make up the table `t`. */
  ghost predicate TreeHolds(local: RbTreeModel.RbTree, s: Shape, t: Table)
    reads local, local.mem.Keys
  {
    match s
    case Leaf => local.Valid() && local.shape == s && Stamps(s) == t
    case Br(_, _, _, _, _, _) => local.Valid() && local.shape == s && Stamps(s) == t
  }

  /** What applying one record makes of the tree; a new key gets a node of its own. */
  ghost function GrownOne(t: Shape, rec: Record, node: Node): Shape {
    if rec.it.key !in Stamps(t) then RbEngine.InsertedWith(t, node, rec.it, rec.ts)
    else if rec.ts > Stamps(t)[rec.it.key].ts && Search(t, rec.it.key).Br? then RbEngine.RewrittenWith(t, rec.it, rec.ts)
    else t
  }

  ghost function Grown(t: Shape, recs: seq<Record>, nodes: seq<Node>): Shape
    requires |nodes| == |recs|
  {
    if recs == [] then t
    else GrownOne(Grown(t, recs[..|recs| - 1], nodes[..|recs| - 1]), recs[|recs| - 1], nodes[|recs| - 1])
  }

  lemma {:induction false} GrownNext(t: Shape, recs: seq<Record>, i: nat, nodes: seq<Node>, node: Node)
    requires |nodes| == i < |recs|
    ensures Grown(t, recs[..i + 1], nodes + [node]) == GrownOne(Grown(t, recs[..i], nodes), recs[i], node)
  {
    assert recs[..i + 1][..i] == recs[..i] && (nodes + [node])[..i] == nodes;
  }

  method SyncRb(local: RbTreeModel.RbTree, d: seq<Record>) returns (ret: int)
    requires local.Valid()
    modifies local, local.mem.Keys
    ensures local.Valid() && ret == 0 && Stamps(local.shape) == Merge(Stamps(old(local.shape)), d)
    ensures fresh(local.mem.Keys - old(local.mem.Keys))
    ensures exists nodes: seq<Node> :: |nodes| == |d| && local.shape == Grown(old(local.shape), d, nodes)
  {
    hide GrownOne;
    ret := 0;
    ghost var t, s, nodes := Stamps(local.shape), local.shape, [];
    assert TreeHolds(local, local.shape, t);
    for i := 0 to |d|
      invariant ret == 0 && fresh(local.mem.Keys - old(local.mem.Keys))
      invariant TreeHolds(local, local.shape, Merge(t, d[..i]))
      invariant |nodes| == i && local.shape == Grown(s, d[..i], nodes)
    {
      MergeNext(t, d, i);
      ghost var node;
      ret, node := SyncRbOne(local, d[i], Merge(t, d[..i]));
      GrownNext(s, d, i, nodes, node);
      nodes := nodes + [node];
    }
    assert d[..|d|] == d;
  }

  method SyncRbOne(local: RbTreeModel.RbTree, rec: Record, ghost t: Table) returns (ret: int, ghost node: Node)
    requires TreeHolds(local, local.shape, t)
    modifies local, local.mem.Keys
    ensures ret == 0 && TreeHolds(local, local.shape, MergeOne(t, rec)) && fresh(local.mem.Keys - old(local.mem.Keys))
    ensures local.shape == GrownOne(old(local.shape), rec, node)
  {
    hide Items, RbTreeModel.RbTree.On, RbEngine.InsertedWith, Search;
    ret, node := 0, local.nil;
    ghost var s := local.shape;
    StampsKeys(local.shape, rec.it.key);
    var localValue := RbEngine.Get(local, rec.it.key);
    if localValue.Some? {
      var localTimestamp := RbEngine.GetTimestamp(local, rec.it.key);
      if rec.ts > localTimestamp {
        ret := RbEngine.Modify(local, rec.it.key, rec.it.val, rec.ts);
      }
    } else {
      ret := RbEngine.Set(local, rec.it.key, rec.it.val, rec.ts);
      node :| local.shape == RbEngine.InsertedWith(s, node, rec.it, rec.ts);
    }
  }
}
