/** A whole `SYNC` exchange between two servers: the remote engine is listed and rendered, the text
    is parsed, and the records are applied to the local engine. */
module PullSession {
  import opened SortedItems
  import opened Records
  import opened RecordTables
  import opened Replication
  import opened Wire
  import opened WireRoundTrip
  import opened SyncClient
  import ArrayEngine
  import HashChains
  import HashEngine
  import opened RbStamps
  import opened RbTreeModel
  import RbEngine

  /** The local table becomes the join of both if the remote one is dumpable, and gains a bogus key if
      the remote one is empty. A local array that runs full keeps the records merged so far. */
  ghost predicate Pulled(t: Table, remote: seq<Record>, t1: Table) {
    && (remote != [] && Plain(remote) ==> t1 == Join(t, TableOf(remote)))
    && (remote == [] ==> t1.Keys == t.Keys + {EMPTY})
  }

  lemma {:induction false} PullMeans(t: Table, d: seq<Record>, r: seq<Record>)
    requires UniqueKeys(d) && Stamped(d) && Parsed(r, Lines(Answer(d)))
    ensures Pulled(t, d, Merge(t, r))
  {
    if d == [] {
      EmptyRemote(t, r);
    } else if Plain(d) {
      PullOverWire(t, d, r);
    }
  }

  lemma SameRecords(d: seq<Record>, r: seq<Record>)
    requires Stamped(d) && Parsed(r, Lines(Answer(d)))
    ensures d != [] && Plain(d) ==> r == d
  {
    if d != [] && Plain(d) { RoundTrip(d, r); }
  }

  method DumpArray(remote: ArrayEngine.Store) returns (text: Text)
    requires remote.Valid()
    ensures text == Answer(remote.data)
  {
    var items, count := remote.GetAll();
    var response := Render(if count == 0 then [] else items[..]);
    text := response + [NEWLINE];
  }

  method DumpHash(remote: HashEngine.HashTable) returns (text: Text)
    requires remote.Valid()
    ensures text == Answer(remote.Data())
  {
    var items, count := remote.GetAll();
    var response := Render(if count == 0 then [] else items[..]);
    text := response + [NEWLINE];
  }

  method DumpRb(remote: RbTree) returns (text: Text)
    requires remote.Valid()
    ensures text == Answer(Recs(remote.shape))
  {
    var items, count := RbEngine.GetAll(remote);
    var response := Render(if count == 0 then [] else items[..]);
    text := response + [NEWLINE];
  }

  /** The tree is read before it is written, so a server may even pull from itself. */
  method PullRb(local: RbTree, remote: RbTree) returns (ret: int)
    requires local.Valid() && remote.Valid() && Stamped(Recs(remote.shape))
    modifies local, local.mem.Keys
    ensures local.Valid() && fresh(local.mem.Keys - old(local.mem.Keys))
    ensures ret == 0 && Pulled(Stamps(old(local.shape)), Recs(old(remote.shape)), Stamps(local.shape))
    ensures Recs(old(remote.shape)) != [] && Plain(Recs(old(remote.shape))) ==>
              exists nodes :: |nodes| == |Recs(old(remote.shape))|
                && local.shape == Grown(old(local.shape), Recs(old(remote.shape)), nodes)
  {
    var text := DumpRb(remote);
    var data := Parse(text);
    SameRecords(Recs(remote.shape), data);
    ghost var t, d := Stamps(local.shape), Recs(remote.shape);
    RecItems(remote.shape);
    SortedUnique(d);
    PullMeans(t, d, data);
    ret := SyncRb(local, data);
  }

  method PullArray(local: ArrayEngine.Store, remote: ArrayEngine.Store) returns (ret: int)
    requires local.Valid() && remote.Valid() && local != remote && local.table != remote.table && Stamped(remote.data)
    modifies local, local.table
    ensures local.Valid() && remote.Valid() && remote.data == old(remote.data)
    ensures ret == 0 ==> Pulled(TableOf(old(local.data)), remote.data, TableOf(local.data))
    ensures ret == 0 && remote.data != [] && Plain(remote.data) ==>
              local.data == StoredAll(old(local.data), remote.data)
    ensures ret != 0 ==> |local.data| == ArrayEngine.ARRAY_SIZE
  {
    var text := DumpArray(remote);
    var data := Parse(text);
    SameRecords(remote.data, data);
    PullMeans(TableOf(local.data), remote.data, data);
    ghost var done;
    ret, done := SyncArray(local, data);
    assert data[..|data|] == data;
  }

  ghost predicate AllHashable(d: seq<Record>) {
    forall i {:trigger d[i]} :: 0 <= i < |d| ==> HashChains.Hashable(d[i].it.key)
  }

  /** Whatever is read back from a dump has keys with a slot. */
  ghost predicate ReadsHashable(d: seq<Record>) {
    forall r: seq<Record> {:trigger Parsed(r, Lines(Answer(d)))} :: Parsed(r, Lines(Answer(d))) ==> AllHashable(r)
  }

  /** That is so for the dump of an empty table, and of one with single words. */
  lemma HashableBack(d: seq<Record>)
    requires Stamped(d) && Plain(d) && AllHashable(d)
    ensures ReadsHashable(d)
  {
    forall r: seq<Record> | Parsed(r, Lines(Answer(d)))
      ensures AllHashable(r)
    {
      if d == [] {
        EmptyBack(r);
      } else {
        RoundTrip(d, r);
      }
    }
  }

  lemma {:induction false} EmptyBack(r: seq<Record>)
    requires Parsed(r, Lines(Answer([])))
    ensures AllHashable(r)
  {
    hide *;
    EmptyRemote(map[], r);
    OneHashable(r);
  }

  lemma OneHashable(r: seq<Record>)
    requires |r| == 1 && r[0].it == Item(EMPTY, [])
    ensures AllHashable(r)
  {
    HashChains.AsciiHashable(EMPTY);
    assert r[0].it.key == EMPTY;
  }

  method PullHash(local: HashEngine.HashTable, remote: HashEngine.HashTable) returns (ret: int)
    requires local.Valid() && remote.Valid() && Stamped(remote.Data()) && ReadsHashable(remote.Data())
    requires local != remote && local.table != remote.table && local.nodes !! remote.nodes
    modifies local, local.table, local.nodes
    ensures local.Valid() && remote.Valid() && remote.Data() == old(remote.Data())
    ensures ret == 0 && Pulled(TableOf(old(local.Data())), remote.Data(), TableOf(local.Data()))
    ensures remote.Data() != [] && Plain(remote.Data()) ==> local.recs == HungAll(old(local.recs), remote.Data())
  {
    var text := DumpHash(remote);
    var data := Parse(text);
    SameRecords(remote.Data(), data);
    ghost var d, t := remote.Data(), TableOf(local.Data());
    HashUnique(remote);
    PullMeans(t, d, data);
    assert AllHashable(data);
    ret := SyncHash(local, data);
  }

  lemma HashUnique(remote: HashEngine.HashTable)
    requires remote.Valid()
    ensures UniqueKeys(remote.Data()) && AllHashable(remote.Data())
  {
    HashChains.ConcatUnique(remote.recs);
  }
}
