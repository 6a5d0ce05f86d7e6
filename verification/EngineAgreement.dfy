/** The four engines answer range queries alike: the ordered ones by a walk, the unordered ones by
    collecting and sorting. */
module EngineAgreement {
  import opened Keys
  import opened SortedItems
  import opened SortedMaps
  import opened Records
  import opened RecordRanges
  import opened RecordTables
  import opened RbShapes
  import opened RbStamps
  import opened RbTreeModel
  import opened SkipTableModel
  import RbEngine
  import HashChains
  import ArrayEngine
  import HashEngine

  /** The items of a record list stand for the values of its table. */
  lemma {:induction false} ItemsMap(d: seq<Record>)
    ensures ToMap(ItemsOf(d)) == ValuesOf(TableOf(d))
  {
    if d != [] {
      var n := |d| - 1;
      ItemsMap(d[..n]);
      assert ItemsOf(d)[..n] == ItemsOf(d[..n]);
    }
  }

  /** A sorted item list and a sorted record list for the same map list the same items. */
  lemma {:induction false} SameListing(w: seq<Item>, d: seq<Record>, t: Table)
    requires Sorted(w) && Sorted(ItemsOf(d)) && ToMap(w) == ValuesOf(t) && TableOf(d) == t
    ensures w == ItemsOf(d)
  {
    ItemsMap(d);
    MapDetermines(w, ItemsOf(d));
  }

  /** What a range query returned; nothing when nothing matched. */
  function Found<T>(results: array?<T>, count: nat): seq<T>
    requires results != null ==> count <= results.Length
    reads results
  {
    if results == null then [] else results[..count]
  }

  /** Engines that hold the same keys, values and timestamps return the same records, in the same
      order. A red-black tree whose timestamps have slipped still returns the same items. */
  method SameRange(skip: SkipTable, arr: ArrayEngine.Store, hash: HashEngine.HashTable, rb: RbTree, lo: Key, hi: Key)
    returns (bySkip: seq<Record>, byArray: seq<Record>, byHash: seq<Record>, byTree: seq<Record>)
    requires skip.Valid() && Sorted(ItemsOf(skip.data)) && arr.Valid() && hash.Valid() && rb.Valid()
    requires TableOf(arr.data) == TableOf(skip.data) && TableOf(hash.Data()) == TableOf(skip.data)
    requires ToMap(Items(rb.shape)) == ValuesOf(TableOf(skip.data))
    ensures !Less(hi, lo) ==> byArray == bySkip && byHash == bySkip && ItemsOf(byTree) == ItemsOf(bySkip)
    ensures !Less(hi, lo) && Stamps(rb.shape) == TableOf(skip.data) ==> byTree == bySkip
    ensures !Less(hi, lo) ==> Sorted(ItemsOf(bySkip)) && TableOf(bySkip) == Restrict(TableOf(skip.data), lo, hi)
  {
    bySkip := RangeOfSkip(skip, lo, hi);
    byArray := RangeOfArray(arr, lo, hi);
    byHash := RangeOfHash(hash, lo, hi);
    byTree := RangeOfTree(rb, lo, hi);
    SortedUnique(skip.data);
    HashChains.ConcatUnique(hash.recs);
    if !Less(hi, lo) {
      SortedSelection(arr.data, skip.data, lo, hi, byArray);
      SortedSelection(hash.Data(), skip.data, lo, hi, byHash);
      SameListing(Items(rb.shape), skip.data, TableOf(skip.data));
      TreeAgrees(rb, skip.data, lo, hi);
      SelectItems(skip.data, lo, hi);
      SelectSorted(skip.data, lo, hi);
      SelectTable(skip.data, lo, hi);
    }
  }

  lemma {:induction false} TreeAgrees(rb: RbTree, d: seq<Record>, lo: Key, hi: Key)
    requires rb.Valid() && Sorted(ItemsOf(d)) && Items(rb.shape) == ItemsOf(d)
    ensures ItemsOf(Select(Recs(rb.shape), lo, hi)) == ItemsOf(Select(d, lo, hi))
    ensures Stamps(rb.shape) == TableOf(d) ==> Recs(rb.shape) == d
  {
    RecItems(rb.shape);
    SelectItems(Recs(rb.shape), lo, hi);
    SelectItems(d, lo, hi);
    if Stamps(rb.shape) == TableOf(d) {
      TableDetermines(Recs(rb.shape), d);
    }
  }

  method RangeOfSkip(skip: SkipTable, lo: Key, hi: Key) returns (found: seq<Record>)
    requires skip.Valid()
    ensures !Less(hi, lo) ==> found == Select(skip.data, lo, hi)
  {
    var code, results, count := skip.Range(lo, hi);
    found := Found(results, count);
  }

  method RangeOfArray(arr: ArrayEngine.Store, lo: Key, hi: Key) returns (found: seq<Record>)
    requires arr.Valid()
    ensures !Less(hi, lo) ==> Sorted(ItemsOf(found)) && forall rec :: rec in found <==> rec in Select(arr.data, lo, hi)
  {
    var code, results, count := arr.Range(lo, hi);
    found := if results == null then [] else results[..];
  }

  method RangeOfHash(hash: HashEngine.HashTable, lo: Key, hi: Key) returns (found: seq<Record>)
    requires hash.Valid()
    ensures !Less(hi, lo) ==> Sorted(ItemsOf(found)) && forall rec :: rec in found <==> rec in Select(hash.Data(), lo, hi)
  {
    var code, results, count := hash.Range(lo, hi);
    found := if results == null then [] else results[..];
  }

  method RangeOfTree(rb: RbTree, lo: Key, hi: Key) returns (found: seq<Record>)
    requires rb.Valid()
    ensures !Less(hi, lo) ==> found == Select(Recs(rb.shape), lo, hi)
  {
    var code, results := RbEngine.Range(rb, lo, hi);
    found := if results == null then [] else results[..];
  }
}
