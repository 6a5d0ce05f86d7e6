/** The array engine: a fixed table whose first `total` slots are in use, in no particular order. */
module ArrayEngine {
  import opened Keys
  import opened SortedItems
  import opened SortedRanges
  import opened Records
  import opened RecordRanges
  import opened RecordTables
  import opened Sorting

  const ARRAY_SIZE: nat := 1024 * 1024

  /** A slot is free when its key pointer is null. */
  datatype Slot = Free | Used(rec: Record)

  class Store {
    const table: array<Slot>
    var total: nat
    ghost var data: seq<Record>

    ghost predicate Valid()
      reads this, table
    {
      && table.Length == ARRAY_SIZE && total == |data| <= ARRAY_SIZE && UniqueKeys(data)
      && forall i :: 0 <= i < total ==> table[i] == Used(data[i])
    }

    constructor ()
      ensures Valid() && data == [] && fresh(table)
    {
      table := new Slot[ARRAY_SIZE](_ => Free);
      total, data := 0, [];
    }

    /** The slot of `key`, or `total` if there is none. */
    method FindIndex(key: Key) returns (i: nat)
      requires Valid()
      ensures i <= total && (i < total <==> key in TableOf(data))
      ensures i < total ==> data[i].it.key == key && TableOf(data)[key] == StampOf(data[i])
      ensures forall j :: 0 <= j < total && j != i ==> data[j].it.key != key
    {
      i := 0;
      while i < total
        invariant i <= total && forall j :: 0 <= j < i ==> data[j].it.key != key
      {
        if table[i].Used? {
          StrcmpZero(table[i].rec.it.key, key);
          if Strcmp(table[i].rec.it.key, key) == 0 {
            TableAt(data, i);
            return;
          }
        }
        i := i + 1;
      }
      TableKey(data, key);
    }

    method Get(key: Key) returns (value: Option<Value>)
      requires Valid()
      ensures value == if key in TableOf(data) then Some(TableOf(data)[key].val) else None
    {
      var i := FindIndex(key);
      value := if i < total then Some(table[i].rec.it.val) else None;
    }

    method GetTimestamp(key: Key) returns (ts: nat)
      requires Valid()
      ensures ts == if key in TableOf(data) then TableOf(data)[key].ts else 0
    {
      var i := FindIndex(key);
      ts := if i < total then table[i].rec.ts else 0;
    }

    method Exist(key: Key) returns (code: int)
      requires Valid()
      ensures code == if key in TableOf(data) then 0 else -1
    {
      var value := Get(key);
      code := if value.None? then -1 else 0;
    }

    method Count() returns (n: nat)
      requires Valid()
      ensures n == |data| == |TableOf(data)|
    {
      TableSize(data);
      n := total;
    }

    /** A full table is reported before a present key is. */
    method Set(key: Key, value: Value, timestamp: nat) returns (code: int)
      requires Valid()
      modifies this, table
      ensures Valid()
      ensures code == if |old(data)| == ARRAY_SIZE then -2 else if key in TableOf(old(data)) then 1 else 0
      ensures TableOf(data)
           == if code == 0 then TableOf(old(data))[key := Stamp(value, timestamp)] else TableOf(old(data))
      ensures data == if code == 0 then old(data) + [Record(Item(key, value), timestamp)] else old(data)
    {
      if total >= ARRAY_SIZE {
        return -2;
      }
      var str := Get(key);
      if str.Some? {
        return 1;
      }
      var i := 0;
      while i < total
        invariant i <= total
      {
        if table[i].Free? {
          assert false;
        }
        i := i + 1;
      }
      var rec := Record(Item(key, value), timestamp);
      TableAppend(data, rec);
      AppendUnique(data, rec);
      table[i] := Used(rec);
      total, data := total + 1, data + [rec];
      code := 0;
    }

    method Modify(key: Key, value: Value, timestamp: nat) returns (code: int)
      requires Valid()
      modifies this`data, table
      ensures Valid()
      ensures code == if old(data) == [] then -2 else if key in TableOf(old(data)) then 0 else -4
      ensures TableOf(data)
           == if code == 0 then TableOf(old(data))[key := Stamp(value, timestamp)] else TableOf(old(data))
      ensures |data| == |old(data)|
      ensures forall j {:trigger data[j]} :: 0 <= j < |data| ==>
                data[j] == if old(data)[j].it.key == key then Record(Item(key, value), timestamp) else old(data)[j]
    {
      if total == 0 {
        return -2;
      }
      var i := FindIndex(key);
      if i == total {
        return -4;
      }
      var rec := Record(Item(key, value), timestamp);
      TableUpdate(data, i, rec);
      table[i] := Used(rec);
      data := data[i := rec];
      code := 0;
    }

    /** The last record moves into the freed slot. */
    method Delete(key: Key) returns (code: int)
      requires Valid()
      modifies this, table
      ensures Valid() && code == if key in TableOf(old(data)) then 0 else 1
      ensures TableOf(data) == TableOf(old(data)) - {key}
      ensures |data| == |old(data)| - if code == 0 then 1 else 0
      ensures forall j {:trigger data[j]} :: 0 <= j < |data| ==>
                data[j] == if old(data)[j].it.key == key then old(data)[|old(data)| - 1] else old(data)[j]
    {
      hide TableOf;
      var i := FindIndex(key);
      if i == total {
        return 1;
      }
      ghost var d, n := data, |data| - 1;
      SwapDrop(d, i);
      table[i] := Free;
      if i != total - 1 {
        table[i] := table[total - 1];
        table[total - 1] := Free;
      }
      total, data := total - 1, d[i := d[n]][..n];
      code := 0;
    }

    // ----- ranges

    static predicate Matches(slot: Slot, lo: Key, hi: Key) {
      slot.Used? && Strcmp(slot.rec.it.key, lo) >= 0 && Strcmp(slot.rec.it.key, hi) <= 0
    }

    lemma MatchesWithin(i: nat, lo: Key, hi: Key)
      requires Valid() && i < total
      ensures Matches(table[i], lo, hi) <==> Within(data[i].it.key, lo, hi)
    {
      StrcmpFlip(data[i].it.key, lo);
      StrcmpFlip(data[i].it.key, hi);
    }

    /** The records with keys in `[lo, hi]`, counted, collected and sorted. */
    method Range(lo: Key, hi: Key) returns (code: int, results: array?<Record>, count: nat)
      requires Valid()
      ensures code in {-2, 0, 1} && (code == -2 <==> Less(hi, lo)) && (code == 0 <==> results != null)
      ensures code == 1 ==> count == 0 && Select(data, lo, hi) == []
      ensures code == 0 ==> 0 < count == results.Length && Sorted(ItemsOf(results[..]))
      ensures code == 0 ==> forall rec :: rec in results[..] <==> rec in Select(data, lo, hi)
    {
      StrcmpFlip(lo, hi);
      if Strcmp(lo, hi) > 0 {
        return -2, null, 0;
      }
      var matchCount := CountMatches(lo, hi);
      if matchCount == 0 {
        return 1, null, 0;
      }
      var items := new Record[matchCount](_ => Record(Item([], []), 0));
      var index := Collect(lo, hi, items);
      assert items[..matchCount] == items[..];
      SelectUnique(data, lo, hi);
      Qsort(items, matchCount);
      assert items[..matchCount] == items[..];
      code, results, count := 0, items, index;
    }

    method CountMatches(lo: Key, hi: Key) returns (n: nat)
      requires Valid()
      ensures n == |Select(data, lo, hi)|
    {
      n := 0;
      for i := 0 to total
        invariant n == |Select(data[..i], lo, hi)|
      {
        SelectNext(data, lo, hi, i);
        MatchesWithin(i, lo, hi);
        if Matches(table[i], lo, hi) {
          n := n + 1;
        }
      }
      assert data[..total] == data;
    }

    method Collect(lo: Key, hi: Key, items: array<Record>) returns (index: nat)
      requires Valid() && items.Length == |Select(data, lo, hi)|
      modifies items
      ensures index == items.Length && items[..] == Select(data, lo, hi)
    {
      index := 0;
      for i := 0 to total
        invariant index <= items.Length && items[..index] == Select(data[..i], lo, hi)
      {
        MatchesWithin(i, lo, hi);
        index := Keep(items, index, table[i].rec, Matches(table[i], lo, hi), data, lo, hi, i);
      }
      assert data[..total] == data && items[..items.Length] == items[..];
    }

    /** All records, in table order. */
    method GetAll() returns (results: array?<Record>, count: nat)
      requires Valid()
      ensures count == |data| && (results == null <==> count == 0)
      ensures count > 0 ==> results[..] == data
    {
      count := total;
      if count == 0 {
        return null, 0;
      }
      var items := new Record[count](_ => Record(Item([], []), 0));
      for i := 0 to total
        invariant items[..i] == data[..i]
      {
        items[i] := table[i].rec;
      }
      results := items;
    }
  }

  lemma {:induction false} TableSize(d: seq<Record>)
    requires UniqueKeys(d)
    ensures |TableOf(d)| == |d|
  {
    if d != [] {
      var n := |d| - 1;
      TableSize(d[..n]);
      TableKey(d[..n], d[n].it.key);
    }
  }

  lemma SwapDrop(d: seq<Record>, i: nat)
    requires UniqueKeys(d) && i < |d|
    ensures var e := d[i := d[|d| - 1]][..|d| - 1];
            UniqueKeys(e) && TableOf(e) == TableOf(d) - {d[i].it.key}
  {
    var n := |d| - 1;
    var e := d[i := d[n]][..n];
    assert forall j :: 0 <= j < n ==> e[j] == if j == i then d[n] else d[j];
    forall rec
      ensures rec in e <==> rec in d && rec != d[i]
    {
      if rec in d && rec != d[i] {
        var j :| 0 <= j < |d| && d[j] == rec;
        assert e[if j == n then i else j] == rec;
      }
    }
    TableDrop(d, i, e);
  }
}
