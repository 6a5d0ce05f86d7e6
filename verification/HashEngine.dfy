/** The hash engine: singly linked chains in a fixed table of slots. */
module HashEngine {
  import opened Keys
  import opened SortedItems
  import opened SortedRanges
  import opened Records
  import opened RecordRanges
  import opened RecordTables
  import opened HashChains
  import opened Sorting

  /** The slot number of a key, summed byte by byte. It indexes the table exactly for hashable keys. */
  method Hash(key: Key) returns (slot: int)
    requires SumFits(key)
    ensures slot == Rem(Sum(key), TABLE_SIZE) && (0 <= slot < TABLE_SIZE <==> Hashable(key))
  {
    var sum := 0;
    for i := 0 to |key|
      invariant sum == Sum(key[..i])
    {
      assert key[..i + 1][..i] == key[..i];
      sum := sum + Char(key[i]);
    }
    assert key[..|key|] == key;
    slot := Rem(sum, TABLE_SIZE);
    HashableRem(key);
  }

  class HashTable {
    const table: array<HashNode?>
    var count: nat
    ghost var chains: seq<seq<HashNode>>
    ghost var recs: seq<seq<Record>>
    ghost var nodes: set<HashNode>

    ghost predicate Valid()
      reads this, table, nodes
    {
      && table.Length == TABLE_SIZE == |chains| == |recs| && Placed(recs) && count == |Concat(recs)|
      && forall s {:trigger chains[s]} :: 0 <= s < TABLE_SIZE ==>
           Members(chains[s]) && Chained(table[s], chains[s], recs[s])
    }

    ghost predicate Members(chain: seq<HashNode>)
      reads this
    {
      forall n :: n in chain ==> n in nodes
    }

    /** The records the engine holds, slot by slot. */
    ghost function Data(): seq<Record>
      reads this
    {
      Concat(recs)
    }

    constructor ()
      ensures Valid() && Data() == [] && fresh(table) && nodes == {}
    {
      table := new HashNode?[TABLE_SIZE](_ => null);
      count, nodes := 0, {};
      chains, recs := seq(TABLE_SIZE, _ => []), seq(TABLE_SIZE, _ => []);
      new;
      NoRecords(recs);
    }

    /** The node of `key` in its slot's chain. */
    method Find(slot: nat, key: Key) returns (node: HashNode?, ghost j: nat)
      requires Valid() && slot == SlotOf(key)
      ensures node == NodeAt(chains[slot], j) && j <= |recs[slot]| && (node != null <==> key in TableOf(Data()))
      ensures node != null ==> j < |recs[slot]| && recs[slot][j].it.key == key && Keeps(node, recs[slot][j])
    {
      node, j := table[slot], 0;
      assert Chained(table[slot], chains[slot], recs[slot]);
      while node != null
        invariant j <= |recs[slot]| && node == NodeAt(chains[slot], j)
        invariant forall i :: 0 <= i < j ==> recs[slot][i].it.key != key
        decreases |recs[slot]| - j
      {
        assert Keeps(chains[slot][j], recs[slot][j]);
        StrcmpZero(node.key, key);
        if Strcmp(node.key, key) == 0 {
          SlotLookup(recs, key);
          return;
        }
        node, j := node.next, j + 1;
      }
      SlotLookup(recs, key);
    }

    method Get(key: Key) returns (value: Option<Value>)
      requires Valid() && Hashable(key)
      ensures value == if key in TableOf(Data()) then Some(TableOf(Data())[key].val) else None
    {
      var slot := Hash(key);
      var node; ghost var j;
      node, j := Find(slot, key);
      if node == null {
        return None;
      }
      SlotStamp(recs, slot, j);
      value := Some(node.value);
    }

    method GetTimestamp(key: Key) returns (ts: nat)
      requires Valid() && Hashable(key)
      ensures ts == if key in TableOf(Data()) then TableOf(Data())[key].ts else 0
    {
      var slot := Hash(key);
      var node; ghost var j;
      node, j := Find(slot, key);
      if node == null {
        return 0;
      }
      SlotStamp(recs, slot, j);
      ts := node.timestamp;
    }

    method Exist(key: Key) returns (code: int)
      requires Valid() && Hashable(key)
      ensures code == if key in TableOf(Data()) then 0 else -1
    {
      var value := Get(key);
      code := if value.None? then -1 else 0;
    }

    method Count() returns (n: nat)
      requires Valid()
      ensures n == |Data()|
    {
      n := count;
    }

    /** A new key goes to the front of its chain. */
    method Set(key: Key, value: Value, timestamp: nat) returns (code: int)
      requires Valid() && Hashable(key)
      modifies this, table
      ensures Valid() && fresh(nodes - old(nodes)) && code == if key in TableOf(old(Data())) then 1 else 0
      ensures TableOf(Data()) == if code == 0 then TableOf(old(Data()))[key := Stamp(value, timestamp)] else TableOf(old(Data()))
      ensures recs == if code == 0
                      then old(recs)[SlotOf(key) := [Record(Item(key, value), timestamp)] + old(recs)[SlotOf(key)]]
                      else old(recs)
    {
      var slot := Hash(key);
      var node; ghost var j;
      node, j := Find(slot, key);
      if node != null {
        return 1;
      }
      var newNode := new HashNode(key, value);
      newNode.timestamp := timestamp;
      Push(slot, newNode, Record(Item(key, value), timestamp));
      code := 0;
    }

    method Push(slot: nat, node: HashNode, ghost rec: Record)
      requires Valid() && node !in nodes && Keeps(node, rec)
      requires slot == SlotOf(node.key) && Hashable(node.key) && node.key !in TableOf(Data())
      modifies this, table, node`next
      ensures Valid() && nodes == old(nodes) + {node} && TableOf(Data()) == TableOf(old(Data()))[rec.it.key := StampOf(rec)]
      ensures recs == old(recs)[slot := [rec] + old(recs)[slot]]
    {
      hide Concat;
      PushTable(recs, slot, rec);
      ghost var head, chain, rs := table[slot], chains[slot], recs[slot];
      assert Chained(head, chain, rs);
      node.next := table[slot];
      table[slot] := node;
      count := count + 1;
      PushChained(head, chain, rs, node, rec);
      nodes, chains, recs := nodes + {node}, chains[slot := [node] + chain], recs[slot := [rec] + rs];
      forall s | 0 <= s < TABLE_SIZE
        ensures Members(chains[s]) && Chained(table[s], chains[s], recs[s])
      {
        if s != slot {
          assert old(Members(chains[s]) && Chained(table[s], chains[s], recs[s]));
        }
      }
    }

    method Modify(key: Key, value: Value, timestamp: nat) returns (code: int)
      requires Valid() && Hashable(key)
      modifies this`recs, nodes
      ensures Valid() && nodes == old(nodes) && code == if key in TableOf(old(Data())) then 0 else -2
      ensures TableOf(Data()) == if code == 0 then TableOf(old(Data()))[key := Stamp(value, timestamp)] else TableOf(old(Data()))
      ensures code != 0 ==> recs == old(recs)
      ensures code == 0 ==>
                exists j :: 0 <= j < |old(recs)[SlotOf(key)]| && old(recs)[SlotOf(key)][j].it.key == key
                  && recs == old(recs)[SlotOf(key) := old(recs)[SlotOf(key)][j := Record(Item(key, value), timestamp)]]
    {
      var slot := Hash(key);
      var node; ghost var j;
      node, j := Find(slot, key);
      if node == null {
        return -2;
      }
      Overwrite(slot, j, node, value, timestamp);
      code := 0;
    }

    method Overwrite(slot: nat, ghost j: nat, node: HashNode, value: Value, timestamp: nat)
      requires Valid() && slot < TABLE_SIZE && j < |recs[slot]| && node == chains[slot][j]
      requires recs[slot][j].it.key == node.key
      modifies this`recs, node`value, node`timestamp
      ensures Valid() && TableOf(Data()) == TableOf(old(Data()))[node.key := Stamp(value, timestamp)]
      ensures recs == old(recs)[slot := old(recs)[slot][j := Record(Item(node.key, value), timestamp)]]
    {
      hide UniqueKeys, TableOf, Concat, Placed;
      ghost var rec, rs, chain := Record(Item(node.key, value), timestamp), recs[slot], chains[slot];
      PutTable(recs, slot, j, rec);
      NodeApart(slot, j);
      assert Chained(table[slot], chain, rs);
      node.value, node.timestamp := value, timestamp;
      recs := recs[slot := rs[j := rec]];
      forall s | 0 <= s < TABLE_SIZE
        ensures Members(chains[s]) && Chained(table[s], chains[s], recs[s])
      {
        assert old(Members(chains[s]) && Chained(table[s], chains[s], recs[s]));
        if s == slot {
          forall i | 0 <= i < |rs|
            ensures Keeps(chain[i], rs[j := rec][i]) && chain[i].next == NodeAt(chain, i + 1)
          {
            assert old(Keeps(chain[i], rs[i]));
          }
        }
      }
    }

    /** A node stands in one place only. */
    lemma NodeApart(slot: nat, j: nat)
      requires Valid() && slot < TABLE_SIZE && j < |recs[slot]|
      ensures j < |chains[slot]|
      ensures forall i :: 0 <= i < |chains[slot]| && i != j ==> chains[slot][i] != chains[slot][j]
      ensures forall s :: 0 <= s < TABLE_SIZE && s != slot ==> chains[slot][j] !in chains[s]
    {
      assert Chained(table[slot], chains[slot], recs[slot]) && InSlot(recs[slot], slot);
      assert Keeps(chains[slot][j], recs[slot][j]);
      forall i | 0 <= i < |chains[slot]| && i != j
        ensures chains[slot][i] != chains[slot][j]
      {
        assert Keeps(chains[slot][i], recs[slot][i]);
      }
      forall s | 0 <= s < TABLE_SIZE && s != slot
        ensures chains[slot][j] !in chains[s]
      {
        assert Chained(table[s], chains[s], recs[s]) && InSlot(recs[s], s);
        forall i | 0 <= i < |chains[s]|
          ensures chains[s][i] != chains[slot][j]
        {
          assert Keeps(chains[s][i], recs[s][i]);
        }
      }
    }

    // ----- deletion

    /** The code tells an absent key from a present one only when no stored key has the same slot. */
    method Delete(key: Key) returns (code: int)
      requires Valid() && Hashable(key)
      modifies this, table, nodes
      ensures Valid() && nodes == old(nodes) && TableOf(Data()) == TableOf(old(Data())) - {key}
      ensures code == if exists k :: k in TableOf(old(Data())) && SlotOf(k) == SlotOf(key) then 0 else -2
      ensures key in TableOf(old(Data())) ==> |Data()| + 1 == |old(Data())|
      ensures key !in TableOf(old(Data())) ==> recs == old(recs)
      ensures key in TableOf(old(Data())) ==>
                exists j :: 0 <= j < |old(recs)[SlotOf(key)]| && old(recs)[SlotOf(key)][j].it.key == key
                  && recs == old(recs)[SlotOf(key) := RemoveAt(old(recs)[SlotOf(key)], j)]
    {
      hide TableOf, Concat, Placed;
      var slot := Hash(key);
      ghost var chain, rs := chains[slot], recs[slot];
      var node := table[slot];
      assert Chained(node, chain, rs);
      SlotLookup(recs, key);
      SlotUsed(recs, slot);
      if node == null {
        return -2;
      }
      assert Keeps(chain[0], rs[0]);
      StrcmpZero(node.key, key);
      if Strcmp(node.key, key) == 0 {
        Unlink(slot, 0, null);
        return 0;
      }
      var pred; ghost var j;
      pred, j := FindPred(node, slot, key);
      if pred != null {
        Unlink(slot, j, pred);
      }
      code := 0;
    }

    /** The node before the one of `key` in a chain that does not start with it, if it is there. */
    method FindPred(first: HashNode, slot: nat, key: Key) returns (pred: HashNode?, ghost j: nat)
      requires Valid() && slot == SlotOf(key) && first == table[slot]
      requires recs[slot] != [] && recs[slot][0].it.key != key
      ensures pred != null <==> key in TableOf(Data())
      ensures pred != null ==> 0 < j < |recs[slot]| == |chains[slot]| && pred == chains[slot][j - 1] && recs[slot][j].it.key == key
    {
      hide TableOf;
      ghost var chain, rs := chains[slot], recs[slot];
      assert Chained(table[slot], chain, rs) && Keeps(chain[0], rs[0]);
      SlotLookup(recs, key);
      var node := first;
      j := 1;
      while node.next != null
        invariant 0 < j <= |rs| && node == chain[j - 1] && node.next == NodeAt(chain, j)
        invariant forall i :: 0 <= i < j ==> rs[i].it.key != key
        decreases |rs| - j
      {
        assert Keeps(chain[j], rs[j]);
        StrcmpZero(node.next.key, key);
        if Strcmp(node.next.key, key) == 0 {
          return node, j;
        }
        node, j := node.next, j + 1;
      }
      pred := null;
    }

    /** Bypasses node `j` of the chain, from its predecessor or from the slot itself. */
    method Unlink(slot: nat, ghost j: nat, pred: HashNode?)
      requires Valid() && slot < TABLE_SIZE && j < |recs[slot]|
      requires if j == 0 then pred == null else j < |chains[slot]| && pred == chains[slot][j - 1]
      modifies this, table, if pred == null then {} else {pred}
      ensures Valid() && nodes == old(nodes) && |Data()| + 1 == |old(Data())|
      ensures TableOf(Data()) == TableOf(old(Data())) - {old(recs)[slot][j].it.key}
      ensures recs == old(recs)[slot := RemoveAt(old(recs)[slot], j)]
    {
      WriteNext(slot, j, pred);
      Forget(slot, j);
    }

    method Forget(slot: nat, ghost j: nat)
      requires table.Length == TABLE_SIZE == |chains| == |recs| && Placed(recs) && count == |Concat(recs)|
      requires slot < TABLE_SIZE && j < |recs[slot]| == |chains[slot]| && forall s :: 0 <= s < TABLE_SIZE ==> Members(chains[s])
      requires forall s :: 0 <= s < TABLE_SIZE && s != slot ==> Chained(table[s], chains[s], recs[s])
      requires Chained(table[slot], RemoveAt(chains[slot], j), RemoveAt(recs[slot], j))
      modifies this`count, this`recs, this`chains
      ensures Valid() && |Data()| + 1 == |old(Data())|
      ensures TableOf(Data()) == TableOf(old(Data())) - {old(recs)[slot][j].it.key}
      ensures recs == old(recs)[slot := RemoveAt(old(recs)[slot], j)]
    {
      hide Concat;
      DropTable(recs, slot, j);
      count := count - 1;
      recs, chains := recs[slot := RemoveAt(recs[slot], j)], chains[slot := RemoveAt(chains[slot], j)];
    }

    method WriteNext(slot: nat, ghost j: nat, pred: HashNode?)
      requires Valid() && slot < TABLE_SIZE && j < |recs[slot]|
      requires if j == 0 then pred == null else j < |chains[slot]| && pred == chains[slot][j - 1]
      modifies table, if pred == null then {} else {pred}
      ensures |recs[slot]| == |chains[slot]| && forall s :: 0 <= s < TABLE_SIZE ==> Members(chains[s])
      ensures forall s :: 0 <= s < TABLE_SIZE && s != slot ==> Chained(table[s], chains[s], recs[s])
      ensures Chained(table[slot], RemoveAt(chains[slot], j), RemoveAt(recs[slot], j))
    {
      hide Placed;
      ghost var rs, chain := recs[slot], chains[slot];
      assert Chained(table[slot], chain, rs);
      NodeApart(slot, if j == 0 then 0 else j - 1);
      forall i | 0 <= i < |rs|
        ensures Keeps(chain[i], rs[i]) && chain[i].next == NodeAt(chain, i + 1)
      {
        var rec := rs[i];
      }
      assert forall s {:trigger chains[s]} :: 0 <= s < TABLE_SIZE ==> Chained(table[s], chains[s], recs[s]);
      ghost var first, other := rs[j], rs[if j == 0 then 0 else j - 1];
      if pred == null {
        table[slot] := table[slot].next;
      } else {
        pred.next := pred.next.next;
      }
      Bypassed(table[slot], chain, rs, j);
    }

    // ----- ranges

    /** The records with keys in `[lo, hi]`: the matches of every chain, copied out and sorted. */
    method Range(lo: Key, hi: Key) returns (code: int, results: array?<Record>, count_: nat)
      requires Valid()
      ensures code in {-2, 0, 1} && (code == -2 <==> Less(hi, lo)) && (code == 0 <==> results != null)
      ensures code == 1 ==> count_ == 0 && Select(Data(), lo, hi) == []
      ensures code == 0 ==> 0 < count_ == results.Length && Sorted(ItemsOf(results[..]))
      ensures code == 0 ==> forall rec :: rec in results[..] <==> rec in Select(Data(), lo, hi)
    {
      StrcmpFlip(lo, hi);
      if Strcmp(lo, hi) > 0 {
        return -2, null, 0;
      }
      var matched := new Record[count](_ => Record(Item([], []), 0));
      var matchCount := Collect(lo, hi, matched);
      if matchCount == 0 {
        return 1, null, 0;
      }
      ghost var found := matched[..matchCount];
      var items := new Record[matchCount](i requires 0 <= i < matchCount <= matched.Length reads matched => matched[i]);
      assert items[..matchCount] == items[..] == found;
      ConcatUnique(recs);
      SelectUnique(Data(), lo, hi);
      Qsort(items, matchCount);
      assert items[..matchCount] == items[..];
      code, results, count_ := 0, items, matchCount;
    }

    /** The matches, slot by slot; there is room for every record of the table. */
    method Collect(lo: Key, hi: Key, matched: array<Record>) returns (m: nat)
      requires Valid() && matched.Length == count
      modifies matched
      ensures m <= matched.Length && matched[..m] == Select(Data(), lo, hi)
    {
      hide Select, InSlot, Between;
      m := 0;
      for i := 0 to TABLE_SIZE
        invariant m <= matched.Length && Start(recs, i) <= |Data()| && matched[..m] == Select(Data()[..Start(recs, i)], lo, hi)
      {
        StartNext(recs, i);
        m := CollectChain(lo, hi, matched, i, m);
      }
      assert recs[..TABLE_SIZE] == recs && Data()[..|Data()|] == Data();
    }

    method CollectChain(lo: Key, hi: Key, matched: array<Record>, i: nat, m0: nat) returns (m: nat)
      requires Valid() && matched.Length == count && i < TABLE_SIZE && Start(recs, i) + |recs[i]| <= |Data()|
      requires m0 <= matched.Length && matched[..m0] == Select(Data()[..Start(recs, i)], lo, hi)
      modifies matched
      ensures m <= matched.Length && matched[..m] == Select(Data()[..Start(recs, i) + |recs[i]|], lo, hi)
    {
      hide Select, Members, Placed;
      m := m0;
      var node := table[i];
      ghost var j: nat := 0;
      assert Chained(table[i], chains[i], recs[i]);
      while node != null
        invariant j <= |recs[i]| && node == NodeAt(chains[i], j)
        invariant m <= matched.Length && matched[..m] == Select(Data()[..Start(recs, i) + j], lo, hi)
        decreases |recs[i]| - j
      {
        var rec, next := Visit(node, i, j);
        StrcmpFlip(rec.it.key, lo);
        StrcmpFlip(rec.it.key, hi);
        m := Keep(matched, m, rec, Strcmp(rec.it.key, lo) >= 0 && Strcmp(rec.it.key, hi) <= 0, Data(), lo, hi,
                  Start(recs, i) + j);
        node, j := next, j + 1;
      }
    }

    /** Reads one node of chain `i` and moves on. */
    method Visit(node: HashNode, i: nat, ghost j: nat) returns (rec: Record, next: HashNode?)
      requires Valid() && i < TABLE_SIZE && j <= |recs[i]| && node == NodeAt(chains[i], j)
      ensures j < |recs[i]| && rec == recs[i][j] && next == NodeAt(chains[i], j + 1)
      ensures Start(recs, i) + j < |Data()| && Data()[Start(recs, i) + j] == rec
    {
      assert Chained(table[i], chains[i], recs[i]) && Keeps(chains[i][j], recs[i][j]);
      DataAt(recs, i, j);
      rec, next := Record(Item(node.key, node.value), node.timestamp), node.next;
    }

    /** All records, slot by slot. */
    method GetAll() returns (results: array?<Record>, total: nat)
      requires Valid()
      ensures total == |Data()| && (results == null <==> total == 0)
      ensures total > 0 ==> results[..] == Data()
    {
      total := count;
      if count == 0 {
        return null, 0;
      }
      var items := new Record[count](_ => Record(Item([], []), 0));
      var index: nat := 0;
      for i := 0 to TABLE_SIZE
        invariant index == Start(recs, i) <= |Data()| && items[..index] == Data()[..index]
      {
        StartNext(recs, i);
        index := CopyChain(items, i, index);
      }
      assert recs[..TABLE_SIZE] == recs && items[..items.Length] == items[..] && Data()[..|Data()|] == Data();
      results := items;
    }

    method CopyChain(items: array<Record>, i: nat, index0: nat) returns (index: nat)
      requires Valid() && items.Length == count && i < TABLE_SIZE && index0 == Start(recs, i)
      requires index0 + |recs[i]| <= |Data()| && items[..index0] == Data()[..index0]
      modifies items
      ensures index == index0 + |recs[i]| && items[..index] == Data()[..index]
    {
      index := index0;
      var node := table[i];
      assert Chained(table[i], chains[i], recs[i]);
      while node != null
        invariant index0 <= index <= index0 + |recs[i]| && node == NodeAt(chains[i], index - index0)
        invariant items[..index] == Data()[..index]
        decreases index0 + |recs[i]| - index
      {
        var rec, next := Visit(node, i, index - index0);
        items[index] := rec;
        node, index := next, index + 1;
      }
    }
  }

  /** The keys `ab` and `ba` share a slot. */
  lemma Anagrams(ab: Key, ba: Key)
    requires ab == [97, 98] && ba == [98, 97]
    ensures Hashable(ab) && Hashable(ba) && SlotOf(ab) == SlotOf(ba) && ab != ba
  {
    AsciiHashable(ab);
    AsciiHashable(ba);
    assert ab[..1] == [97] && ba[..1] == [98] && ab[..1][..0] == [] && ba[..1][..0] == [];
    assert Sum(ab) == Sum(ab[..1]) + 98 && Sum(ba) == Sum(ba[..1]) + 97;
    assert Sum(ab[..1]) == Sum(ab[..1][..0]) + 97 && Sum(ba[..1]) == Sum(ba[..1][..0]) + 98;
    assert ab[0] != ba[0];
  }

  /** The keys `abc` and `abd` do not. */
  lemma Strangers(abc: Key, abd: Key)
    requires abc == [97, 98, 99] && abd == [97, 98, 100]
    ensures Hashable(abc) && Hashable(abd) && SlotOf(abc) == 294 && SlotOf(abd) == 295
  {
    hide Sum, SlotOf, SumFits, Hashable;
    var a, b, c, d: Key := [97], [98], [99], [100];
    AsciiHashable(a + b);
    AsciiHashable(abc);
    AsciiHashable(abd);
    AsciiHashable(a);
    assert abc == a + b + [99] && abd == a + b + [100];
    SumSingle(97);
    SumSingle(98);
    SumSingle(99);
    SumSingle(100);
    SumAppend(a, b);
    SlotMeans(a + b, 99);
    SlotMeans(a + b, 100);
  }

  /** With `ab` stored, deleting the absent key `ba` reports success and deletes nothing. */
  method DeleteAnagram(value: Value, timestamp: nat) returns (code: int)
    ensures code == 0
  {
    var table := new HashTable();
    ghost var none := TableOf(table.Data());
    Anagrams([97, 98], [98, 97]);
    var _ := table.Set([97, 98], value, timestamp);
    assert [97, 98] in TableOf(table.Data()) && [98, 97] !in TableOf(table.Data());
    code := table.Delete([98, 97]);
    assert TableOf(table.Data()) == map[[97, 98] := Stamp(value, timestamp)];
  }

  /** With only `abc` stored, deleting `abd` finds its slot empty. */
  method DeleteStranger(value: Value, timestamp: nat) returns (code: int)
    ensures code == -2
  {
    var table := new HashTable();
    Strangers([97, 98, 99], [97, 98, 100]);
    var _ := table.Set([97, 98, 99], value, timestamp);
    assert TableOf(table.Data()) == map[[97, 98, 99] := Stamp(value, timestamp)];
    code := table.Delete([97, 98, 100]);
  }

  lemma Bypassed(head: HashNode?, chain: seq<HashNode>, rs: seq<Record>, j: nat)
    requires |chain| == |rs| && j < |rs| && head == if j == 0 then NodeAt(chain, 1) else chain[0]
    requires forall i {:trigger rs[i]} :: 0 <= i < |rs| ==> Keeps(chain[i], rs[i])
    requires forall i {:trigger rs[i]} :: 0 <= i < |rs| ==> chain[i].next == NodeAt(chain, if i + 1 == j then j + 1 else i + 1)
    ensures Chained(head, RemoveAt(chain, j), RemoveAt(rs, j))
  {
    var c1, r1 := RemoveAt(chain, j), RemoveAt(rs, j);
    forall i | 0 <= i < |r1|
      ensures Keeps(c1[i], r1[i]) && c1[i].next == NodeAt(c1, i + 1)
    {
      var rec := rs[if i < j then i else i + 1];
    }
  }

  lemma PushChained(head: HashNode?, chain: seq<HashNode>, rs: seq<Record>, node: HashNode, rec: Record)
    requires Chained(head, chain, rs) && Keeps(node, rec) && node.next == head
    ensures Chained(node, [node] + chain, [rec] + rs)
  {
    var c1, r1 := [node] + chain, [rec] + rs;
    forall j | 0 <= j < |r1|
      ensures Keeps(c1[j], r1[j]) && c1[j].next == NodeAt(c1, j + 1)
    {
      if j > 0 { assert Keeps(chain[j - 1], rs[j - 1]) && chain[j - 1].next == NodeAt(chain, j); }
    }
  }

  lemma {:induction false} NoRecords(rs: seq<seq<Record>>)
    requires forall s :: 0 <= s < |rs| ==> rs[s] == []
    ensures Concat(rs) == []
  {
    if rs != [] { NoRecords(rs[..|rs| - 1]); }
  }
}
