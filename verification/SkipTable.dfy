/** The skip list engine: towers of forward pointers below a header of full height. */
module SkipTableModel {
  import opened Keys
  import opened SortedItems
  import opened LongKeys
  import opened Records
  import opened RecordRanges
  import opened SkipLanes

  /** The tower holds the record. */
  ghost predicate Keeps(n: Node, rec: Record)
    reads n
  {
    rec == Record(Item(n.key, n.value), n.timestamp) && |n.key| <= FIELD
  }

  lemma SplicedItems(d: seq<Record>, r: nat, rec: Record)
    requires r <= |d|
    ensures ItemsOf(Spliced(d, r, rec)) == Spliced(ItemsOf(d), r, rec.it)
  {
  }

  class SkipTable {
    var level: nat
    var size: nat
    const header: Node
    ghost var links: Links
    ghost var towers: seq<Node>
    ghost var data: seq<Record>

    /** The ghost copy of the pointers is true, and no two towers share their pointers. */
    ghost predicate Mirrored()
      reads this, set n | n in links :: n.forward
    {
      && (forall n {:trigger links[n]} :: n in links ==> n.forward[..] == links[n])
      && (forall m, n :: m in links && n in links && m != n ==> m.forward != n.forward)
    }

    /** Every lane is linked up from the header. */
    ghost predicate Wires()
      reads this, set n | n in links :: n.forward
    {
      && Mirrored() && AllWired(links, towers) && Tall(towers) && Distinct(towers) && links.Keys == (set n | n in towers)
      && towers != [] && towers[0] == header && header.forward.Length == MAX_LEVEL + 1
    }

    /** The towers after the header hold the records, in order. */
    ghost predicate Holds()
      reads this, towers
    {
      && |towers| == |data| + 1
      && (forall k {:trigger data[k]} :: 0 <= k < |data| ==> Keeps(towers[k + 1], data[k]))
      && Ascending(ItemsOf(data))
    }

    /** `level` is the highest level any tower but the header reaches, or 0. */
    ghost predicate Levelled()
      reads this
    {
      && level <= MAX_LEVEL
      && (forall i: nat {:trigger Lane(towers, i)} :: level < i <= MAX_LEVEL ==> Lane(towers, i) == [header])
      && (level > 0 ==> |Lane(towers, level)| > 1)
    }

    ghost predicate Valid()
      reads this, towers, set n | n in links :: n.forward
    {
      Wires() && Holds() && Levelled() && size == |data|
    }

    constructor ()
      ensures Valid() && data == []
      ensures forall n :: n in links ==> fresh(n) && fresh(n.forward)
    {
      hide Lane;
      level, size := 0, 0;
      header := new Node(MAX_LEVEL, [], []);
      data := [];
      new;
      ClearHeader(header.forward);
      towers, links := [header], map[header := header.forward[..]];
      HeaderAlone(header, links);
    }

    static method ClearHeader(forward: array<Node?>)
      requires forward.Length == MAX_LEVEL + 1
      modifies forward
      ensures forall j :: 0 <= j <= MAX_LEVEL ==> forward[j] == null
    {
      for i := 0 to MAX_LEVEL + 1
        invariant forall j :: 0 <= j < i ==> forward[j] == null
      {
        forward[i] := null;
      }
    }

    // ----- searching

    /** Reads the pointer of tower `p` on level `i`. */
    method Look(current: Node, i: nat, ghost p: nat) returns (next: Node?, ghost q: nat)
      requires Wires() && p < |towers| && current == towers[p] && i < current.forward.Length && i <= MAX_LEVEL
      ensures next == current.forward[i] && Sees(towers, p, i, next, q)
    {
      q := Pointer(links, towers, p, i);
      next := current.forward[i];
    }

    /** Moves right on level `i` past the keys below `key`. */
    method Advance(start: Node, i: nat, key: Key, ghost p0: nat, ghost r: nat) returns (current: Node, ghost p: nat)
      requires Wires() && Parts(towers, key, r) && p0 <= r
      requires start == towers[p0] && i < start.forward.Length && i <= MAX_LEVEL
      ensures p <= r && current == towers[p] && i < current.forward.Length && Lane(towers[p + 1..r + 1], i) == []
    {
      current, p := start, p0;
      var next; ghost var q;
      next, q := Look(current, i, p);
      while next != null && Strcmp(next.key, key) < 0
        invariant p <= r && current == towers[p] && i < current.forward.Length && Sees(towers, p, i, next, q)
        decreases |towers| - p
      {
        current, p := next, q;
        next, q := Look(current, i, p);
      }
      Stopped(towers, p, q, i, next, key, r);
    }

    lemma Split(key: Key) returns (r: nat)
      requires Valid()
      ensures r == Rank(ItemsOf(data), key) && Parts(towers, key, r)
    {
      r := Rank(ItemsOf(data), key);
      forall q | 0 < q < |towers|
        ensures Less(towers[q].key, key) <==> q <= r
      {
        assert Keeps(towers[q], data[q - 1]) && ItemsOf(data)[q - 1] == data[q - 1].it;
        if q > r { PastRank(ItemsOf(data), key, q - 1); }
      }
    }

    /** Descends from the top level to the last tower below `key` and looks at what follows. */
    method Locate(key: Key, ghost r: nat) returns (node: Node?)
      requires Wires() && level <= MAX_LEVEL && Parts(towers, key, r)
      ensures node == if r + 1 < |towers| then towers[r + 1] else null
    {
      var current := header;
      ghost var p: nat, q: nat := 0, 0;
      var i: nat := level + 1;
      while i > 0
        invariant i <= level + 1 && p <= r && current == towers[p] && i <= current.forward.Length
        invariant i <= level ==> Lane(towers[p + 1..r + 1], i) == []
      {
        i := i - 1;
        current, p := Advance(current, i, key, p, r);
      }
      node, q := Look(current, 0, p);
      StoppedAtKey(towers, p, node, q, r);
    }

    /** The same, recording the last tower below `key` on every level. */
    method FindPreds(key: Key, ghost r: nat) returns (node: Node?, update: array<Node?>)
      requires Wires() && level <= MAX_LEVEL && Parts(towers, key, r)
      ensures node == if r + 1 < |towers| then towers[r + 1] else null
      ensures fresh(update) && update.Length == MAX_LEVEL + 1
      ensures forall j :: 0 <= j <= level ==> Precedes(update[j], towers, r, j)
    {
      hide Lane, Mirrored;
      update := new Node?[MAX_LEVEL + 1](_ => null);
      var current := header;
      ghost var p: nat, q: nat := 0, 0;
      var i: nat := level + 1;
      while i > 0
        invariant i <= level + 1 && p <= r && current == towers[p] && i <= current.forward.Length
        invariant i <= level ==> Lane(towers[p + 1..r + 1], i) == []
        invariant forall j :: i <= j <= level ==> Precedes(update[j], towers, r, j)
      {
        i := i - 1;
        current, p := Advance(current, i, key, p, r);
        LaneEnds(towers, p, r, i);
        update[i] := current;
      }
      node, q := Look(current, 0, p);
      StoppedAtKey(towers, p, node, q, r);
    }

    method Get(key: Key) returns (value: Option<Value>)
      requires Valid()
      ensures value == match Lookup(ItemsOf(data), key) case Some(it) => Some(it.val) case None => None
    {
      ghost var r := Split(key);
      var node := Locate(key, r);
      if node != null && Strcmp(node.key, key) == 0 {
        StrcmpZero(node.key, key);
        return Some(node.value);
      }
      if node != null { StrcmpZero(node.key, key); }
      value := None;
    }

    method Exist(key: Key) returns (code: int)
      requires Valid()
      ensures code == if Has(ItemsOf(data), key) then 0 else -1
    {
      var value := Get(key);
      code := if value.None? then -1 else 0;
    }

    method Count() returns (n: nat)
      requires Valid()
      ensures n == |data|
    {
      n := size;
    }

    method Modify(key: Key, value: Value, timestamp: nat) returns (code: int)
      requires Valid()
      modifies this`data, towers
      ensures Valid() && towers == old(towers) && code == if Has(ItemsOf(old(data)), key) then 0 else -1
      ensures data == if code == 0 then Put(old(data), Record(Item(key, Cut(value)), timestamp)) else old(data)
      ensures Sorted(ItemsOf(data)) <==> Sorted(ItemsOf(old(data)))
    {
      hide Wires;
      ghost var r := Split(key);
      var node := Locate(key, r);
      code := -1;
      if node != null {
        StrcmpZero(node.key, key);
        if Strcmp(node.key, key) == 0 {
          Overwrite(node, value, timestamp, r);
          code := 0;
        }
      }
    }

    method Overwrite(node: Node, value: Value, timestamp: nat, ghost r: nat)
      requires Valid() && r < |data| && node == towers[r + 1]
      modifies this`data, node`value, node`timestamp
      ensures Valid() && data == old(data)[r := Record(Item(node.key, Cut(value)), timestamp)]
      ensures Sorted(ItemsOf(data)) <==> Sorted(ItemsOf(old(data)))
    {
      ghost var w, d := ItemsOf(data), data;
      node.value, node.timestamp := Cut(value), timestamp;
      data := data[r := Record(Item(node.key, Cut(value)), timestamp)];
      forall k | 0 <= k < |data|
        ensures Keeps(towers[k + 1], data[k]) && ItemsOf(data)[k].key == w[k].key
      {
        assert old(Keeps(towers[k + 1], d[k]));
        if k != r { assert towers[k + 1] != node; }
      }
      SameKeysAscend(w, ItemsOf(data));
    }

    // ----- insertion

    /** Any height the coin may come up with. */
    method RandomLevel() returns (l: nat)
      ensures 1 <= l <= MAX_LEVEL
    {
      l := 1;
      var more: bool := *;
      while more && l < MAX_LEVEL
        invariant 1 <= l <= MAX_LEVEL
        decreases MAX_LEVEL - l
      {
        l := l + 1;
        more := *;
      }
    }

    /** A key above the field is searched for whole and kept cut. The list stays in order all the same; a
        key comes to stand in it twice exactly if what is kept of the new key was there. */
    method Set(key: Key, value: Value, timestamp: nat) returns (code: int)
      requires Valid()
      modifies this, set n | n in links :: n.forward
      ensures Valid() && code == if Has(ItemsOf(old(data)), key) then 1 else 0
      ensures forall n :: n in links && n !in old(links) ==> fresh(n) && fresh(n.forward)
      ensures code == 1 ==> data == old(data)
      ensures code == 0 ==> data == Spliced(old(data), Rank(ItemsOf(old(data)), key), Record(Item(Cut(key), Cut(value)), timestamp))
      ensures code == 0 && (|key| <= FIELD || !Has(ItemsOf(old(data)), Cut(key))) ==>
                data == Put(old(data), Record(Item(Cut(key), Cut(value)), timestamp))
      ensures code == 0 ==>
                (Sorted(ItemsOf(data)) <==>
                 Sorted(ItemsOf(old(data))) && (|key| <= FIELD || !Has(ItemsOf(old(data)), Cut(key))))
    {
      hide Wires, Strcmp, Rank, Sorted;
      ghost var r := Split(key);
      var node, update := FindPreds(key, r);
      if node != null {
        StrcmpZero(node.key, key);
        if Strcmp(node.key, key) == 0 {
          return 1;
        }
      }
      SplicedIn(key, Record(Item(Cut(key), Cut(value)), timestamp), r);
      SetNew(Cut(key), value, timestamp, update, r);
      code := 0;
    }

    /** What the list is with the cut record in the place of the whole key. */
    lemma SplicedIn(key: Key, rec: Record, r: nat)
      requires Valid() && r == Rank(ItemsOf(data), key) && !Has(ItemsOf(data), key) && rec.it.key == Cut(key)
      ensures r <= |data| && Ascending(ItemsOf(Spliced(data, r, rec)))
      ensures |key| <= FIELD || !Has(ItemsOf(data), Cut(key)) ==> Spliced(data, r, rec) == Put(data, rec)
      ensures Sorted(ItemsOf(Spliced(data, r, rec))) <==>
                Sorted(ItemsOf(data)) && (|key| <= FIELD || !Has(ItemsOf(data), Cut(key)))
    {
      AllKept();
      var w := ItemsOf(data);
      SplicedItems(data, r, rec);
      SplicedAscends(w, key, rec.it.val);
      SplicedStrict(w, key, rec.it.val);
      if |key| <= FIELD || !Has(w, Cut(key)) { CutRank(w, key); }
    }

    lemma AllKept()
      requires Valid()
      ensures Kept(ItemsOf(data))
    {
      forall i | 0 <= i < |data|
        ensures |ItemsOf(data)[i].key| <= FIELD
      {
        assert Keeps(towers[i + 1], data[i]);
      }
    }

    method SetNew(key: Key, value: Value, timestamp: nat, update: array<Node?>, ghost r: nat)
      requires Valid() && update.Length == MAX_LEVEL + 1 && forall n :: n in links ==> update != n.forward
      requires forall j :: 0 <= j <= level ==> Precedes(update[j], towers, r, j)
      requires |key| <= FIELD && r <= |data| && Ascending(ItemsOf(Spliced(data, r, Record(Item(key, Cut(value)), timestamp))))
      modifies this, update, set n | n in links :: n.forward
      ensures Valid() && data == Spliced(old(data), r, Record(Item(key, Cut(value)), timestamp))
      ensures forall n :: n in links && n !in old(links) ==> fresh(n) && fresh(n.forward)
    {
      hide Ascending;
      var newLevel := RandomLevel();
      var x := new Node(newLevel, key, Cut(value));
      x.timestamp := timestamp;
      InsertTower(x, newLevel, update, r, Record(Item(key, Cut(value)), timestamp));
    }

    /** Links the tower `x` in behind tower `r` and counts it. */
    method InsertTower(x: Node, newLevel: nat, update: array<Node?>, ghost r: nat, ghost rec: Record)
      requires Valid() && x !in towers && x.forward.Length == newLevel + 1 && 1 <= newLevel <= MAX_LEVEL
      requires forall n :: n in links ==> x.forward != n.forward
      requires update.Length == MAX_LEVEL + 1 && (forall n :: n in links ==> update != n.forward) && update != x.forward
      requires forall j :: 0 <= j <= level ==> Precedes(update[j], towers, r, j)
      requires rec == Record(Item(x.key, x.value), x.timestamp) && |x.key| <= FIELD
      requires r <= |data| && Ascending(ItemsOf(Spliced(data, r, rec)))
      modifies this, x.forward, update, set n | n in links :: n.forward
      ensures Valid() && data == Spliced(old(data), r, rec) && links.Keys == old(links.Keys) + {x}
    {
      hide ItemsOf, Ascending, Lane;
      ghost var a, b, d := towers[..r + 1], towers[r + 1..], data;
      assert towers == a + b;
      LinkIn(x, newLevel, update, r, a, b);
      CountIn(x, a, b, d, rec, r);
    }

    /** The new tower counts as a record. */
    method CountIn(x: Node, ghost a: seq<Node>, ghost b: seq<Node>, ghost d: seq<Record>, ghost rec: Record, ghost r: nat)
      requires Wires() && Levelled() && size == |d| && data == d && towers == a + [x] + b && |a| == r + 1 && |d| + 1 == |a + b|
      requires (forall k {:trigger d[k]} :: 0 <= k < |d| ==> Keeps((a + b)[k + 1], d[k])) && Keeps(x, rec)
      requires Ascending(ItemsOf(Spliced(d, r, rec)))
      modifies this`size, this`data
      ensures Valid() && data == Spliced(d, r, rec)
    {
      hide Keeps, Ascending, ItemsOf;
      size := size + 1;
      data := Spliced(data, r, rec);
      InsertedRecord(a, x, b, d, rec, r);
    }

    method LinkIn(x: Node, newLevel: nat, update: array<Node?>, ghost r: nat, ghost a: seq<Node>, ghost b: seq<Node>)
      requires Wires() && Levelled() && towers == a + b && |a| == r + 1
      requires x !in towers && x.forward.Length == newLevel + 1 && 1 <= newLevel <= MAX_LEVEL
      requires forall n :: n in links ==> x.forward != n.forward
      requires update.Length == MAX_LEVEL + 1 && (forall n :: n in links ==> update != n.forward) && update != x.forward
      requires forall j :: 0 <= j <= level ==> Precedes(update[j], towers, r, j)
      modifies this`links, this`towers, this`level, x.forward, update, set n | n in links :: n.forward
      ensures Wires() && Levelled() && towers == a + [x] + b
    {
      ghost var oldLevel := level;
      if newLevel > level {
        RaiseHeader(newLevel, update, r);
        level := newLevel;
      }
      LinkTower(x, newLevel, update, a, b);
      InsertedLevel(a, x, b, oldLevel);
    }

    lemma InsertedRecord(a: seq<Node>, x: Node, b: seq<Node>, d: seq<Record>, rec: Record, r: nat)
      requires towers == a + [x] + b && |a| == r + 1 && |d| + 1 == |a + b| && data == Spliced(d, r, rec)
      requires (forall k {:trigger d[k]} :: 0 <= k < |d| ==> Keeps((a + b)[k + 1], d[k])) && Keeps(x, rec)
      requires Ascending(ItemsOf(data))
      ensures Holds()
    {
      forall k | 0 <= k < |data|
        ensures Keeps(towers[k + 1], data[k])
      {
        if k < r {
          assert data[k] == d[k] && towers[k + 1] == (a + b)[k + 1];
        } else if k > r {
          assert data[k] == d[k - 1] && towers[k + 1] == (a + b)[k];
        }
      }
    }

    lemma {:induction false} InsertedLevel(a: seq<Node>, x: Node, b: seq<Node>, oldLevel: nat)
      requires towers == a + [x] + b && a != [] && oldLevel <= MAX_LEVEL && 2 <= x.forward.Length <= MAX_LEVEL + 1
      requires forall i: nat {:trigger Lane(a + b, i)} :: oldLevel < i <= MAX_LEVEL ==> Lane(a + b, i) == [header]
      requires oldLevel > 0 ==> |Lane(a + b, oldLevel)| > 1
      requires level == if oldLevel < x.forward.Length - 1 then x.forward.Length - 1 else oldLevel
      requires a[0] == header && header.forward.Length == MAX_LEVEL + 1
      ensures Levelled()
    {
      forall i: nat | level < i <= MAX_LEVEL
        ensures Lane(towers, i) == [header]
      {
        LaneAround(a, x, b, i);
      }
      LaneAround(a, x, b, level);
      LaneMember(a, level, header);
    }

    /** On levels no tower reached so far the header is the predecessor. */
    method RaiseHeader(newLevel: nat, update: array<Node?>, ghost r: nat)
      requires Wires() && Levelled() && r < |towers| && level < newLevel <= MAX_LEVEL && update.Length == MAX_LEVEL + 1
      requires forall n :: n in links ==> update != n.forward
      requires forall j :: 0 <= j <= level ==> Precedes(update[j], towers, r, j)
      modifies update
      ensures forall j :: 0 <= j <= newLevel ==> Precedes(update[j], towers, r, j)
    {
      hide Lane;
      for i := level + 1 to newLevel + 1
        invariant Wires() && forall j :: 0 <= j < i ==> Precedes(update[j], towers, r, j)
      {
        HeaderLane(towers, header, r, i);
        update[i] := header;
      }
    }

    method LinkTower(x: Node, newLevel: nat, update: array<Node?>, ghost a: seq<Node>, ghost b: seq<Node>)
      requires Wires() && towers == a + b && a != [] && x !in towers && x.forward.Length == newLevel + 1 && 1 <= newLevel <= MAX_LEVEL
      requires forall n :: n in links ==> x.forward != n.forward
      requires update.Length == MAX_LEVEL + 1 && (forall n :: n in links ==> update != n.forward) && update != x.forward
      requires forall j :: 0 <= j <= newLevel ==> Precedes(update[j], towers, |a| - 1, j)
      modifies this`links, this`towers, x.forward, set n | n in links :: n.forward
      ensures Wires() && towers == a + [x] + b
    {
      ghost var links0 := links;
      links := links[x := x.forward[..]];
      HalfStart(a, x, b, links0, links, x.forward[..]);
      LinkLevels(x, newLevel, update, a, b);
      TowerIn(x, a, b);
    }

    /** All lanes lead through `x`. */
    ghost method TowerIn(x: Node, a: seq<Node>, b: seq<Node>)
      requires Mirrored() && links.Keys == (set n | n in a + b) + {x} && HalfWired(links, a + b, a + [x] + b, x.forward.Length)
      requires Distinct(a + b) && Tall(a + b) && a != [] && x !in a + b && 1 < x.forward.Length <= MAX_LEVEL + 1
      requires a[0] == header && header.forward.Length == MAX_LEVEL + 1
      modifies this`towers
      ensures Wires() && towers == a + [x] + b
    {
      LinkedUp(links, a, b, x);
      NowAround(a, x, b);
      towers := a + [x] + b;
    }

    method LinkLevels(x: Node, newLevel: nat, update: array<Node?>, ghost a: seq<Node>, ghost b: seq<Node>)
      requires Mirrored() && links.Keys == (set n | n in a + b) + {x} && HalfWired(links, a + b, a + [x] + b, 0)
      requires Distinct(a + b) && a != [] && x !in a + b && x.forward.Length == newLevel + 1 && newLevel <= MAX_LEVEL
      requires update.Length == MAX_LEVEL + 1 && forall n :: n in links ==> update != n.forward
      requires forall j :: 0 <= j <= newLevel ==> Precedes(update[j], a + b, |a| - 1, j)
      modifies this`links, set n | n in links :: n.forward
      ensures Mirrored() && links.Keys == old(links.Keys) && HalfWired(links, a + b, a + [x] + b, newLevel + 1)
    {
      for i := 0 to newLevel + 1
        invariant Mirrored() && links.Keys == old(links.Keys) && HalfWired(links, a + b, a + [x] + b, i)
      {
        PrecedesIn(update[i], a, b, i);
        LinkLevel(x, update[i], i, a, b);
      }
    }

    method LinkLevel(x: Node, u: Node, i: nat, ghost a: seq<Node>, ghost b: seq<Node>)
      requires Mirrored() && x in links && u in links && HalfWired(links, a + b, a + [x] + b, i) && i <= MAX_LEVEL
      requires Distinct(a + b) && x !in a + b && i < x.forward.Length && i < u.forward.Length && u != x
      requires Lane(a, i) != [] && u == Lane(a, i)[|Lane(a, i)| - 1]
      modifies this`links, x.forward, u.forward
      ensures Mirrored() && links.Keys == old(links.Keys) && HalfWired(links, a + b, a + [x] + b, i + 1)
    {
      ghost var links0 := links;
      x.forward[i] := u.forward[i];
      u.forward[i] := x;
      links := links[x := links[x][i := links[u][i]]][u := links[u][i := x]];
      LinkStep(links0, links, a, b, x, u, i);
    }

    // ----- deletion

    method Delete(key: Key) returns (code: int)
      requires Valid()
      modifies this, set n | n in links :: n.forward
      ensures Valid() && links.Keys <= old(links.Keys) && code == if Has(ItemsOf(old(data)), key) then 0 else -1
      ensures data == if code == 0 then RemoveAt(old(data), Rank(ItemsOf(old(data)), key)) else old(data)
      ensures Sorted(ItemsOf(old(data))) ==> Sorted(ItemsOf(data))
    {
      hide Strcmp;
      ghost var r := Split(key);
      var current, update := FindPreds(key, r);
      if current != null { StrcmpZero(current.key, key); }
      if current == null || Strcmp(current.key, key) != 0 {
        return -1;
      }
      if Sorted(ItemsOf(data)) { StaysSorted(data, r); }
      DeleteTower(current, update, r);
      code := 0;
    }

    lemma StaysSorted(d: seq<Record>, r: nat)
      requires r < |d| && Sorted(ItemsOf(d))
      ensures Sorted(ItemsOf(RemoveAt(d, r)))
    {
      RemoveItems(d, r);
      RemoveSorted(ItemsOf(d), r);
    }

    method DeleteTower(x: Node, update: array<Node?>, ghost r: nat)
      requires Valid() && r < |data| && x == towers[r + 1] && update.Length == MAX_LEVEL + 1
      requires forall n :: n in links ==> update != n.forward
      requires forall j :: 0 <= j <= level ==> Precedes(update[j], towers, r, j)
      modifies this, set n | n in links :: n.forward
      ensures Valid() && data == RemoveAt(old(data), r) && links.Keys <= old(links.Keys)
    {
      hide Tall, Distinct, AllWired;
      ghost var a, b, d := towers[..r + 1], towers[r + 2..], data;
      assert towers == a + [x] + b;
      UnlinkTower(x, update, a, b);
      TrimLevel();
      size := size - 1;
      data := RemoveAt(data, r);
      DeletedRecord(a, x, b, d, r);
    }

    lemma DeletedRecord(a: seq<Node>, x: Node, b: seq<Node>, d: seq<Record>, r: nat)
      requires towers == a + b && |a| == r + 1 && |d| == |a + b| && data == RemoveAt(d, r) && Ascending(ItemsOf(d))
      requires forall k {:trigger d[k]} :: 0 <= k < |d| ==> Keeps((a + [x] + b)[k + 1], d[k])
      ensures Holds()
    {
      forall k | 0 <= k < |data|
        ensures Keeps(towers[k + 1], data[k])
      {
        if k < r {
          assert data[k] == d[k] && towers[k + 1] == (a + [x] + b)[k + 1];
        } else {
          assert data[k] == d[k + 1] && towers[k + 1] == (a + [x] + b)[k + 2];
        }
      }
      RemoveItems(d, r);
      RemoveAscends(ItemsOf(d), r);
    }

    /** Unlinks `x` level by level, up to the first level where the predecessor points past it. */
    method UnlinkTower(x: Node, update: array<Node?>, ghost a: seq<Node>, ghost b: seq<Node>)
      requires Wires() && Levelled() && towers == a + [x] + b && a != [] && update.Length == MAX_LEVEL + 1
      requires forall n :: n in links ==> update != n.forward
      requires forall j :: 0 <= j <= level ==> Precedes(update[j], towers, |a| - 1, j)
      modifies this`links, this`towers, set n | n in links :: n.forward
      ensures Wires() && towers == a + b
      ensures forall i: nat {:trigger Lane(towers, i)} :: level < i <= MAX_LEVEL ==> Lane(towers, i) == [header]
    {
      hide Distinct, Lane;
      TopOf(a, x, b);
      NotAround(a, x, b);
      UnlinkLevels(x, update, a, b);
      UnlinkedUp(links, a, b, x);
      towers, links := a + b, links - {x};
    }

    method UnlinkLevels(x: Node, update: array<Node?>, ghost a: seq<Node>, ghost b: seq<Node>)
      requires Mirrored() && HalfWired(links, a + [x] + b, a + b, 0) && Distinct(a + [x] + b) && a != [] && x in links
      requires update.Length == MAX_LEVEL + 1 && level <= MAX_LEVEL && x.forward.Length <= level + 1
      requires forall n :: n in links ==> update != n.forward
      requires forall j :: 0 <= j <= level ==> Precedes(update[j], a + [x] + b, |a| - 1, j)
      modifies this`links, set n | n in links :: n.forward
      ensures Mirrored() && links.Keys == old(links.Keys) && HalfWired(links, a + [x] + b, a + b, x.forward.Length)
    {
      ghost var keys := links.Keys;
      var i: nat := 0;
      while i <= level
        invariant i <= x.forward.Length && HalfWired(links, a + [x] + b, a + b, i) && Mirrored() && links.Keys == keys
      {
        Stays(a, x, b, update[i], i);
        PointsAt(links, a, b, x, update[i], i);
        if update[i].forward[i] != x {
          break;
        }
        UnlinkLevel(x, update[i], i, a, b);
        i := i + 1;
      }
    }

    lemma {:induction false} Stays(a: seq<Node>, x: Node, b: seq<Node>, u: Node?, i: nat)
      requires a != [] && Precedes(u, a + [x] + b, |a| - 1, i)
      ensures u != null && i < u.forward.Length && Lane(a, i) != [] && u == Lane(a, i)[|Lane(a, i)| - 1]
    {
      assert a + [x] + b == a + ([x] + b);
      PrecedesIn(u, a, [x] + b, i);
    }

    method UnlinkLevel(x: Node, u: Node, i: nat, ghost a: seq<Node>, ghost b: seq<Node>)
      requires Mirrored() && x in links && u in links && HalfWired(links, a + [x] + b, a + b, i) && i <= MAX_LEVEL
      requires Distinct(a + [x] + b) && i < x.forward.Length && i < u.forward.Length
      requires Lane(a, i) != [] && u == Lane(a, i)[|Lane(a, i)| - 1]
      modifies this`links, u.forward
      ensures Mirrored() && links.Keys == old(links.Keys) && HalfWired(links, a + [x] + b, a + b, i + 1)
    {
      ghost var links0 := links;
      u.forward[i] := x.forward[i];
      links := links[u := links[u][i := links[x][i]]];
      UnlinkStep(links0, links, a, b, x, u, i);
    }

    /** No tower is higher than the level, and the lanes above it keep only the header. */
    lemma {:induction false} TopOf(a: seq<Node>, x: Node, b: seq<Node>)
      requires Wires() && Levelled() && towers == a + [x] + b && a != []
      ensures x.forward.Length <= level + 1
      ensures forall i: nat {:trigger Lane(a + b, i)} :: level < i <= MAX_LEVEL ==> Lane(a + b, i) == [header]
    {
      assert towers[|a|] == x && towers[0] == a[0];
      var top := x.forward.Length - 1;
      LaneMember(towers, top, x);
      forall i: nat | level < i <= MAX_LEVEL
        ensures Lane(a + b, i) == [header]
      {
        LaneAround(a, x, b, i);
        LaneMember(towers, i, x);
      }
    }

    /** Empty levels at the top are given up. */
    method TrimLevel()
      requires Wires() && level <= MAX_LEVEL
      requires forall i: nat {:trigger Lane(towers, i)} :: level < i <= MAX_LEVEL ==> Lane(towers, i) == [header]
      modifies this`level
      ensures Levelled()
    {
      while level > 0 && header.forward[level] == null
        invariant level <= MAX_LEVEL
        invariant forall i: nat {:trigger Lane(towers, i)} :: level < i <= MAX_LEVEL ==> Lane(towers, i) == [header]
      {
        HeaderPoints(level);
        level := level - 1;
      }
      HeaderPoints(level);
    }

    lemma {:induction false} HeaderPoints(i: nat)
      requires Wires() && i <= MAX_LEVEL
      ensures header.forward[i] == null <==> Lane(towers, i) == [header]
      ensures header.forward[i] != null ==> |Lane(towers, i)| > 1
    {
      LaneCut(towers, 0, i);
      LaneOne(header, i);
      assert towers[..1] == [header];
      assert Wired(links, Lane(towers, i), i);
      var next := NextOf(Lane(towers, i), 0);
    }

    // ----- ranges

    method GetTimestamp(key: Key) returns (ts: nat)
      requires Valid()
      ensures Has(ItemsOf(data), key) ==> ts == data[Rank(ItemsOf(data), key)].ts
      ensures !Has(ItemsOf(data), key) ==> ts == 0
    {
      ghost var r := Split(key);
      var node := Locate(key, r);
      ts := 0;
      if node != null {
        StrcmpZero(node.key, key);
        assert Keeps(towers[r + 1], data[r]);
        if Strcmp(node.key, key) == 0 {
          ts := node.timestamp;
        }
      }
    }

    /** `current` is the tower of record `k`, or nothing past the last record. */
    ghost predicate Stands(current: Node?, k: nat)
      reads this, towers
    {
      && |towers| == |data| + 1 && k <= |data|
      && if k < |data| then current == towers[k + 1] && Keeps(towers[k + 1], data[k]) else current == null
    }

    method First() returns (current: Node?)
      requires Wires() && Holds()
      ensures Stands(current, 0)
    {
      ghost var q;
      current, q := Look(header, 0, 0);
      GroundNext(towers, 0, current, q);
    }

    /** Reads a tower's record and moves on along level 0. */
    method Visit(current: Node, ghost k: nat) returns (rec: Record, next: Node?)
      requires Wires() && Holds() && Stands(current, k)
      ensures k < |data| && rec == data[k] && Stands(next, k + 1)
    {
      rec := Record(Item(current.key, current.value), current.timestamp);
      assert current in towers;
      ghost var q;
      next, q := Look(current, 0, k + 1);
      GroundNext(towers, k + 1, next, q);
    }

    /** The records with keys in `[lo, hi]`, in order, in an array with room for all. */
    method Range(lo: Key, hi: Key) returns (code: int, results: array?<Record>, count: nat)
      requires Valid()
      ensures code in {-2, 0, 1} && (code == -2 <==> Less(hi, lo)) && (code == 0 <==> results != null)
      ensures code == 1 ==> Select(data, lo, hi) == [] && count == 0
      ensures code == 0 ==> 0 < count <= results.Length == |data| && results[..count] == Select(data, lo, hi)
    {
      StrcmpFlip(lo, hi);
      if Strcmp(lo, hi) > 0 {
        return -2, null, 0;
      }
      var items := new Record[size](_ => Record(Item([], []), 0));
      count := Collect(lo, hi, items);
      if count == 0 {
        return 1, null, 0;
      }
      code, results := 0, items;
    }

    /** The walk along level 0, up to the first record beyond the range. */
    method Collect(lo: Key, hi: Key, items: array<Record>) returns (count: nat)
      requires Wires() && Holds() && items.Length == |data|
      modifies items
      ensures count <= items.Length && items[..count] == Select(data, lo, hi)
    {
      hide Tall, Select, Keeps;
      count := 0;
      ghost var end: nat := 0;
      var current := First();
      while current != null
        invariant count <= items.Length && end <= |data| && items[..count] == Select(data[..end], lo, hi) && Stands(current, end)
        decreases |data| - end
      {
        var rec, next := Visit(current, end);
        if Strcmp(rec.it.key, hi) > 0 {
          StrcmpFlip(rec.it.key, hi);
          SelectEnd(data, lo, hi, end);
          return;
        }
        StrcmpFlip(rec.it.key, hi);
        count := Keep(items, count, rec, Strcmp(rec.it.key, lo) >= 0, data, lo, hi, end);
        current, end := next, end + 1;
      }
      SelectEnd(data, lo, hi, end);
    }

    static method Store(items: array<Record>, count: nat, rec: Record)
      requires count < items.Length
      modifies items
      ensures items[..count + 1] == old(items[..count]) + [rec]
    {
      items[count] := rec;
    }

    /** All records, in order. */
    method GetAll() returns (results: array?<Record>, count: nat)
      requires Valid()
      ensures count == |data| && (results == null <==> count == 0)
      ensures count > 0 ==> results.Length == count && results[..] == data
    {
      if size == 0 {
        return null, 0;
      }
      var items := new Record[size](_ => Record(Item([], []), 0));
      count := CollectAll(items);
      assert items[..count] == items[..];
      results := items;
    }

    method CollectAll(items: array<Record>) returns (count: nat)
      requires Valid() && items.Length == size
      modifies items
      ensures count == |data| && items[..count] == data
    {
      count := 0;
      var current := First();
      while current != null
        invariant count <= items.Length && items[..count] == data[..count] && Stands(current, count)
        decreases |data| - count
      {
        var rec, next := Visit(current, count);
        Store(items, count, rec);
        current, count := next, count + 1;
      }
    }
  }
}
