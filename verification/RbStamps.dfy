/** The timestamps of a red-black tree: its records in key order, and what becomes of them when nodes
    exchange their items. */
module RbStamps {
  import opened Keys
  import opened SortedItems
  import opened SortedMaps
  import opened Records
  import opened RecordTables
  import opened RbShapes
  import opened RbBalance
  import opened RbOrder

  function Recs(t: Shape): seq<Record> {
    if t.Leaf? then [] else Recs(t.left) + [Record(t.it, t.ts)] + Recs(t.right)
  }

  lemma {:induction false} RecItems(t: Shape)
    ensures ItemsOf(Recs(t)) == Items(t)
  {
    if t.Br? {
      RecItems(t.left);
      RecItems(t.right);
      var l, m, r := Recs(t.left), [Record(t.it, t.ts)], Recs(t.right);
      assert ItemsOf(l + m + r) == ItemsOf(l) + [t.it] + ItemsOf(r);
    }
  }

  function Content(rec: Rec): Record { Record(rec.it, rec.ts) }

  /** Every node's record is in the list, */
  lemma {:induction false} NodeListed(h: Mem, nil: Node, par: Node, t: Shape, n: Node)
    requires Rep(h, nil, par, t) && n in Ids(t)
    ensures n in h && Content(h[n]) in Recs(t)
  {
    if n == t.node {
    } else if n in Ids(t.left) {
      NodeListed(h, nil, t.node, t.left, n);
    } else {
      NodeListed(h, nil, t.node, t.right, n);
    }
  }

  /** and every record of the list is some node's. */
  lemma {:induction false} ListedNode(h: Mem, nil: Node, par: Node, t: Shape, rec: Record) returns (n: Node)
    requires Rep(h, nil, par, t) && rec in Recs(t)
    ensures n in Ids(t) && n in h && Content(h[n]) == rec
  {
    if rec in Recs(t.left) {
      n := ListedNode(h, nil, t.node, t.left, rec);
    } else if rec in Recs(t.right) {
      n := ListedNode(h, nil, t.node, t.right, rec);
    } else {
      n := t.node;
    }
  }

  // ----- tables

  function Stamps(t: Shape): Table { TableOf(Recs(t)) }

  lemma {:induction false} StampsKeys(t: Shape, k: Key)
    requires Sorted(Items(t))
    ensures k in Stamps(t) <==> Has(Items(t), k)
    ensures k in Stamps(t) <==> k in ToMap(Items(t))
  {
    RecItems(t);
    TableRank(Recs(t), k);
    LookupMeans(Items(t), k);
  }

  lemma {:induction false} StampsAt(t: Shape, rec: Record)
    requires Sorted(Items(t)) && rec in Recs(t)
    ensures rec.it.key in Stamps(t) && Stamps(t)[rec.it.key] == StampOf(rec)
  {
    RecItems(t);
    SortedUnique(Recs(t));
    var i :| 0 <= i < |Recs(t)| && Recs(t)[i] == rec;
    TableAt(Recs(t), i);
  }

  lemma {:induction false} StampsListed(t: Shape, k: Key)
    requires Sorted(Items(t)) && k in Stamps(t)
    ensures Record(Item(k, Stamps(t)[k].val), Stamps(t)[k].ts) in Recs(t)
  {
    RecItems(t);
    SortedUnique(Recs(t));
    TableKey(Recs(t), k);
    var i :| 0 <= i < |Recs(t)| && Recs(t)[i].it.key == k;
    TableAt(Recs(t), i);
  }

  /** A table with the right keys that agrees with every node is the table of the tree. */
  lemma {:induction false} StampsAre(h: Mem, nil: Node, t: Shape, s: Table)
    requires Rep(h, nil, nil, t) && Sorted(Items(t))
    requires forall k :: k in s <==> k in ToMap(Items(t))
    requires forall n {:trigger h[n]} :: n in Ids(t) && n in h ==> h[n].it.key in s && s[h[n].it.key] == StampOf(Content(h[n]))
    ensures Stamps(t) == s
  {
    forall k: Key
      ensures k in Stamps(t) <==> k in s
      ensures k in Stamps(t) ==> Stamps(t)[k] == s[k]
    {
      StampsKeys(t, k);
      if k in Stamps(t) {
        StampsListed(t, k);
        var n := ListedNode(h, nil, nil, t, Record(Item(k, Stamps(t)[k].val), Stamps(t)[k].ts));
        assert h[n].it.key in s;
      }
    }
  }

  // ----- what the operations do to the nodes

  ghost predicate SameContent(h: Mem, h1: Mem, s: set<Node>) {
    forall n {:trigger n in s} :: n in s ==> n in h && n in h1 && Content(h1[n]) == Content(h[n])
  }

  /** The item at position `i + 1` has come into the node `z`, whose timestamp has stayed. */
  ghost predicate Moved(h: Mem, h1: Mem, z: Node, w: seq<Item>, i: nat) {
    && i + 1 < |w| && z in h && z in h1
    && Content(h1[z]) == Record(w[i + 1], h[z].ts)
  }

  /** A new node, with a new key. */
  lemma {:induction false} InsertedStamps(h: Mem, h1: Mem, nil: Node, t: Shape, t1: Shape, z: Node)
    requires Rep(h, nil, nil, t) && Rep(h1, nil, nil, t1) && Sorted(Items(t)) && Sorted(Items(t1))
    requires Ids(t1) == Ids(t) + {z} && z in h1 && SameContent(h, h1, Ids(t))
    requires !Has(Items(t), h1[z].it.key) && Items(t1) == Upsert(Items(t), h1[z].it)
    ensures Stamps(t1) == Stamps(t)[h1[z].it.key := StampOf(Content(h1[z]))]
  {
    var s := Stamps(t)[h1[z].it.key := StampOf(Content(h1[z]))];
    UpsertMeans(Items(t), h1[z].it);
    StampsKeys(t, h1[z].it.key);
    forall k: Key
      ensures k in s <==> k in ToMap(Items(t1))
    {
      StampsKeys(t, k);
    }
    forall n | n in Ids(t1) && n in h1
      ensures h1[n].it.key in s && s[h1[n].it.key] == StampOf(Content(h1[n]))
    {
      if n != z {
        NodeListed(h, nil, nil, t, n);
        StampsAt(t, Content(h[n]));
      }
    }
    StampsAre(h1, nil, t1, s);
  }

  /** A node whose value and timestamp are replaced. */
  lemma {:induction false} ModifiedStamps(h: Mem, h1: Mem, nil: Node, t: Shape, t1: Shape, z: Node)
    requires Rep(h, nil, nil, t) && Rep(h1, nil, nil, t1) && Sorted(Items(t)) && Sorted(Items(t1))
    requires Ids(t1) == Ids(t) && z in Ids(t) && z in h && z in h1 && SameContent(h, h1, Ids(t) - {z})
    requires h1[z].it.key == h[z].it.key && Items(t1) == Upsert(Items(t), h1[z].it)
    ensures Stamps(t1) == Stamps(t)[h1[z].it.key := StampOf(Content(h1[z]))]
  {
    var s := Stamps(t)[h1[z].it.key := StampOf(Content(h1[z]))];
    UpsertMeans(Items(t), h1[z].it);
    forall k: Key
      ensures k in s <==> k in ToMap(Items(t1))
    {
      StampsKeys(t, k);
    }
    forall n | n in Ids(t1) && n in h1
      ensures h1[n].it.key in s && s[h1[n].it.key] == StampOf(Content(h1[n]))
    {
      ModifiedNode(h, h1, nil, t, t1, z, n, s);
    }
    StampsAre(h1, nil, t1, s);
  }

  lemma {:induction false} ModifiedNode(h: Mem, h1: Mem, nil: Node, t: Shape, t1: Shape, z: Node, n: Node, s: Table)
    requires Rep(h, nil, nil, t) && Rep(h1, nil, nil, t1) && Sorted(Items(t)) && Sorted(Items(t1))
    requires Ids(t1) == Ids(t) && z in Ids(t) && z in h && z in h1 && SameContent(h, h1, Ids(t) - {z})
    requires n in Ids(t1) && n in h1 && s == Stamps(t)[h1[z].it.key := StampOf(Content(h1[z]))]
    ensures h1[n].it.key in s && s[h1[n].it.key] == StampOf(Content(h1[n]))
  {
    if h1[n].it.key == h1[z].it.key {
      SameKeyNodes(h1, nil, t1, n, z);
    } else {
      assert n in Ids(t) - {z};
      NodeListed(h, nil, nil, t, n);
      StampsAt(t, Content(h[n]));
    }
  }

  /** Nodes with the same key have the same content. */
  lemma {:induction false} SameKeyNodes(h: Mem, nil: Node, t: Shape, n: Node, z: Node)
    requires Rep(h, nil, nil, t) && Sorted(Items(t)) && n in Ids(t) && z in Ids(t) && n in h && z in h && h[n].it.key == h[z].it.key
    ensures Content(h[n]) == Content(h[z])
  {
    NodeListed(h, nil, nil, t, n);
    NodeListed(h, nil, nil, t, z);
    StampsAt(t, Content(h[n]));
    StampsAt(t, Content(h[z]));
  }

  lemma {:induction false} ReplacedStamps(h: Mem, h1: Mem, nil: Node, t: Shape, t1: Shape, z: Node, it: Item, ts: nat)
    requires Rep(h, nil, nil, t) && Rep(h1, nil, nil, t1) && Sorted(Items(t)) && Sorted(Items(t1))
    requires h.Keys == Ids(t) + {nil} && h1.Keys == Ids(t1) + {nil} && nil !in Ids(t) && nil !in Ids(t1)
    requires z in h && z != nil && h1 == h[z := h[z].(it := it, ts := ts)] && it.key == h[z].it.key
    requires Items(t1) == Upsert(Items(t), it)
    ensures Stamps(t1) == Stamps(t)[it.key := Stamp(it.val, ts)]
  {
    assert Ids(t1) == Ids(t);
    assert SameContent(h, h1, Ids(t) - {z});
    ModifiedStamps(h, h1, nil, t, t1, z);
  }

  // ----- deletion

  /** The branch that holds `key`, found by search. */
  function Search(t: Shape, key: Key): Shape {
    if t.Leaf? || Strcmp(key, t.it.key) == 0 then t
    else if Strcmp(key, t.it.key) < 0 then Search(t.left, key)
    else Search(t.right, key)
  }

  /** Memory spells out one tree only. */
  lemma {:induction false} RepUnique(h: Mem, nil: Node, par: Node, t: Shape, par1: Node, t1: Shape)
    requires Rep(h, nil, par, t) && Rep(h, nil, par1, t1) && Ptr(nil, t) == Ptr(nil, t1)
    ensures t == t1
  {
    if t.Br? {
      RepUnique(h, nil, t.node, t.left, t1.node, t1.left);
      RepUnique(h, nil, t.node, t.right, t1.node, t1.right);
    }
  }

  lemma {:induction false} PlugUnique(h: Mem, nil: Node, root: Node, c: Path, t: Shape, top: Shape)
    requires At(h, nil, root, c, t) && At(h, nil, root, [], top)
    ensures Plug(c, t) == top
  {
    GoTop(h, nil, root, c, t);
    assert PathRep(h, nil, root, [], Ptr(nil, top), Ids(top)) && PathRep(h, nil, root, [], Ptr(nil, Plug(c, t)), Ids(Plug(c, t)));
    RepUnique(h, nil, nil, Plug(c, t), nil, top);
  }

  /** Search from the root comes down any path that keeps to the key's side. */
  lemma {:induction false} SearchPath(c: Path, t: Shape, key: Key)
    requires Gap(c, key)
    ensures Search(Plug(c, t), key) == Search(t, key)
    decreases |c|
  {
    if c != [] {
      var c0, f := c[..|c| - 1], c[|c| - 1];
      GapUp(c, c0, f, key);
      SearchPath(c0, Fill(f, t), key);
    }
  }

  lemma {:induction false} GapUp(c: Path, c0: Path, f: Frame, key: Key)
    requires c == c0 + [f] && Gap(c, key)
    ensures Gap(c0, key) && (if f.dir == L then Less(key, f.it.key) else Strcmp(key, f.it.key) > 0)
  {
    SplitPath(c0, f);
    StrcmpFlip(key, f.it.key);
    var b, a, o := Before(c0), After(c0), Items(f.other);
    if f.dir == R {
      assert Before(c) == b + (o + [f.it]) && After(c) == [] + a;
      assert (b + (o + [f.it]))[|b| + |o|] == f.it;
      assert forall i :: 0 <= i < |b| ==> Before(c)[i] == b[i];
      assert forall i :: 0 <= i < |a| ==> After(c)[i] == a[i];
    } else {
      assert Before(c) == b + [] && After(c) == ([f.it] + o) + a;
      assert (([f.it] + o) + a)[0] == f.it;
      assert forall i :: 0 <= i < |b| ==> Before(c)[i] == b[i];
      assert forall i :: 0 <= i < |a| ==> After(c)[1 + |o| + i] == a[i];
    }
  }

  predicate TwoChildren(t: Shape) { t.Br? && t.left.Br? && t.right.Br? }

  /** What deleting the item at position `i` makes of the table. The timestamp of the successor's item
      is lost if that item moves into the node of the deleted one. */
  function WithoutKey(w: seq<Item>, s: Table, i: nat, moved: bool): Table
    requires i < |w|
  {
    if moved && i + 1 < |w| && w[i].key in s
    then (s - {w[i].key})[w[i + 1].key := Stamp(w[i + 1].val, s[w[i].key].ts)]
    else s - {w[i].key}
  }

  /** What deleting a key makes of the table. */
  function StampsWithout(t: Shape, key: Key): Table {
    if Has(Items(t), key) then WithoutKey(Items(t), Stamps(t), Rank(Items(t), key), TwoChildren(Search(t, key)))
    else Stamps(t)
  }

  /** The node itself goes. */
  lemma {:induction false} EdgeStamps(h: Mem, h1: Mem, nil: Node, t: Shape, t1: Shape, z: Node, i: nat)
    requires Rep(h, nil, nil, t) && Rep(h1, nil, nil, t1) && Sorted(Items(t)) && Sorted(Items(t1))
    requires Ids(t1) == Ids(t) - {z} && SameContent(h, h1, Ids(t1)) && i < |Items(t)| && Items(t1) == RemoveAt(Items(t), i)
    ensures Stamps(t1) == WithoutKey(Items(t), Stamps(t), i, false)
  {
    var s := WithoutKey(Items(t), Stamps(t), i, false);
    RemoveMeans(Items(t), i);
    forall k: Key
      ensures k in s <==> k in ToMap(Items(t1))
    {
      StampsKeys(t, k);
    }
    forall n | n in Ids(t1) && n in h1
      ensures h1[n].it.key in s && s[h1[n].it.key] == StampOf(Content(h1[n]))
    {
      KeptNode(h, h1, nil, t, t1, n);
      assert h1[n].it.key in s;
    }
    StampsAre(h1, nil, t1, s);
  }

  lemma {:induction false} KeptNode(h: Mem, h1: Mem, nil: Node, t: Shape, t1: Shape, n: Node)
    requires Rep(h, nil, nil, t) && Rep(h1, nil, nil, t1) && Sorted(Items(t)) && Sorted(Items(t1))
    requires n in Ids(t) && n in Ids(t1) && n in h && n in h1 && Content(h1[n]) == Content(h[n])
    ensures h1[n].it.key in ToMap(Items(t1)) && h1[n].it.key in Stamps(t)
    ensures Stamps(t)[h1[n].it.key] == StampOf(Content(h1[n]))
  {
    NodeListed(h, nil, nil, t, n);
    StampsAt(t, Content(h[n]));
    NodeListed(h1, nil, nil, t1, n);
    StampsAt(t1, Content(h1[n]));
    StampsKeys(t1, h1[n].it.key);
  }

  /** The successor `y` goes and leaves its item, but not its timestamp, in `z`. */
  lemma {:induction false} InnerStamps(h: Mem, h1: Mem, nil: Node, t: Shape, t1: Shape, z: Node, y: Node, i: nat)
    requires Rep(h, nil, nil, t) && Rep(h1, nil, nil, t1) && Sorted(Items(t)) && Sorted(Items(t1))
    requires y != z && z in Ids(t) && z in h && z in h1 && Ids(t1) == Ids(t) - {y} && SameContent(h, h1, Ids(t1) - {z})
    requires i + 1 < |Items(t)| && Items(t1) == RemoveAt(Items(t), i)
    requires h[z].it == Items(t)[i] && Content(h1[z]) == Record(Items(t)[i + 1], h[z].ts)
    ensures Stamps(t1) == WithoutKey(Items(t), Stamps(t), i, true)
  {
    var w := Items(t);
    NodeListed(h, nil, nil, t, z);
    StampsAt(t, Content(h[z]));
    var s := (Stamps(t) - {w[i].key})[w[i + 1].key := Stamp(w[i + 1].val, h[z].ts)];
    RemoveMeans(w, i);
    ValueInMap(w, i + 1);
    assert Less(w[i].key, w[i + 1].key);
    StrcmpZero(w[i].key, w[i + 1].key);
    forall k: Key
      ensures k in s <==> k in ToMap(Items(t1))
    {
      StampsKeys(t, k);
    }
    forall n | n in Ids(t1) && n in h1
      ensures h1[n].it.key in s && s[h1[n].it.key] == StampOf(Content(h1[n]))
    {
      if h1[n].it.key == h1[z].it.key {
        SameKeyNodes(h1, nil, t1, n, z);
      } else {
        assert n in Ids(t1) - {z};
        KeptNode(h, h1, nil, t, t1, n);
        assert h1[n].it.key in s;
      }
    }
    StampsAre(h1, nil, t1, s);
  }

  lemma SameContentPart(h: Mem, h1: Mem, s: set<Node>, s1: set<Node>)
    requires SameContent(h, h1, s) && s1 <= s
    ensures SameContent(h, h1, s1)
  {
  }

  /** Node `y` leaves, which is `z` itself or hands its item over to `z`. */
  lemma {:induction false} DeletedStamps(h: Mem, h1: Mem, nil: Node, t: Shape, t1: Shape, z: Node, y: Node, i: nat)
    requires Rep(h, nil, nil, t) && Rep(h1, nil, nil, t1) && Sorted(Items(t)) && Sorted(Items(t1))
    requires h.Keys == Ids(t) + {nil} && h1.Keys == Ids(t1) + {nil} && nil !in Ids(t) && nil !in Ids(t1)
    requires y in h && z in h && z != nil && y != nil && h1.Keys == h.Keys - {y} && SameContent(h, h1, h1.Keys - {z})
    requires i < |Items(t)| && Items(t1) == RemoveAt(Items(t), i) && h[z].it == Items(t)[i]
    requires y != z ==> Moved(h, h1, z, Items(t), i)
    ensures Stamps(t1) == WithoutKey(Items(t), Stamps(t), i, y != z)
  {
    assert Ids(t1) == Ids(t) - {y};
    SameContentPart(h, h1, h1.Keys - {z}, Ids(t1) - {z});
    if y == z {
      assert Ids(t1) - {z} == Ids(t1);
      EdgeStamps(h, h1, nil, t, t1, z, i);
    } else {
      InnerStamps(h, h1, nil, t, t1, z, y, i);
    }
  }

  /** The item after that of `key`. */
  function NextItem(t: Shape, key: Key): Item
    requires Rank(Items(t), key) + 1 < |Items(t)|
  {
    Items(t)[Rank(Items(t), key) + 1]
  }

  /** A key whose node has two children is not the greatest. */
  lemma TwoChildrenNext(t: Shape, key: Key)
    requires Sorted(Items(t)) && TwoChildren(Search(t, key))
    ensures Rank(Items(t), key) + 1 < |Items(t)|
  {
    var c, u := SearchEnds(t, key);
    WholeIsPlug(c, u);
    CutBranch(c, u);
    StrcmpZero(key, u.it.key);
    Hit(c, u);
  }

  /** Where the search ends, as a path. */
  lemma {:induction false} SearchEnds(t: Shape, key: Key) returns (c: Path, u: Shape)
    ensures Plug(c, u) == t && u == Search(t, key) && (u.Br? ==> Strcmp(key, u.it.key) == 0)
  {
    if t.Leaf? || Strcmp(key, t.it.key) == 0 {
      c, u := [], t;
    } else {
      var f := FrameOf(t, if Strcmp(key, t.it.key) < 0 then L else R);
      var c1;
      c1, u := SearchEnds(if Strcmp(key, t.it.key) < 0 then t.left else t.right, key);
      c := [f] + c1;
      PlugUnder(f, c1, u);
    }
  }

  lemma {:induction false} PlugUnder(f: Frame, c: Path, u: Shape)
    ensures Plug([f] + c, u) == Fill(f, Plug(c, u))
    decreases |c|
  {
    if c == [] {
      assert [f] + c == [f];
      assert Plug([f], u) == Plug([f][..0], Fill(f, u));
    } else {
      var c0, g := c[..|c| - 1], c[|c| - 1];
      assert ([f] + c)[..|c|] == [f] + c0;
      PlugUnder(f, c0, Fill(g, u));
    }
  }

  /** Deleting a key leaves the timestamps of all others alone exactly if its node has fewer than two
      children or the next key has the same timestamp. */
  lemma TimestampsKept(t: Shape, key: Key)
    requires Sorted(Items(t)) && Has(Items(t), key)
    ensures TwoChildren(Search(t, key)) ==> Rank(Items(t), key) + 1 < |Items(t)| && NextItem(t, key).key in Stamps(t)
    ensures key in Stamps(t)
    ensures StampsWithout(t, key) == Stamps(t) - {key} <==>
              (TwoChildren(Search(t, key)) ==> Stamps(t)[NextItem(t, key).key].ts == Stamps(t)[key].ts)
  {
    var w, i := Items(t), Rank(Items(t), key);
    StampsKeys(t, key);
    if TwoChildren(Search(t, key)) {
      TwoChildrenNext(t, key);
      var next := w[i + 1];
      assert Less(key, next.key);
      StrcmpZero(key, next.key);
      RecItems(t);
      assert Recs(t)[i + 1] in Recs(t) && Recs(t)[i + 1].it == next;
      StampsAt(t, Recs(t)[i + 1]);
      Slipped(Stamps(t), key, next.key, next.val);
    }
  }

  lemma Slipped(s: Table, key: Key, next: Key, val: Value)
    requires key in s && next in s && key != next && s[next].val == val
    ensures (s - {key})[next := Stamp(val, s[key].ts)] == s - {key} <==> s[next].ts == s[key].ts
  {
    var u := (s - {key})[next := Stamp(val, s[key].ts)];
    assert u[next] == Stamp(val, s[key].ts) && (s - {key})[next] == s[next];
    if s[next].ts == s[key].ts {
      assert u == s - {key};
    }
  }
}
