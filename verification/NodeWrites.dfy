/** The writes of insertion, each on a node that nothing else shares. */
module NodeWrites {
  import opened Keys
  import opened SortedItems
  import opened Weave
  import opened NodeHeap
  import opened NodeHeapLemmas
  import opened NodeReading

  ghost function Noted(a: Notes, n: Id, cont: seq<Item>): Notes
    requires n < |a|
  {
    a[n := Note(a[n].level, cont)]
  }

  /** Rewriting the items of `n` disturbs only the nodes that hold `n`. */
  lemma RewriteSound(h: Heap, a: Notes, mx: nat, ext: multiset<Id>, n: Id, n1: Node, cont1: seq<Item>)
    requires Sound(h, a, mx, ext) && n < |h| && h[n].Node?
    requires n1.Node? && n1.rc == h[n].rc && n1.leaf == h[n].leaf && n1.children == h[n].children
    requires Coherent(h[n := n1], Noted(a, n, cont1), mx, n, -1)
    ensures SoundBut(h[n := n1], Noted(a, n, cont1), mx, ext, n, -1)
    ensures Frame(h, a, h[n := n1], Noted(a, n, cont1), ext, n)
  {
    var h1, a1 := h[n := n1], Noted(a, n, cont1);
    ExactUpdate(h, ext, n, n1, ext);
    forall x | 0 <= x < |h1| && h1[x].Node? && (x == n || n !in h1[x].children)
      ensures Coherent(h1, a1, mx, x, -1)
    {
      if x != n {
        assert Coherent(h, a, mx, x, -1);
        RewriteCoherent(h, a, mx, n, n1, a1[n], x);
      }
    }
  }

  lemma RewriteCoherent(h: Heap, a: Notes, mx: nat, n: Id, n1: Node, note: Note, x: Id)
    requires |h| == |a| && n < |h| && x < |h| && x != n && Coherent(h, a, mx, x, -1)
    requires n !in h[x].children
    ensures Coherent(h[n := n1], a[n := note], mx, x, -1)
  {
    forall k | 0 <= k < |h[x].children|
      ensures KidOk(h, a, mx, h[x].children[k], a[x].level, -1)
      ensures h[x].children[k] != n
    {
    }
    CoherentKept(h, a, h[n := n1], a[n := note], mx, x, -1, -1);
  }

  /** Keeping the children, a node stays shaped as long as its items fit. */
  lemma RewriteShaped(h: Heap, a: Notes, mx: nat, n: Id, n1: Node, note: Note)
    requires |h| == |a| && n < |h| && Shaped(h, a, mx, n, -1)
    requires n1.Node? && n1.leaf == h[n].leaf && n1.children == h[n].children && note.level == a[n].level
    requires |n1.items| <= mx && (n1.leaf || |n1.items| == |h[n].items|)
    ensures Shaped(h[n := n1], a[n := note], mx, n, -1)
  {
    forall k | 0 <= k < |n1.children|
      ensures KidOk(h[n := n1], a[n := note], mx, n1.children[k], note.level, -1)
    {
      assert KidOk(h, a, mx, h[n].children[k], a[n].level, -1);
    }
  }

  /** Rewriting the items of a branch `n` whose holders are already out of step. */
  lemma RewriteAgain(h: Heap, a: Notes, mx: nat, ext: multiset<Id>, n: Id, n1: Node, cont1: seq<Item>, u: int)
    requires SoundBut(h, a, mx, ext, n, u) && n < |h| && h[n].Node? && n !in h[n].children
    requires n1.Node? && n1.rc == h[n].rc && n1.leaf == h[n].leaf && n1.children == h[n].children
    requires |n1.items| == |h[n].items| && Reads(n1, a, cont1) && Sorted(cont1)
    ensures SoundBut(h[n := n1], Noted(a, n, cont1), mx, ext, n, u)
    ensures Frame(h, a, h[n := n1], Noted(a, n, cont1), ext, n)
  {
    var h1, a1 := h[n := n1], Noted(a, n, cont1);
    ExactUpdate(h, ext, n, n1, ext);
    assert Coherent(h, a, mx, n, u);
    forall x | 0 <= x < |h1| && h1[x].Node? && (x == n || n !in h1[x].children)
      ensures Coherent(h1, a1, mx, x, u)
    {
      assert Coherent(h, a, mx, x, u);
      AgainCoherent(h, a, mx, n, n1, cont1, x, u);
    }
    forall x | 0 <= x < |h| && x != n
      ensures Kept(h, a, h1, a1, ext, a[n].level, x)
    {
    }
  }

  lemma AgainCoherent(h: Heap, a: Notes, mx: nat, n: Id, n1: Node, cont1: seq<Item>, x: Id, u: int)
    requires |h| == |a| && n < |h| && x < |h| && Coherent(h, a, mx, x, u) && Coherent(h, a, mx, n, u)
    requires n !in h[x].children
    requires n1.Node? && n1.leaf == h[n].leaf && n1.children == h[n].children
    requires |n1.items| == |h[n].items| && Reads(n1, a, cont1) && Sorted(cont1)
    ensures Coherent(h[n := n1], Noted(a, n, cont1), mx, x, u)
  {
    var h1, a1 := h[n := n1], Noted(a, n, cont1);
    forall k | 0 <= k < |h[x].children|
      ensures KidOk(h, a, mx, h[x].children[k], a[x].level, u)
      ensures h[x].children[k] != n && h[x].children[k] < |a|
      ensures KidOk(h1, a1, mx, h[x].children[k], a[x].level, u)
    {
      assert KidOk(h, a, mx, h[x].children[k], a[x].level, u);
    }
    if x == n {
      PartsSame(a, a1, h[n].children);
      assert Shaped(h1, a1, mx, n, u);
      assert Reads(h1[n], a1, cont1);
    } else {
      CoherentKept(h, a, h1, a1, mx, x, u, u);
    }
  }

  // ----- writing into a leaf

  lemma LeafRewrite(h: Heap, a: Notes, mx: nat, ext: multiset<Id>, n: Id, n1: Node)
    requires Sound(h, a, mx, ext) && n < |h| && h[n].Node? && h[n].leaf
    requires n1.Node? && n1.rc == h[n].rc && n1.leaf && n1.children == h[n].children
    requires |n1.items| <= mx && Sorted(n1.items)
    ensures SoundBut(h[n := n1], Noted(a, n, n1.items), mx, ext, n, -1)
    ensures Frame(h, a, h[n := n1], Noted(a, n, n1.items), ext, n)
    ensures a[n].cont == h[n].items
  {
    assert Coherent(h, a, mx, n, -1);
    RewriteShaped(h, a, mx, n, n1, Note(a[n].level, n1.items));
    assert Reads(h[n], a, a[n].cont);
    assert Reads(n1, Noted(a, n, n1.items), n1.items);
    RewriteSound(h, a, mx, ext, n, n1, n1.items);
  }

  lemma {:induction false} SearchIsRank(s: seq<Item>, key: Key, i: nat, found: bool)
    requires Sorted(s) && SearchedAt(s, key, i, found)
    ensures Rank(s, key) == i && Has(s, key) == found
  {
    TotalOrder();
    RankUnique(s, key, i);
  }

  // ----- replacing an item of a branch

  lemma BranchReplace(h: Heap, a: Notes, mx: nat, ext: multiset<Id>, n: Id, n1: Node, i: nat, it: Item,
                      cont1: seq<Item>)
    requires Sound(h, a, mx, ext) && n < |h| && h[n].Node? && !h[n].leaf
    requires i < |h[n].items| && h[n].items[i].key == it.key
    requires n1.Node? && n1 == h[n].(items := n1.items) && n1.items == h[n].items[i := it]
    requires cont1 == Upsert(a[n].cont, it)
    ensures SoundBut(h[n := n1], Noted(a, n, cont1), mx, ext, n, -1)
    ensures Frame(h, a, h[n := n1], Noted(a, n, cont1), ext, n)
    ensures Lookup(a[n].cont, it.key) == Some(h[n].items[i])
  {
    assert Coherent(h, a, mx, n, -1);
    KidsBelow(h, a, mx, n);
    BranchReplaceReads(h[n], a, a[n].cont, n1, i, it);
    UpsertSorted(a[n].cont, it);
    var a1 := Noted(a, n, cont1);
    PartsSame(a, a1, h[n].children);
    assert Reads(n1, a1, cont1);
    RewriteShaped(h, a, mx, n, n1, a1[n]);
    RewriteSound(h, a, mx, ext, n, n1, cont1);
  }

  lemma BranchReplaceReads(n: Node, a: Notes, cont: seq<Item>, n1: Node, i: nat, it: Item)
    requires Branch(n) && Reads(n, a, cont) && Sorted(cont) && i < |n.items| && n.items[i].key == it.key
    requires forall k :: 0 <= k < |n.children| ==> n.children[k] < |a|
    requires n1.Node? && n1 == n.(items := n1.items) && n1.items == n.items[i := it]
    ensures Reads(n1, a, Upsert(cont, it))
    ensures Lookup(cont, it.key) == Some(n.items[i])
  {
    var l, r := LeftOf(n, a, i) + a[n.children[i]].cont, a[n.children[i + 1]].cont + RightOf(n, a, i + 1);
    var cont1 := WeaveAll(n1.items, Parts(a, n1.children));
    assert Reads(n1, a, cont1);
    ItemCut(n, a, cont, i);
    ItemCut(n1, a, cont1, i);
    assert n1.items[..i] == n.items[..i] && n1.items[i + 1..] == n.items[i + 1..];
    assert cont1 == l + [it] + r;
    ItemSides(l, n.items[i], r);
    UpsertMiddle(l, [n.items[i]], r, it);
    UpsertOne(n.items[i], it);
  }

  lemma UpsertOne(was: Item, it: Item)
    requires was.key == it.key
    ensures Upsert([was], it) == [it] && Lookup([was], it.key) == Some(was)
  {
    TotalOrder();
    RankUnique([was], it.key, 0);
  }

  // ----- after the recursive call

  /** The child `c` of `n` has changed; noting its new reading in `n` makes `n` coherent again,
      short child `u` apart. */
  lemma Propagate(h: Heap, a: Notes, h1: Heap, a1: Notes, mx: nat, ext: multiset<Id>, n: Id, i: nat, c: Id,
                  cont1: seq<Item>, u: int)
    requires Sound(h, a, mx, ext) && n < |h| && Branch(h[n]) && h[n].rc == 0
    requires i < |h[n].children| && c == h[n].children[i] && c < |h| && h[c].Node? && h[c].rc == 0
    requires Frame(h, a, h1, a1, ext, c) && SoundBut(h1, a1, mx, ext, c, -1)
    requires c == u || mx / 2 <= |h1[c].items|
    requires cont1 == LeftOf(h[n], a, i) + a1[c].cont + RightOf(h[n], a, i) && Sorted(cont1)
    ensures n < |a1| && h1[n] == h[n]
    ensures SoundBut(h1, Noted(a1, n, cont1), mx, ext, n, u)
    ensures Frame(h, a, h1, Noted(a1, n, cont1), ext, n)
  {
    assert Coherent(h, a, mx, n, -1);
    KidsBelow(h, a, mx, n);
    SoleSlot(h, ext, n, i);
    assert Kept(h, a, h1, a1, ext, a[c].level, n);
    SoleSlot(h1, ext, n, i);
    PropagateFrame(h, a, h1, a1, mx, ext, n, i, c, cont1);
    PropagateHere(h, a, h1, a1, mx, ext, n, i, c, cont1, u);
    var a2 := Noted(a1, n, cont1);
    forall x | 0 <= x < |h1| && h1[x].Node? && (x == n || n !in h1[x].children)
      ensures Coherent(h1, a2, mx, x, u)
    {
      if x != n {
        assert Coherent(h1, a1, mx, x, -1);
        PropagateElsewhere(h1, a1, mx, n, a2[n], x, u);
      }
    }
  }

  lemma PropagateElsewhere(h1: Heap, a1: Notes, mx: nat, n: Id, note: Note, x: Id, u: int)
    requires |h1| == |a1| && n < |h1| && x < |h1| && x != n && Coherent(h1, a1, mx, x, -1)
    requires n !in h1[x].children
    ensures Coherent(h1, a1[n := note], mx, x, u)
  {
    forall k | 0 <= k < |h1[x].children|
      ensures KidOk(h1, a1, mx, h1[x].children[k], a1[x].level, -1)
      ensures h1[x].children[k] != n
    {
    }
    CoherentKept(h1, a1, h1, a1[n := note], mx, x, -1, u);
  }

  lemma PropagateFrame(h: Heap, a: Notes, h1: Heap, a1: Notes, mx: nat, ext: multiset<Id>, n: Id, i: nat, c: Id,
                       cont1: seq<Item>)
    requires |h| == |a| && n < |h| && Coherent(h, a, mx, n, -1) && Branch(h[n]) && h[n].rc == 0
    requires i < |h[n].children| && c == h[n].children[i] && c < |h| && h[c].Node? && ext[c] == 0
    requires a[c].level + 1 == a[n].level
    requires Frame(h, a, h1, a1, ext, c)
    ensures n < |a1| && Frame(h, a, h1, Noted(a1, n, cont1), ext, n)
  {
    assert Kept(h, a, h1, a1, ext, a[c].level, n);
    var a2 := Noted(a1, n, cont1);
    forall x | 0 <= x < |h| && x != n
      ensures Kept(h, a, h1, a2, ext, a[n].level, x)
    {
      if x != c {
        assert Kept(h, a, h1, a1, ext, a[c].level, x);
      }
    }
  }

  lemma PropagateHere(h: Heap, a: Notes, h1: Heap, a1: Notes, mx: nat, ext: multiset<Id>, n: Id, i: nat, c: Id,
                      cont1: seq<Item>, u: int)
    requires |h| == |a| && n < |h| && Coherent(h, a, mx, n, -1) && Branch(h[n])
    requires i < |h[n].children| && c == h[n].children[i] && c < |h| && h[c].Node?
    requires forall j :: 0 <= j < |h[n].children| && j != i ==> h[n].children[j] != c
    requires Frame(h, a, h1, a1, ext, c) && h1[n] == h[n] && a1[n] == a[n]
    requires c == u || mx / 2 <= |h1[c].items|
    requires cont1 == LeftOf(h[n], a, i) + a1[c].cont + RightOf(h[n], a, i) && Sorted(cont1)
    ensures Coherent(h1, Noted(a1, n, cont1), mx, n, u)
  {
    var a2 := Noted(a1, n, cont1);
    KidsBelow(h, a, mx, n);
    forall k | 0 <= k < |h[n].children|
      ensures k != i ==> a2[h[n].children[k]] == a[h[n].children[k]]
      ensures KidOk(h1, a2, mx, h[n].children[k], a[n].level, u)
    {
      assert KidOk(h, a, mx, h[n].children[k], a[n].level, -1);
      if k != i {
        assert Kept(h, a, h1, a1, ext, a[c].level, h[n].children[k]);
      }
    }
    SidesKept(h[n], a, a2, i);
    var w := WeaveAll(h[n].items, Parts(a2, h[n].children));
    assert Reads(h1[n], a2, w);
    NodeCut(h1[n], a2, w, i);
  }
}
