/** The fast paths: a private path down the first or the last children, a write in the leaf at its
    end, and what that write means for every node on the way up. */
module EdgePaths {
  import opened Keys
  import opened SortedItems
  import opened NodeHeap
  import opened NodeHeapLemmas
  import opened NodeReading
  import opened NodeWrites
  import opened NodeSets
  import opened NodeDeletes
  import opened Trees

  /** The slot of the first or of the last child. */
  function EdgeSlot(n: Node, front: bool): nat {
    if front || n.Free? then 0 else |n.items|
  }

  /** Each node of the path is private and holds the next one in its edge slot. */
  ghost predicate EdgePath(h: Heap, a: Notes, path: seq<Id>, front: bool)
    requires |h| == |a|
  {
    && path != [] && path[0] < |h|
    && (forall k :: 0 <= k < |path| ==>
          path[k] < |h| && h[path[k]].Node? && h[path[k]].rc == 0 && a[path[k]].level + k == a[path[0]].level)
    && forall k :: 0 <= k < |path| - 1 ==> EdgeStep(h, path[k], path[k + 1], front)
  }

  ghost predicate EdgeStep(h: Heap, p: Id, c: Id, front: bool) {
    p < |h| && Branch(h[p]) && h[p].children[EdgeSlot(h[p], front)] == c
  }

  lemma CowedTree(tree: Tree, h: Heap, a: Notes, h1: Heap, a1: Notes, n: Id, i: nat)
    requires TreeOk(tree, h, a) && Cowed(h, a, h1, a1, n, i)
    ensures TreeOk(tree, h1, a1) && Noting(tree, a1) == Noting(tree, a)
  {
  }

  lemma {:induction false} CowedFamily(ts: seq<Tree>, h: Heap, a: Notes, h1: Heap, a1: Notes, mx: nat, t: nat, n: Id, i: nat)
    requires FamilyOk(ts, h, a, mx) && t < |ts| && ts[t].Tree?
    requires Sound(h1, a1, mx, Roots(ts)) && Cowed(h, a, h1, a1, n, i)
    ensures FamilyOk(ts, h1, a1, mx) && Quiet(ts, h, ts, h1, t)
  {
    forall j | 0 <= j < |ts|
      ensures TreeOk(ts[j], h1, a1) && Noting(ts[j], a1) == Noting(ts[j], a)
    {
      assert TreeOk(ts[j], h, a);
      CowedTree(ts[j], h, a, h1, a1, n, i);
    }
    assert ts[t := ts[t]] == ts;
    FamilyStep(ts, h, a, mx, t, ts[t], h1, a1);
    ViewIsNoted(ts, h, a, mx, t);
    ViewIsNoted(ts, h1, a1, mx, t);
  }

  lemma PathCowed(h: Heap, a: Notes, h1: Heap, a1: Notes, mx: nat, path: seq<Id>, front: bool, n: Id, c: Id)
    requires |h| == |a| && EdgePath(h, a, path, front) && n == path[|path| - 1]
    requires Coherent(h, a, mx, n, -1) && !h[n].leaf && Branch(h[n])
    requires Cowed(h, a, h1, a1, n, EdgeSlot(h[n], front))
    requires |h1| == |a1| && Coherent(h1, a1, mx, n, -1) && c == h1[n].children[EdgeSlot(h[n], front)]
    ensures EdgePath(h1, a1, path + [c], front) && a1[c].level < a[n].level
  {
    hide Reads;
    KidsBelow(h, a, mx, n);
    KidsBelow(h1, a1, mx, n);
    var p1 := path + [c];
    forall k | 0 <= k < |p1|
      ensures p1[k] < |h1| && h1[p1[k]].Node? && h1[p1[k]].rc == 0 && a1[p1[k]].level + k == a1[p1[0]].level
    {
    }
    forall k | 0 <= k < |p1| - 1
      ensures EdgeStep(h1, p1[k], p1[k + 1], front)
    {
      if k < |path| - 1 {
        assert EdgeStep(h, path[k], path[k + 1], front);
      }
    }
  }

  // ----- taking the first or the last item out of the leaf

  lemma LiftTaken(h: Heap, a: Notes, mx: nat, p: Id, i: nat, c: Id, act: DelAct, key: Key, part: seq<Item>,
                  prev: Option<Item>)
    requires |h| == |a| && p < |h| && Coherent(h, a, mx, p, -1) && Branch(h[p]) && i <= |h[p].items|
    requires h[p].children[i] == c && c < |h| && Leads(h[p].items, act, key, i)
    requires TookOut(a[c].cont, act, key, part, prev)
    ensures TookOut(a[p].cont, act, key, LeftOf(h[p], a, i) + part + RightOf(h[p], a, i), prev)
    ensures Sorted(LeftOf(h[p], a, i) + part + RightOf(h[p], a, i))
  {
    hide Reads, Less, Rank;
    KidsBelow(h, a, mx, p);
    TargetInChild(h[p], a, a[p].cont, i, act, key);
    NodeCut(h[p], a, a[p].cont, i);
    TookOutMiddle(LeftOf(h[p], a, i), a[c].cont, RightOf(h[p], a, i), act, key, part, prev);
    RemoveSorted(a[p].cont, Target(act, key, a[p].cont).value);
  }

  lemma {:induction false} AscendTaken(h: Heap, a: Notes, h1: Heap, a1: Notes, mx: nat, ext: multiset<Id>, path: seq<Id>,
                                       front: bool, act: DelAct, key: Key, prev: Option<Item>) returns (a2: Notes)
    requires Sound(h, a, mx, ext) && EdgePath(h, a, path, front)
    requires act == if front then PopFront else PopBack
    requires Frame(h, a, h1, a1, ext, path[|path| - 1]) && SoundBut(h1, a1, mx, ext, path[|path| - 1], -1)
    requires TookOut(a[path[|path| - 1]].cont, act, key, a1[path[|path| - 1]].cont, prev)
    requires |path| > 1 ==> mx / 2 <= |h1[path[|path| - 1]].items|
    ensures Frame(h, a, h1, a2, ext, path[0]) && SoundBut(h1, a2, mx, ext, path[0], -1)
    ensures TookOut(a[path[0]].cont, act, key, a2[path[0]].cont, prev)
    decreases |path|
  {
    if |path| == 1 {
      return a1;
    }
    var up := path[..|path| - 1];
    var p, c := path[|path| - 2], path[|path| - 1];
    assert EdgeStep(h, path[|path| - 2], path[|path| - 1], front);
    var i := EdgeSlot(h[p], front);
    assert Coherent(h, a, mx, p, -1);
    LiftTaken(h, a, mx, p, i, c, act, key, a1[c].cont, prev);
    var cont1 := LeftOf(h[p], a, i) + a1[c].cont + RightOf(h[p], a, i);
    Propagate(h, a, h1, a1, mx, ext, p, i, c, cont1, -1);
    PathInner(h, a, mx, ext, path, front);
    a2 := AscendTaken(h, a, h1, Noted(a1, p, cont1), mx, ext, up, front, act, key, prev);
  }

  /** The path without its last node; an inner node is as full as any child. */
  lemma PathInner(h: Heap, a: Notes, mx: nat, ext: multiset<Id>, path: seq<Id>, front: bool)
    requires Sound(h, a, mx, ext) && EdgePath(h, a, path, front) && |path| > 1
    ensures EdgePath(h, a, path[..|path| - 1], front)
    ensures |path| > 2 ==> mx / 2 <= |h[path[|path| - 2]].items|
  {
    var up := path[..|path| - 1];
    forall k | 0 <= k < |up| - 1
      ensures EdgeStep(h, up[k], up[k + 1], front)
    {
      assert EdgeStep(h, path[k], path[k + 1], front);
    }
    if |path| > 2 {
      var g := path[|path| - 3];
      assert EdgeStep(h, path[|path| - 3], path[|path| - 2], front);
      assert Coherent(h, a, mx, g, -1);
      assert KidOk(h, a, mx, h[g].children[EdgeSlot(h[g], front)], a[g].level, -1);
    }
  }

  // ----- appending a greatest item to the last leaf

  lemma LastOfBranch(h: Heap, a: Notes, mx: nat, p: Id, c: Id)
    requires |h| == |a| && p < |h| && Coherent(h, a, mx, p, -1) && EdgeStep(h, p, c, false) && c < |a|
    ensures LeftOf(h[p], a, |h[p].items|) + a[c].cont + RightOf(h[p], a, |h[p].items|) == a[p].cont
    ensures RightOf(h[p], a, |h[p].items|) == []
  {
    NodeCut(h[p], a, a[p].cont, |h[p].items|);
  }

  /** An item above the last of a non-empty sorted sequence. */
  ghost predicate Extends(s: seq<Item>, it: Item) {
    s != [] && Less(s[|s| - 1].key, it.key)
  }

  lemma ExtendsAll(s: seq<Item>, it: Item)
    requires Sorted(s) && Extends(s, it)
    ensures Sorted(s + [it]) && Upsert(s, it) == s + [it] && Lookup(s, it.key) == None
  {
    TotalOrder();
    var last := |s| - 1;
    assert forall i :: 0 <= i < last ==> Less(s[i].key, s[last].key);
    RankUnique(s, it.key, |s|);
  }

  lemma LiftAppended(h: Heap, a: Notes, mx: nat, p: Id, c: Id, it: Item)
    requires |h| == |a| && p < |h| && Coherent(h, a, mx, p, -1) && EdgeStep(h, p, c, false) && c < |a|
    requires Extends(a[c].cont, it)
    ensures Extends(a[p].cont, it) && Sorted(a[p].cont + [it])
    ensures LeftOf(h[p], a, |h[p].items|) + (a[c].cont + [it]) + RightOf(h[p], a, |h[p].items|) == a[p].cont + [it]
  {
    var l, r := LeftOf(h[p], a, |h[p].items|), RightOf(h[p], a, |h[p].items|);
    LastOfBranch(h, a, mx, p, c);
    EmptyRight(l, a[c].cont, [it]);
    assert a[p].cont == l + a[c].cont;
    assert a[p].cont[|a[p].cont| - 1] == a[c].cont[|a[c].cont| - 1];
    ExtendsAll(a[p].cont, it);
  }

  lemma EmptyRight<T>(l: seq<T>, m: seq<T>, x: seq<T>)
    ensures l + m + [] == l + m && l + (m + x) + [] == l + m + x
  {
  }

  lemma {:induction false} AscendAppended(h: Heap, a: Notes, h1: Heap, a1: Notes, mx: nat, ext: multiset<Id>,
                                          path: seq<Id>, it: Item) returns (a2: Notes)
    requires Sound(h, a, mx, ext) && EdgePath(h, a, path, false)
    requires Frame(h, a, h1, a1, ext, path[|path| - 1]) && SoundBut(h1, a1, mx, ext, path[|path| - 1], -1)
    requires Extends(a[path[|path| - 1]].cont, it)
    requires a1[path[|path| - 1]].cont == a[path[|path| - 1]].cont + [it]
    requires |path| > 1 ==> mx / 2 <= |h1[path[|path| - 1]].items|
    ensures Frame(h, a, h1, a2, ext, path[0]) && SoundBut(h1, a2, mx, ext, path[0], -1)
    ensures Extends(a[path[0]].cont, it) && a2[path[0]].cont == a[path[0]].cont + [it]
    decreases |path|
  {
    if |path| == 1 {
      return a1;
    }
    var up := path[..|path| - 1];
    var p, c := path[|path| - 2], path[|path| - 1];
    assert EdgeStep(h, path[|path| - 2], path[|path| - 1], false);
    assert Coherent(h, a, mx, p, -1);
    LiftAppended(h, a, mx, p, c, it);
    var cont1 := a[p].cont + [it];
    Propagate(h, a, h1, a1, mx, ext, p, |h[p].items|, c, cont1, -1);
    PathInner(h, a, mx, ext, path, false);
    a2 := AscendAppended(h, a, h1, Noted(a1, p, cont1), mx, ext, up, it);
  }

  // ----- the leaf writes

  lemma LeafAppendDone(h: Heap, a: Notes, mx: nat, ext: multiset<Id>, n: Id, n1: Node, it: Item)
    requires Sound(h, a, mx, ext) && n < |h| && h[n].Node? && h[n].leaf && 0 < |h[n].items| < mx
    requires Less(h[n].items[|h[n].items| - 1].key, it.key)
    requires n1.Node? && n1 == h[n].(items := n1.items) && n1.items == h[n].items + [it]
    ensures Frame(h, a, h[n := n1], Noted(a, n, n1.items), ext, n)
    ensures SoundBut(h[n := n1], Noted(a, n, n1.items), mx, ext, n, -1)
    ensures Extends(a[n].cont, it) && n1.items == a[n].cont + [it]
  {
    assert Coherent(h, a, mx, n, -1);
    assert Reads(h[n], a, a[n].cont);
    ExtendsAll(h[n].items, it);
    LeafRewrite(h, a, mx, ext, n, n1);
  }

  // ----- closing the fast paths

  lemma PathStart(ts: seq<Tree>, h: Heap, a: Notes, mx: nat, t: nat, n: Id, front: bool)
    requires FamilyOk(ts, h, a, mx) && t < |ts| && ts[t].Tree? && ts[t].root == Some(n)
    requires n < |h| && h[n].Node? && h[n].rc == 0
    ensures EdgePath(h, a, [n], front)
  {
  }

  /** The node at the end of the path is not empty. */
  lemma PathEnd(ts: seq<Tree>, h: Heap, a: Notes, mx: nat, t: nat, path: seq<Id>, front: bool)
    requires FamilyOk(ts, h, a, mx) && t < |ts| && ts[t].Tree? && EdgePath(h, a, path, front)
    requires ts[t].root == Some(path[0])
    ensures var n := path[|path| - 1]; 0 < |h[n].items| <= mx && (|path| > 1 ==> mx / 2 <= |h[n].items|)
    ensures |h[path[|path| - 1]].children| == if h[path[|path| - 1]].leaf then 0 else |h[path[|path| - 1]].items| + 1
  {
    var n := path[|path| - 1];
    assert TreeOk(ts[t], h, a);
    assert Coherent(h, a, mx, n, -1);
    NodeItemsSorted(h, a, mx, n);
    if |path| > 1 {
      var g := path[|path| - 2];
      assert EdgeStep(h, path[|path| - 2], path[|path| - 1], front);
      assert Coherent(h, a, mx, g, -1);
      assert KidOk(h, a, mx, h[g].children[EdgeSlot(h[g], front)], a[g].level, -1);
    }
  }

  /** The leaf gave its edge item up: the tree has, too. */
  lemma PopStep(ts: seq<Tree>, h: Heap, a: Notes, h1: Heap, a1: Notes, mx: nat, t: nat, path: seq<Id>, front: bool,
                prev: Option<Item>, t1: Tree) returns (a2: Notes)
    requires FamilyOk(ts, h, a, mx) && t < |ts| && ts[t].Tree? && EdgePath(h, a, path, front)
    requires ts[t].root == Some(path[0]) && t1.Tree? && t1 == ts[t].(count := t1.count) && t1.count + 1 == ts[t].count
    requires Frame(h, a, h1, a1, Roots(ts), path[|path| - 1]) && mx / 2 < |h[path[|path| - 1]].items|
    requires DelDone(h, a, h1, a1, mx, Roots(ts), path[|path| - 1],
                     if front then PopFront else PopBack, [], Deleted, prev)
    ensures FamilyOk(ts[t := t1], h1, a2, mx)
    ensures DelShown(ts, h, ts[t := t1], h1, t, if front then PopFront else PopBack, [], prev)
  {
    var n, r := path[|path| - 1], path[0];
    assert TreeOk(ts[t], h, a);
    a2 := AscendTaken(h, a, h1, a1, mx, Roots(ts), path, front, if front then PopFront else PopBack, [], prev);
    if |path| > 1 {
      assert Kept(h, a, h1, a1, Roots(ts), a[n].level, r);
    }
    RootStep(ts, h, a, h1, a2, mx, t, r, t1);
  }

  /** The last leaf took the item: the tree has, too. */
  lemma LoadStep(ts: seq<Tree>, h: Heap, a: Notes, h1: Heap, a1: Notes, mx: nat, t: nat, path: seq<Id>, it: Item,
                 t1: Tree) returns (a2: Notes)
    requires FamilyOk(ts, h, a, mx) && t < |ts| && ts[t].Tree? && EdgePath(h, a, path, false)
    requires ts[t].root == Some(path[0]) && t1 == ts[t].(count := ts[t].count + 1)
    requires Frame(h, a, h1, a1, Roots(ts), path[|path| - 1])
    requires SoundBut(h1, a1, mx, Roots(ts), path[|path| - 1], -1) && Extends(a[path[|path| - 1]].cont, it)
    requires a1[path[|path| - 1]].cont == a[path[|path| - 1]].cont + [it]
    requires |h1[path[|path| - 1]].items| > |h[path[|path| - 1]].items|
    ensures FamilyOk(ts[t := t1], h1, a2, mx) && SetShown(ts, h, ts[t := t1], h1, t, it, None)
  {
    var n, r := path[|path| - 1], path[0];
    assert TreeOk(ts[t], h, a);
    PathEnd(ts, h, a, mx, t, path, false);
    a2 := AscendAppended(h, a, h1, a1, mx, Roots(ts), path, it);
    if |path| > 1 {
      assert Kept(h, a, h1, a1, Roots(ts), a[n].level, r);
    }
    assert Coherent(h, a, mx, r, -1);
    ExtendsAll(a[r].cont, it);
    RootStep(ts, h, a, h1, a2, mx, t, r, t1);
  }

  lemma CountPositive(ts: seq<Tree>, h: Heap, a: Notes, mx: nat, t: nat, path: seq<Id>, front: bool)
    requires FamilyOk(ts, h, a, mx) && t < |ts| && ts[t].Tree? && EdgePath(h, a, path, front)
    requires ts[t].root == Some(path[0])
    ensures ts[t].count > 0
  {
    assert TreeOk(ts[t], h, a);
    assert Coherent(h, a, mx, path[0], -1);
    ContNonEmpty(h, a, mx, path[0]);
  }
}
