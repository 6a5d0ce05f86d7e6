/** What soundness of a family means from outside: nothing leaks, nothing dangles, and every tree
    is shallow. */
module FamilyTheorems {
  import opened SortedItems
  import opened Weave
  import opened NodeHeap
  import opened NodeHeapLemmas
  import opened NodeReading
  import opened Trees
  import opened TreeReads

  // ----- reachability

  ghost predicate Link(h: Heap, p: Id, c: Id) {
    At(h, p).Node? && c in At(h, p).children
  }

  /** A path of child slots from a root of some tree to `x`. */
  ghost predicate PathTo(h: Heap, roots: multiset<Id>, path: seq<Id>, x: Id) {
    && path != [] && path[0] in roots && path[|path| - 1] == x
    && forall i {:trigger path[i]} :: 0 < i < |path| ==> Link(h, path[i - 1], path[i])
  }

  /** A node that something refers to through a child slot has a parent. */
  lemma {:induction false} ParentOf(h: Heap, x: Id) returns (p: Id)
    requires InDeg(h, x) > 0
    ensures p < |h| && Link(h, p, x)
  {
    var n := |h| - 1;
    if Kids(h[n])[x] > 0 {
      p := n;
      assert x in multiset(h[n].children);
    } else {
      p := ParentOf(h[..n], x);
      assert h[..n][p] == h[p];
    }
  }

  ghost function Highest(a: Notes): (m: nat)
    ensures forall x :: 0 <= x < |a| ==> a[x].level <= m
  {
    if a == [] then 0
    else
      var m := Highest(a[..|a| - 1]);
      var l := a[|a| - 1].level;
      assert forall x :: 0 <= x < |a| - 1 ==> a[..|a| - 1][x] == a[x];
      if l > m then l else m
  }

  /** No leak: every allocated node can be reached from the root of a live tree. */
  lemma {:induction false} EveryNodeReached(ts: seq<Tree>, h: Heap, a: Notes, mx: nat, x: Id) returns (path: seq<Id>)
    requires FamilyOk(ts, h, a, mx) && x < |h| && h[x].Node?
    ensures PathTo(h, Roots(ts), path, x)
    decreases Highest(a) - a[x].level
  {
    assert RefOk(h, Roots(ts), x);
    if Roots(ts)[x] > 0 {
      path := [x];
    } else {
      var p := ParentOf(h, x);
      assert Coherent(h, a, mx, p, -1);
      KidsBelow(h, a, mx, p);
      var before := EveryNodeReached(ts, h, a, mx, p);
      path := before + [x];
    }
  }

  /** No dangling reference: whatever a live tree reaches is allocated. */
  lemma {:induction false} EveryPathLive(ts: seq<Tree>, h: Heap, a: Notes, mx: nat, path: seq<Id>, x: Id)
    requires FamilyOk(ts, h, a, mx) && PathTo(h, Roots(ts), path, x)
    ensures x < |h| && h[x].Node?
  {
    var k := |path| - 1;
    if k == 0 {
      HeldIsLive(h, Roots(ts), x);
    } else {
      assert Link(h, path[k - 1], path[k]);
      var p := path[k - 1];
      assert forall i :: 0 <= i < k ==> path[..k][i] == path[i];
      EveryPathLive(ts, h, a, mx, path[..k], p);
      assert Coherent(h, a, mx, p, -1);
      KidsBelow(h, a, mx, p);
    }
  }

  /** When the last handle is dropped no node is left. */
  lemma NothingLeft(ts: seq<Tree>, h: Heap, a: Notes, mx: nat, x: Id)
    requires FamilyOk(ts, h, a, mx) && x < |h|
    requires forall i :: 0 <= i < |ts| ==> ts[i].Gone? || ts[i].root.None?
    ensures h[x].Free?
  {
    if h[x].Node? {
      var path := EveryNodeReached(ts, h, a, mx, x);
      NoRoots(ts);
    }
  }

  lemma {:induction false} NoRoots(ts: seq<Tree>)
    requires forall i :: 0 <= i < |ts| ==> ts[i].Gone? || ts[i].root.None?
    ensures Roots(ts) == multiset{}
  {
    if ts != [] {
      NoRoots(ts[..|ts| - 1]);
    }
  }

  // ----- height

  function Pow(b: nat, e: nat): nat {
    if e == 0 then 1 else b * Pow(b, e - 1)
  }

  /** The least and the greatest number of item gaps in `ps`. */
  lemma {:induction false} ZipSize<T>(items: seq<T>, ps: seq<seq<T>>, lo: nat, hi: nat)
    requires |items| == |ps| && forall k :: 0 <= k < |ps| ==> lo <= |ps[k]| + 1 <= hi
    ensures |items| * lo <= |Zip(items, ps)| <= |items| * hi
  {
    if items != [] {
      var n := |items| - 1;
      ZipSize(items[..n], ps[..n], lo, hi);
      assert (n + 1) * lo == n * lo + lo && (n + 1) * hi == n * hi + hi;
    }
  }

  /** A node whose children are all within bounds has as many item gaps as the product says. */
  lemma {:induction false} GapCount(h: Heap, a: Notes, mx: nat, x: Id)
    requires AllCoherent(h, a, mx) && x < |h| && h[x].Node?
    ensures a[x].level >= 1
    ensures (|h[x].items| + 1) * Pow(mx / 2 + 1, a[x].level - 1) <= |a[x].cont| + 1
    ensures |a[x].cont| + 1 <= Pow(mx + 1, a[x].level)
    decreases a[x].level, 1
  {
    assert Coherent(h, a, mx, x, -1);
    assert Reads(h[x], a, a[x].cont);
    KidsBelow(h, a, mx, x);
    var n, e := h[x], a[x].level - 1;
    assert Pow(mx + 1, e + 1) == (mx + 1) * Pow(mx + 1, e);
    if n.leaf {
    } else {
      forall k | 0 <= k < |n.children|
        ensures Pow(mx / 2 + 1, e) <= |a[n.children[k]].cont| + 1 <= Pow(mx + 1, e)
      {
        ChildGaps(h, a, mx, x, k);
      }
      WeaveSize(n, a, a[x].cont, Pow(mx / 2 + 1, e), Pow(mx + 1, e), mx);
    }
  }

  lemma {:induction false} ChildGaps(h: Heap, a: Notes, mx: nat, x: Id, k: nat)
    requires AllCoherent(h, a, mx) && x < |h| && h[x].Node? && !h[x].leaf && k < |h[x].children|
    requires Coherent(h, a, mx, x, -1) && a[x].level >= 1
    ensures h[x].children[k] < |a|
    ensures Pow(mx / 2 + 1, a[x].level - 1) <= |a[h[x].children[k]].cont| + 1 <= Pow(mx + 1, a[x].level - 1)
    decreases a[x].level, 0
  {
    var c, b := h[x].children[k], mx / 2 + 1;
    assert KidOk(h, a, mx, c, a[x].level, -1);
    GapCount(h, a, mx, c);
    var e := a[c].level - 1;
    assert Pow(b, e + 1) == b * Pow(b, e);
    Widens(mx / 2 + 1, |h[c].items| + 1, Pow(b, e));
  }

  lemma Widens(a: nat, b: nat, c: nat)
    requires a <= b
    ensures a * c <= b * c
  {
  }

  lemma Gaps<T>(items: seq<T>, ps: seq<seq<T>>, lo: nat, hi: nat)
    requires |ps| == |items| + 1 && forall k :: 0 <= k < |ps| ==> lo <= |ps[k]| + 1 <= hi
    ensures (|items| + 1) * lo <= |WeaveAll(items, ps)| + 1 <= (|items| + 1) * hi
  {
    var m := |items|;
    ZipSize(items, ps[..m], lo, hi);
    assert (m + 1) * lo == m * lo + lo && (m + 1) * hi == m * hi + hi;
  }

  lemma WeaveSize(n: Node, a: Notes, cont: seq<Item>, lo: nat, hi: nat, mx: nat)
    requires Branch(n) && Reads(n, a, cont) && |n.items| <= mx
    requires forall k :: 0 <= k < |n.children| ==>
               n.children[k] < |a| && lo <= |a[n.children[k]].cont| + 1 <= hi
    ensures (|n.items| + 1) * lo <= |cont| + 1 <= (mx + 1) * hi
  {
    Gaps(n.items, Parts(a, n.children), lo, hi);
    Widens(|n.items| + 1, mx + 1, hi);
  }

  /** A tree of `count` items has height at most the logarithm of `(count + 1) / 2` to the base
      `min_items + 1`, plus one. */
  lemma {:induction false} Shallow(ts: seq<Tree>, h: Heap, a: Notes, mx: nat, t: nat)
    requires FamilyOk(ts, h, a, mx) && t < |ts| && ts[t].Tree?
    ensures ts[t].height > 0 <==> ts[t].count > 0
    ensures ts[t].height > 0 ==> 2 * Pow(mx / 2 + 1, ts[t].height - 1) <= ts[t].count + 1
    ensures ts[t].count + 1 <= Pow(mx + 1, ts[t].height)
  {
    assert TreeOk(ts[t], h, a);
    if ts[t].root.Some? {
      var r := ts[t].root.value;
      RootReadable(ts, h, a, mx, t);
      GapCount(h, a, mx, r);
      Widens(2, |h[r].items| + 1, Pow(mx / 2 + 1, a[r].level - 1));
    }
  }
}
