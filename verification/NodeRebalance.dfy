/** Rebalancing two neighbouring children after a deletion: merge them, or move one item across. */
module NodeRebalance {
  import opened SortedItems
  import opened Weave
  import opened NodeHeap
  import opened NodeHeapLemmas
  import opened NodeReading
  import opened NodeSplits

  /** Two nodes of one level laid end to end around an item. */
  function Join(l: Node, it: Item, r: Node): Node
    requires l.Node? && r.Node?
  {
    l.(items := l.items + [it] + r.items, children := l.children + r.children)
  }

  ghost predicate Fits(n: Node) {
    match n
    case Free => false
    case Node(_, leaf, items, children) => |children| == if leaf then 0 else |items| + 1
  }

  lemma JoinRead(l: Node, it: Item, r: Node, a: Notes)
    requires Fits(l) && Fits(r) && l.leaf == r.leaf
    ensures Fits(Join(l, it, r))
    ensures ReadOf(Join(l, it, r), a) == ReadOf(l, a) + [it] + ReadOf(r, a)
  {
    if !l.leaf {
      WeaveJoin(l.items, Parts(a, l.children), it, r.items, Parts(a, r.children));
      PartsAppend(a, l.children, r.children);
    }
  }

  lemma WeaveJoin(li: seq<Item>, lp: seq<seq<Item>>, it: Item, ri: seq<Item>, rp: seq<seq<Item>>)
    requires |lp| == |li| + 1 && |rp| == |ri| + 1
    ensures WeaveAll(li + [it] + ri, lp + rp) == WeaveAll(li, lp) + [it] + WeaveAll(ri, rp)
  {
    var p1, p, q, p2 := lp[..|li|], lp[|li|], rp[0], rp[1..];
    calc {
      WeaveAll(li + [it] + ri, lp + rp);
      { assert lp + rp == p1 + [p, q] + p2; }
      WeaveAll(li + [it] + ri, p1 + [p, q] + p2);
      { CutTwo(li, p1, p, it, q, ri, p2); }
      Zip(li, p1) + (p + [it] + q) + Paz(ri, p2);
      { assert WeaveAll(li, lp) == Zip(li, p1) + p; CutFirst(ri, rp); }
      WeaveAll(li, lp) + [it] + WeaveAll(ri, rp);
    }
  }

  /** The end of a node given away in a rotation: a bare child, or nothing for a leaf. */
  function Stub(leaf: bool, kids: seq<Id>): Node {
    Node(0, leaf, [], kids)
  }

  // ----- the parent and its pair of children

  /** `n` is private; its children `l` and `r` around item `j` are private; at most one of them
      is short, and it is `u`. */
  ghost predicate Pair(h: Heap, a: Notes, mx: nat, ext: multiset<Id>, n: Id, j: nat, l: Id, r: Id, u: int) {
    match At(h, n)
    case Free => false
    case Node(rc, _, items, children) =>
      && SoundBut(h, a, mx, ext, n, u) && l < |h| && r < |h|
      && Branch(h[n]) && rc == 0 && n !in children
      && j < |items| && children[j] == l && children[j + 1] == r
      && h[l].Node? && h[l].rc == 0 && h[r].Node? && h[r].rc == 0
      && n !in h[l].children && n !in h[r].children
      && (u == l || u == r) && |h[u].items| + 1 == mx / 2
  }

  lemma PairFacts(h: Heap, a: Notes, mx: nat, ext: multiset<Id>, n: Id, j: nat, l: Id, r: Id, u: int)
    requires Pair(h, a, mx, ext, n, j, l, r, u)
    ensures n != l && l != r && r != n && ext[l] == 0 && ext[r] == 0
    ensures a[l].level + 1 == a[n].level && a[r].level + 1 == a[n].level && h[l].leaf == h[r].leaf
    ensures Coherent(h, a, mx, n, u) && Coherent(h, a, mx, l, -1) && Coherent(h, a, mx, r, -1)
    ensures Fits(h[l]) && Fits(h[r])
    ensures forall x :: 0 <= x < |h| && h[x].Node? && x != n ==> l !in h[x].children && r !in h[x].children
    ensures forall k :: 0 <= k < |h[n].children| && k != j && k != j + 1 ==>
              h[n].children[k] != l && h[n].children[k] != r
    ensures forall x :: 0 <= x < |h| && h[x].Node? && x != n && n !in h[x].children ==> Coherent(h, a, mx, x, -1)
    ensures u != l ==> mx / 2 <= |h[l].items|
    ensures u != r ==> mx / 2 <= |h[r].items|
    ensures mx <= |h[l].items| + |h[r].items| ==> Lopsided(h[l], h[r], mx)
  {
    assert Coherent(h, a, mx, n, u);
    assert KidOk(h, a, mx, h[n].children[j], a[n].level, u);
    assert KidOk(h, a, mx, h[n].children[j + 1], a[n].level, u);
    SoleSlot(h, ext, n, j);
    SoleSlot(h, ext, n, j + 1);
    forall x | 0 <= x < |h| && h[x].Node? && x != n && n !in h[x].children
      ensures Coherent(h, a, mx, x, -1)
    {
      assert Coherent(h, a, mx, x, u);
      DropShort(h, a, mx, x, u);
    }
  }

  /** A node that does not hold the short child is coherent without the exemption. */
  lemma DropShort(h: Heap, a: Notes, mx: nat, x: Id, u: int)
    requires |h| == |a| && x < |h| && Coherent(h, a, mx, x, u)
    requires u !in h[x].children
    ensures Coherent(h, a, mx, x, -1)
  {
    forall k | 0 <= k < |h[x].children|
      ensures KidOk(h, a, mx, h[x].children[k], a[x].level, u)
      ensures h[x].children[k] != u
    {
    }
    CoherentKept(h, a, h, a, mx, x, u, -1);
  }

  /** Rewriting the pair and its parent disturbs only the nodes that hold the parent. */
  lemma PairRewrite(h: Heap, a: Notes, h1: Heap, a1: Notes, mx: nat, ext: multiset<Id>,
                    n: Id, j: nat, l: Id, r: Id, u: int)
    requires Pair(h, a, mx, ext, n, j, l, r, u) && |h1| == |a1| == |h|
    requires forall x :: 0 <= x < |h| && x != n && x != l && x != r ==> h1[x] == h[x] && a1[x] == a[x]
    requires Exact(h1, ext) && h1[n].Node? && h1[n].rc == h[n].rc && h1[n].leaf == h[n].leaf && a1[n] == a[n]
    requires Coherent(h1, a1, mx, n, -1) && Coherent(h1, a1, mx, l, -1)
    requires h1[r].Free? || Coherent(h1, a1, mx, r, -1)
    ensures SoundBut(h1, a1, mx, ext, n, -1) && Frame(h, a, h1, a1, ext, n)
  {
    PairFacts(h, a, mx, ext, n, j, l, r, u);
    forall x | 0 <= x < |h1| && h1[x].Node? && (x == n || n !in h1[x].children)
      ensures Coherent(h1, a1, mx, x, -1)
    {
      if x != n && x != l && x != r {
        assert Coherent(h, a, mx, x, -1);
        PairElsewhere(h, a, h1, a1, mx, n, l, r, x);
      }
    }
    forall x | 0 <= x < |h| && x != n
      ensures Kept(h, a, h1, a1, ext, a[n].level, x)
    {
    }
  }

  lemma PairElsewhere(h: Heap, a: Notes, h1: Heap, a1: Notes, mx: nat, n: Id, l: Id, r: Id, x: Id)
    requires |h| == |a| == |h1| == |a1| && x < |h| && Coherent(h, a, mx, x, -1)
    requires forall y :: 0 <= y < |h| && y != n && y != l && y != r ==> h1[y] == h[y] && a1[y] == a[y]
    requires x != n && x != l && x != r
    requires n !in h[x].children && l !in h[x].children && r !in h[x].children
    ensures Coherent(h1, a1, mx, x, -1)
  {
    forall k | 0 <= k < |h[x].children|
      ensures var d := h[x].children[k]; d != n && d != l && d != r && KidOk(h, a, mx, d, a[x].level, -1)
    {
    }
    CoherentKept(h, a, h1, a1, mx, x, -1, -1);
  }

  /** One of the pair, rewritten with children the pair already had. */
  lemma SideCoherent(h: Heap, a: Notes, h1: Heap, a1: Notes, mx: nat, ext: multiset<Id>,
                     n: Id, j: nat, l: Id, r: Id, u: int, x: Id)
    requires Pair(h, a, mx, ext, n, j, l, r, u) && |h1| == |a1| == |h|
    requires forall y :: 0 <= y < |h| && y != n && y != l && y != r ==> h1[y] == h[y] && a1[y] == a[y]
    requires x == l || x == r
    requires h1[x].Node? && h1[x].leaf == h[l].leaf && Fits(h1[x]) && |h1[x].items| <= mx
    requires forall k :: 0 <= k < |h1[x].children| ==>
               h1[x].children[k] in h[l].children || h1[x].children[k] in h[r].children
    requires a1[x].level == a[x].level && a1[x].cont == ReadOf(h1[x], a) && Sorted(a1[x].cont)
    ensures Coherent(h1, a1, mx, x, -1)
  {
    PairFacts(h, a, mx, ext, n, j, l, r, u);
    forall k | 0 <= k < |h1[x].children|
      ensures var d := h1[x].children[k];
              d < |a| && a1[d] == a[d] && KidOk(h1, a1, mx, d, a1[x].level, -1)
    {
      var d := h1[x].children[k];
      var s := if d in h[l].children then l else r;
      var k0 :| 0 <= k0 < |h[s].children| && h[s].children[k0] == d;
      assert KidOk(h, a, mx, h[s].children[k0], a[s].level, -1);
    }
    PieceCoherent(h1, a, a1, mx, x);
  }

  /** The parent after a rotation. */
  lemma RotatedParent(h: Heap, a: Notes, h1: Heap, a1: Notes, mx: nat, ext: multiset<Id>,
                      n: Id, j: nat, l: Id, r: Id, u: int, it: Item)
    requires Pair(h, a, mx, ext, n, j, l, r, u) && |h1| == |a1| == |h|
    requires forall y :: 0 <= y < |h| && y != n && y != l && y != r ==> h1[y] == h[y] && a1[y] == a[y]
    requires h1[n].Node? && h1[n] == h[n].(items := h1[n].items) && h1[n].items == h[n].items[j := it]
    requires a1[n] == a[n] && a1[l].level == a[l].level && a1[r].level == a[r].level
    requires h1[l].Node? && mx / 2 <= |h1[l].items| && h1[r].Node? && mx / 2 <= |h1[r].items|
    requires a[l].cont + [h[n].items[j]] + a[r].cont == a1[l].cont + [it] + a1[r].cont
    ensures Coherent(h1, a1, mx, n, -1)
  {
    hide Parts, WeaveAll;
    PairFacts(h, a, mx, ext, n, j, l, r, u);
    forall k | 0 <= k < |h[n].children|
      ensures KidOk(h1, a1, mx, h[n].children[k], a[n].level, -1)
      ensures h[n].children[k] < |a| && (k != j && k != j + 1 ==> a1[h[n].children[k]] == a[h[n].children[k]])
    {
      assert KidOk(h, a, mx, h[n].children[k], a[n].level, u);
    }
    var w := WeaveAll(h1[n].items, Parts(a1, h1[n].children));
    assert Reads(h1[n], a1, w);
    PairCut(h[n], a, a[n].cont, j);
    PairCut(h1[n], a1, w, j);
    PartsSame(a, a1, h[n].children[..j]);
    PartsSame(a, a1, h[n].children[j + 2..]);
    assert h1[n].items[..j] == h[n].items[..j] && h1[n].items[j + 1..] == h[n].items[j + 1..];
    assert Shaped(h1, a1, mx, n, -1);
  }

  /** The parent after a merge. */
  lemma MergedParent(h: Heap, a: Notes, h1: Heap, a1: Notes, mx: nat, ext: multiset<Id>,
                     n: Id, j: nat, l: Id, r: Id, u: int)
    requires Pair(h, a, mx, ext, n, j, l, r, u) && |h1| == |a1| == |h|
    requires forall y :: 0 <= y < |h| && y != n && y != l && y != r ==> h1[y] == h[y] && a1[y] == a[y]
    requires h1[n].Node? && h1[n].leaf == h[n].leaf
    requires h1[n].items == RemoveAt(h[n].items, j) && h1[n].children == RemoveAt(h[n].children, j + 1)
    requires a1[n] == a[n] && a1[l].level == a[l].level
    requires h1[l].Node? && mx / 2 <= |h1[l].items|
    requires a[l].cont + [h[n].items[j]] + a[r].cont == a1[l].cont
    ensures Coherent(h1, a1, mx, n, -1)
  {
    hide Reads;
    PairFacts(h, a, mx, ext, n, j, l, r, u);
    forall k | 0 <= k < |h1[n].children|
      ensures KidOk(h1, a1, mx, h1[n].children[k], a[n].level, -1)
    {
      var k0 := if k <= j then k else k + 1;
      assert h1[n].children[k] == h[n].children[k0];
      assert KidOk(h, a, mx, h[n].children[k0], a[n].level, u);
    }
    forall k | 0 <= k < |h[n].children|
      ensures h[n].children[k] < |a|
      ensures k != j && k != j + 1 ==> a1[h[n].children[k]] == a[h[n].children[k]]
    {
      assert KidOk(h, a, mx, h[n].children[k], a[n].level, u);
    }
    MergedReads(h[n], a, h1[n], a1, a[n].cont, j);
    assert Shaped(h1, a1, mx, n, -1);
  }

  lemma MergedLeft(n: Node, a: Notes, n1: Node, a1: Notes, j: nat)
    requires Branch(n) && j < |n.items| && Branch(n1)
    requires n1.items == RemoveAt(n.items, j) && n1.children == RemoveAt(n.children, j + 1)
    requires forall k :: 0 <= k < |n.children| ==> n.children[k] < |a| && n.children[k] < |a1|
    requires forall k :: 0 <= k < |n.children| && k != j && k != j + 1 ==> a1[n.children[k]] == a[n.children[k]]
    ensures LeftOf(n1, a1, j) == LeftOf(n, a, j)
  {
    assert n1.items[..j] == n.items[..j] && n1.children[..j] == n.children[..j];
    PartsSame(a, a1, n.children[..j]);
  }

  lemma MergedRight(n: Node, a: Notes, n1: Node, a1: Notes, j: nat)
    requires Branch(n) && j < |n.items| && Branch(n1)
    requires n1.items == RemoveAt(n.items, j) && n1.children == RemoveAt(n.children, j + 1)
    requires forall k :: 0 <= k < |n.children| ==> n.children[k] < |a| && n.children[k] < |a1|
    requires forall k :: 0 <= k < |n.children| && k != j && k != j + 1 ==> a1[n.children[k]] == a[n.children[k]]
    ensures RightOf(n1, a1, j) == RightOf(n, a, j + 1)
  {
    assert n1.items[j..] == n.items[j + 1..] && n1.children[j + 1..] == n.children[j + 2..];
    PartsSame(a, a1, n.children[j + 2..]);
  }

  lemma MergedReads(n: Node, a: Notes, n1: Node, a1: Notes, cont: seq<Item>, j: nat)
    requires Branch(n) && Reads(n, a, cont) && j < |n.items| && Branch(n1) && |a| == |a1|
    requires n1.items == RemoveAt(n.items, j) && n1.children == RemoveAt(n.children, j + 1)
    requires forall k :: 0 <= k < |n.children| ==> n.children[k] < |a|
    requires forall k :: 0 <= k < |n.children| && k != j && k != j + 1 ==> a1[n.children[k]] == a[n.children[k]]
    requires a[n.children[j]].cont + [n.items[j]] + a[n.children[j + 1]].cont == a1[n.children[j]].cont
    ensures Reads(n1, a1, cont)
  {
    var w := WeaveAll(n1.items, Parts(a1, n1.children));
    assert Reads(n1, a1, w);
    calc {
      w;
      { NodeCut(n1, a1, w, j); }
      LeftOf(n1, a1, j) + a1[n.children[j]].cont + RightOf(n1, a1, j);
      { MergedLeft(n, a, n1, a1, j); MergedRight(n, a, n1, a1, j); }
      LeftOf(n, a, j) + a1[n.children[j]].cont + RightOf(n, a, j + 1);
      { PairCut(n, a, cont, j); }
      cont;
    }
  }

  lemma PairCut(n: Node, a: Notes, cont: seq<Item>, j: nat)
    requires Branch(n) && Reads(n, a, cont) && j < |n.items| && n.children[j] < |a| && n.children[j + 1] < |a|
    ensures cont == LeftOf(n, a, j)
                    + (a[n.children[j]].cont + [n.items[j]] + a[n.children[j + 1]].cont)
                    + RightOf(n, a, j + 1)
  {
    calc {
      cont;
      { NodeCut(n, a, cont, j); }
      LeftOf(n, a, j) + a[n.children[j]].cont + RightOf(n, a, j);
      { RightStep(n, a, j); }
      LeftOf(n, a, j) + a[n.children[j]].cont
        + ([n.items[j]] + a[n.children[j + 1]].cont + RightOf(n, a, j + 1));
      { Regroup(LeftOf(n, a, j), a[n.children[j]].cont, [n.items[j]], a[n.children[j + 1]].cont,
                RightOf(n, a, j + 1)); }
      LeftOf(n, a, j) + (a[n.children[j]].cont + [n.items[j]] + a[n.children[j + 1]].cont)
        + RightOf(n, a, j + 1);
    }
  }

  // ----- the three cases

  lemma PairSorted(h: Heap, a: Notes, mx: nat, ext: multiset<Id>, n: Id, j: nat, l: Id, r: Id, u: int)
    requires Pair(h, a, mx, ext, n, j, l, r, u)
    ensures l < |a| && r < |a| && Sorted(a[l].cont + [h[n].items[j]] + a[r].cont)
    ensures a[l].cont == ReadOf(h[l], a) && a[r].cont == ReadOf(h[r], a)
    ensures |h[n].items| <= mx
  {
    PairFacts(h, a, mx, ext, n, j, l, r, u);
    assert Reads(h[l], a, a[l].cont) && Reads(h[r], a, a[r].cont) && Reads(h[n], a, a[n].cont);
    assert KidOk(h, a, mx, h[n].children[j], a[n].level, u);
    PairCut(h[n], a, a[n].cont, j);
    SortedParts(LeftOf(h[n], a, j), a[l].cont + [h[n].items[j]] + a[r].cont, RightOf(h[n], a, j + 1));
  }

  lemma MergeSound(h: Heap, a: Notes, mx: nat, ext: multiset<Id>, n: Id, j: nat, l: Id, r: Id, u: int,
                   l1: Node, n1: Node, h1: Heap, a1: Notes)
    requires Pair(h, a, mx, ext, n, j, l, r, u) && |h[l].items| + |h[r].items| < mx
    requires l1 == Join(h[l], h[n].items[j], h[r])
    requires n1.Node? && n1.rc == h[n].rc && n1.leaf == h[n].leaf
    requires n1.items == RemoveAt(h[n].items, j) && n1.children == RemoveAt(h[n].children, j + 1)
    requires h1 == h[l := l1][r := Free][n := n1] && a1 == a[l := Note(a[l].level, ReadOf(h[l], a) + [h[n].items[j]] + ReadOf(h[r], a))]
    ensures SoundBut(h1, a1, mx, ext, n, -1) && Frame(h, a, h1, a1, ext, n) && a1[n] == a[n]
  {
    hide WeaveAll, Parts;
    PairFacts(h, a, mx, ext, n, j, l, r, u);
    PairSorted(h, a, mx, ext, n, j, l, r, u);
    MergeExact(h, ext, n, j, l, r, l1, n1);
    JoinRead(h[l], h[n].items[j], h[r], a);
    SideCoherent(h, a, h1, a1, mx, ext, n, j, l, r, u, l);
    MergedParent(h, a, h1, a1, mx, ext, n, j, l, r, u);
    PairRewrite(h, a, h1, a1, mx, ext, n, j, l, r, u);
  }

  lemma MergeExact(h: Heap, ext: multiset<Id>, n: Id, j: nat, l: Id, r: Id, l1: Node, n1: Node)
    requires Exact(h, ext) && n < |h| && l < |h| && r < |h| && n != l && l != r && r != n
    requires h[n].Node? && h[l].Node? && h[r].Node? && h[r].rc == 0
    requires l1.Node? && l1.rc == h[l].rc && l1.children == h[l].children + h[r].children
    requires j + 1 < |h[n].children| && h[n].children[j + 1] == r
    requires n1.Node? && n1.rc == h[n].rc && n1.children == RemoveAt(h[n].children, j + 1)
    ensures Exact(h[l := l1][r := Free][n := n1], ext)
  {
    KidRemoved(h[n].children, j + 1);
    ExactGive(h, ext, n, n1, multiset{r});
    ExactFree(h[n := n1], ext, r);
    ExactTake(h[n := n1][r := Free], ext, l, l1, Kids(h[r]));
    assert h[n := n1][r := Free][l := l1] == h[l := l1][r := Free][n := n1];
  }

  lemma KidRemoved(cs: seq<Id>, k: nat)
    requires k < |cs|
    ensures multiset(cs) == multiset(RemoveAt(cs, k)) + multiset{cs[k]}
  {
    assert cs == cs[..k] + [cs[k]] + cs[k + 1..];
  }

  /** One item, and for branches one child, moved across the pair. */
  ghost predicate Rotated(l: Node, it: Item, r: Node, l1: Node, it1: Item, r1: Node, mx: nat) {
    match (l1, r1)
    case (Node(lrc, lleaf, litems, lkids), Node(rrc, rleaf, ritems, rkids)) =>
      && l.Node? && r.Node? && Fits(l1) && Fits(r1)
      && lrc == l.rc && rrc == r.rc && lleaf == l.leaf && rleaf == r.leaf
      && lkids + rkids == l.children + r.children
      && mx / 2 <= |litems| <= mx && mx / 2 <= |ritems| <= mx
    case _ => false
  }

  lemma RotateSound(h: Heap, a: Notes, mx: nat, ext: multiset<Id>, n: Id, j: nat, l: Id, r: Id, u: int,
                    l1: Node, it1: Item, r1: Node, n1: Node, h1: Heap, a1: Notes)
    requires Pair(h, a, mx, ext, n, j, l, r, u)
    requires Rotated(h[l], h[n].items[j], h[r], l1, it1, r1, mx)
    requires ReadOf(h[l], a) + [h[n].items[j]] + ReadOf(h[r], a) == ReadOf(l1, a) + [it1] + ReadOf(r1, a)
    requires n1.Node? && n1 == h[n].(items := n1.items) && n1.items == h[n].items[j := it1]
    requires h1 == h[l := l1][r := r1][n := n1]
    requires a1 == a[l := Note(a[l].level, ReadOf(l1, a))][r := Note(a[r].level, ReadOf(r1, a))]
    ensures SoundBut(h1, a1, mx, ext, n, -1) && Frame(h, a, h1, a1, ext, n) && a1[n] == a[n]
  {
    hide WeaveAll;
    PairFacts(h, a, mx, ext, n, j, l, r, u);
    PairSorted(h, a, mx, ext, n, j, l, r, u);
    RotateExact(h, ext, n, l, r, l1, r1, n1);
    RotateSides(h, a, mx, ext, n, j, l, r, u, l1, it1, r1, h1, a1);
    RotatedParent(h, a, h1, a1, mx, ext, n, j, l, r, u, it1);
    PairRewrite(h, a, h1, a1, mx, ext, n, j, l, r, u);
  }

  lemma RotateSides(h: Heap, a: Notes, mx: nat, ext: multiset<Id>, n: Id, j: nat, l: Id, r: Id, u: int,
                    l1: Node, it1: Item, r1: Node, h1: Heap, a1: Notes)
    requires Pair(h, a, mx, ext, n, j, l, r, u)
    requires Rotated(h[l], h[n].items[j], h[r], l1, it1, r1, mx)
    requires Sorted(ReadOf(l1, a) + [it1] + ReadOf(r1, a)) && l != r && l < |a| && r < |a|
    requires |h1| == |a1| == |h| && h1[l] == l1 && h1[r] == r1
    requires forall y :: 0 <= y < |h| && y != n && y != l && y != r ==> h1[y] == h[y] && a1[y] == a[y]
    requires a1[l] == Note(a[l].level, ReadOf(l1, a)) && a1[r] == Note(a[r].level, ReadOf(r1, a))
    ensures Coherent(h1, a1, mx, l, -1) && Coherent(h1, a1, mx, r, -1)
  {
    PairFacts(h, a, mx, ext, n, j, l, r, u);
    SortedParts(ReadOf(l1, a), [it1], ReadOf(r1, a));
    MovedKids(h[l].children, h[r].children, l1.children, r1.children);
    SideCoherent(h, a, h1, a1, mx, ext, n, j, l, r, u, l);
    SideCoherent(h, a, h1, a1, mx, ext, n, j, l, r, u, r);
  }

  lemma MovedKids(lc: seq<Id>, rc: seq<Id>, lc1: seq<Id>, rc1: seq<Id>)
    requires lc1 + rc1 == lc + rc
    ensures forall k :: 0 <= k < |lc1| ==> lc1[k] in lc || lc1[k] in rc
    ensures forall k :: 0 <= k < |rc1| ==> rc1[k] in lc || rc1[k] in rc
  {
    assert forall k :: 0 <= k < |lc1| ==> (lc + rc)[k] == lc1[k];
    assert forall k :: 0 <= k < |rc1| ==> (lc + rc)[|lc1| + k] == rc1[k];
  }

  lemma RotateExact(h: Heap, ext: multiset<Id>, n: Id, l: Id, r: Id, l1: Node, r1: Node, n1: Node)
    requires Exact(h, ext) && n < |h| && l < |h| && r < |h| && n != l && l != r && r != n
    requires h[n].Node? && h[l].Node? && h[r].Node? && l1.Node? && r1.Node? && n1.Node?
    requires l1.rc == h[l].rc && r1.rc == h[r].rc && n1.rc == h[n].rc && n1.children == h[n].children
    requires l1.children + r1.children == h[l].children + h[r].children
    ensures Exact(h[l := l1][r := r1][n := n1], ext)
  {
    KidsMoved(h[l].children, h[r].children, l1.children, r1.children);
    var none := r1.(children := []);
    ExactGive(h, ext, r, none, Kids(h[r]));
    var h1 := h[r := none];
    ExactUpdate(h1, ext + Kids(h[r]), l, l1, ext + Kids(r1));
    ExactTake(h1[l := l1], ext, r, r1, Kids(r1));
    ExactUpdate(h1[l := l1][r := r1], ext, n, n1, ext);
    assert h1[l := l1][r := r1] == h[l := l1][r := r1];
  }

  lemma KidsMoved(lc: seq<Id>, rc: seq<Id>, lc1: seq<Id>, rc1: seq<Id>)
    requires lc1 + rc1 == lc + rc
    ensures forall x: Id :: multiset(lc1)[x] + multiset(rc1)[x] == multiset(lc)[x] + multiset(rc)[x]
  {
    assert multiset(lc1) + multiset(rc1) == multiset(lc1 + rc1) == multiset(lc) + multiset(rc);
    forall x: Id
      ensures multiset(lc1)[x] + multiset(rc1)[x] == multiset(lc)[x] + multiset(rc)[x]
    {
      assert (multiset(lc1) + multiset(rc1))[x] == (multiset(lc) + multiset(rc))[x];
    }
  }

  function ShrunkLast(l: Node): Node
    requires l.Node? && |l.items| > 0 && |l.children| == if l.leaf then 0 else |l.items| + 1
  {
    l.(items := l.items[..|l.items| - 1],
       children := if l.leaf then l.children else l.children[..|l.items|])
  }

  function ShrunkFirst(r: Node): Node
    requires r.Node? && |r.items| > 0 && |r.children| == if r.leaf then 0 else |r.items| + 1
  {
    r.(items := r.items[1..], children := if r.leaf then r.children else r.children[1..])
  }

  function GrownFirst(it: Item, r: Node, kids: seq<Id>): Node
    requires r.Node?
  {
    r.(items := [it] + r.items, children := kids + r.children)
  }

  function GrownLast(l: Node, it: Item, kids: seq<Id>): Node
    requires l.Node?
  {
    l.(items := l.items + [it], children := l.children + kids)
  }

  /** Moving a bare child, or nothing, from the end of one node to the start of the other. */
  lemma StubMoves(l: Node, it: Item, stub: Node, it1: Item, r: Node, a: Notes)
    requires Fits(l) && Fits(stub) && Fits(r) && l.leaf == stub.leaf == r.leaf
    ensures ReadOf(Join(l, it, stub), a) + [it1] + ReadOf(r, a)
         == ReadOf(l, a) + [it] + ReadOf(Join(stub, it1, r), a)
  {
    calc {
      ReadOf(Join(l, it, stub), a) + [it1] + ReadOf(r, a);
      { JoinRead(l, it, stub, a); }
      (ReadOf(l, a) + [it] + ReadOf(stub, a)) + [it1] + ReadOf(r, a);
      { Regroup4(ReadOf(l, a), [it], ReadOf(stub, a), [it1], ReadOf(r, a)); }
      ReadOf(l, a) + [it] + (ReadOf(stub, a) + [it1] + ReadOf(r, a));
      { JoinRead(stub, it1, r, a); }
      ReadOf(l, a) + [it] + ReadOf(Join(stub, it1, r), a);
    }
  }

  lemma LastOff(l: Node, kids: seq<Id>)
    requires Fits(l) && |l.items| > 0 && kids == if l.leaf then [] else [l.children[|l.items|]]
    ensures Fits(ShrunkLast(l)) && Fits(Stub(l.leaf, kids))
    ensures Join(ShrunkLast(l), l.items[|l.items| - 1], Stub(l.leaf, kids)) == l
    ensures l.children == ShrunkLast(l).children + kids
  {
    assert l.items[..|l.items| - 1] + [l.items[|l.items| - 1]] + [] == l.items;
  }

  lemma FirstOff(r: Node, kids: seq<Id>)
    requires Fits(r) && |r.items| > 0 && kids == if r.leaf then [] else [r.children[0]]
    ensures Fits(ShrunkFirst(r)) && Fits(Stub(r.leaf, kids))
    ensures SameReads(Join(Stub(r.leaf, kids), r.items[0], ShrunkFirst(r)), r)
    ensures r.children == kids + ShrunkFirst(r).children
  {
    assert [] + [r.items[0]] + r.items[1..] == r.items;
  }

  lemma FirstOn(it: Item, r: Node, kids: seq<Id>)
    requires Fits(r) && |kids| == if r.leaf then 0 else 1
    ensures Fits(GrownFirst(it, r, kids)) && SameReads(Join(Stub(r.leaf, kids), it, r), GrownFirst(it, r, kids))
  {
    assert [] + [it] + r.items == [it] + r.items;
  }

  lemma LastOn(l: Node, it: Item, kids: seq<Id>)
    requires Fits(l) && |kids| == if l.leaf then 0 else 1
    ensures Fits(GrownLast(l, it, kids)) && SameReads(Join(l, it, Stub(l.leaf, kids)), GrownLast(l, it, kids))
  {
    assert l.items + [it] + [] == l.items + [it];
  }

  ghost predicate SameReads(p: Node, q: Node) {
    match (p, q)
    case (Node(_, pl, pi, pc), Node(_, ql, qi, qc)) => pl == ql && pi == qi && pc == qc
    case _ => false
  }

  /** The last item and child of the left node go round through the parent to the right node. */
  lemma ShiftRightReads(l: Node, it: Item, r: Node, a: Notes, kids: seq<Id>)
    requires Fits(l) && Fits(r) && l.leaf == r.leaf && |l.items| > 0
    requires kids == if l.leaf then [] else [l.children[|l.items|]]
    ensures ReadOf(l, a) + [it] + ReadOf(r, a)
         == ReadOf(ShrunkLast(l), a) + [l.items[|l.items| - 1]] + ReadOf(GrownFirst(it, r, kids), a)
  {
    LastOff(l, kids);
    FirstOn(it, r, kids);
    StubMoves(ShrunkLast(l), l.items[|l.items| - 1], Stub(l.leaf, kids), it, r, a);
    SameReading(GrownFirst(it, r, kids), Join(Stub(l.leaf, kids), it, r), a);
  }

  /** The first item and child of the right node go round through the parent to the left node. */
  lemma ShiftLeftReads(l: Node, it: Item, r: Node, a: Notes, kids: seq<Id>)
    requires Fits(l) && Fits(r) && l.leaf == r.leaf && |r.items| > 0
    requires kids == if r.leaf then [] else [r.children[0]]
    ensures ReadOf(l, a) + [it] + ReadOf(r, a)
         == ReadOf(GrownLast(l, it, kids), a) + [r.items[0]] + ReadOf(ShrunkFirst(r), a)
  {
    FirstOff(r, kids);
    LastOn(l, it, kids);
    StubMoves(l, it, Stub(r.leaf, kids), r.items[0], ShrunkFirst(r), a);
    SameReading(r, Join(Stub(r.leaf, kids), r.items[0], ShrunkFirst(r)), a);
    SameReading(GrownLast(l, it, kids), Join(l, it, Stub(r.leaf, kids)), a);
  }

  /** Enough items for a rotation: one node is one short, and the two cannot be merged. */
  ghost predicate Lopsided(l: Node, r: Node, mx: nat) {
    match (l, r)
    case (Node(_, _, li, _), Node(_, _, ri, _)) =>
      Capacity(mx) && mx <= |li| + |ri| && |li| <= mx && |ri| <= mx
      && (|li| + 1 == mx / 2 || |ri| + 1 == mx / 2)
    case _ => false
  }

  lemma ShiftRightFits(l: Node, it: Item, r: Node, mx: nat, kids: seq<Id>)
    requires Fits(l) && Fits(r) && l.leaf == r.leaf && Lopsided(l, r, mx) && |l.items| > |r.items|
    requires kids == if l.leaf then [] else [l.children[|l.items|]]
    ensures Rotated(l, it, r, ShrunkLast(l), l.items[|l.items| - 1], GrownFirst(it, r, kids), mx)
  {
    LastOff(l, kids);
    FirstOn(it, r, kids);
    Assoc(ShrunkLast(l).children, kids, r.children);
  }

  lemma ShiftLeftFits(l: Node, it: Item, r: Node, mx: nat, kids: seq<Id>)
    requires Fits(l) && Fits(r) && l.leaf == r.leaf && Lopsided(l, r, mx) && |l.items| <= |r.items|
    requires kids == if r.leaf then [] else [r.children[0]]
    ensures Rotated(l, it, r, GrownLast(l, it, kids), r.items[0], ShrunkFirst(r), mx)
  {
    FirstOff(r, kids);
    LastOn(l, it, kids);
    Assoc(l.children, kids, ShrunkFirst(r).children);
  }

  lemma SameReading(p: Node, q: Node, a: Notes)
    requires p.Node? && q.Node? && p.leaf == q.leaf && p.items == q.items && p.children == q.children
    ensures ReadOf(p, a) == ReadOf(q, a)
  {
  }

  lemma Regroup4<T>(a: seq<T>, b: seq<T>, c: seq<T>, d: seq<T>, e: seq<T>)
    ensures (a + b + c) + d + e == a + b + (c + d + e)
  {
  }

  /** The node reads as before, everything below it is coherent again, and it may itself be one
      item shorter. */
  ghost predicate Rebalanced(h: Heap, a: Notes, h1: Heap, a1: Notes, mx: nat, ext: multiset<Id>, n: Id) {
    && Frame(h, a, h1, a1, ext, n) && SoundBut(h1, a1, mx, ext, n, -1)
    && a1[n] == a[n] && |h1[n].items| + 1 >= |h[n].items|
  }
}
