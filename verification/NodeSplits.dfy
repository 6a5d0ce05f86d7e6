/** Splitting a full node around its median, and hanging the new half below a parent. */
module NodeSplits {
  import opened SortedItems
  import opened Weave
  import opened NodeHeap
  import opened NodeHeapLemmas
  import opened NodeReading

  function LowerHalf(n: Node, mid: nat): Node
    requires n.Node? && mid < |n.items| && (n.leaf || |n.children| == |n.items| + 1)
  {
    n.(items := n.items[..mid], children := if n.leaf then n.children else n.children[..mid + 1])
  }

  function UpperHalf(n: Node, mid: nat): Node
    requires n.Node? && mid < |n.items| && (n.leaf || |n.children| == |n.items| + 1)
  {
    Node(0, n.leaf, n.items[mid + 1..], if n.leaf then [] else n.children[mid + 1..])
  }

  /** What walking the node and its children reads. */
  ghost function ReadOf(n: Node, a: Notes): seq<Item> {
    match n
    case Free => []
    case Node(_, leaf, items, children) =>
      if leaf then items
      else if |children| == |items| + 1 then WeaveAll(items, Parts(a, children))
      else []
  }

  ghost predicate Splittable(n: Node, mid: nat) {
    n.Node? && mid < |n.items| && |n.children| == if n.leaf then 0 else |n.items| + 1
  }

  /** The two halves and the median read what the whole node read. */
  lemma HalvesRead(n: Node, a: Notes, cont: seq<Item>, mid: nat)
    requires Splittable(n, mid) && Reads(n, a, cont)
    requires forall k :: 0 <= k < |n.children| ==> n.children[k] < |a|
    ensures cont == ReadOf(LowerHalf(n, mid), a) + [n.items[mid]] + ReadOf(UpperHalf(n, mid), a)
    ensures Reads(LowerHalf(n, mid), a, ReadOf(LowerHalf(n, mid), a))
    ensures Reads(UpperHalf(n, mid), a, ReadOf(UpperHalf(n, mid), a))
  {
    if n.leaf {
      assert n.items == n.items[..mid] + [n.items[mid]] + n.items[mid + 1..];
    } else {
      ItemCut(n, a, cont, mid);
      LowerRead(n, a, mid);
      UpperRead(n, a, mid);
    }
  }

  lemma LowerRead(n: Node, a: Notes, mid: nat)
    requires Branch(n) && mid < |n.items| && n.children[mid] < |a|
    ensures ReadOf(LowerHalf(n, mid), a) == LeftOf(n, a, mid) + a[n.children[mid]].cont
  {
    assert n.children[..mid + 1] == n.children[..mid] + [n.children[mid]] + [];
    PartsCut(a, n.children[..mid], n.children[mid], []);
    assert Parts(a, n.children[..mid + 1])[..mid] == Parts(a, n.children[..mid]);
  }

  lemma UpperRead(n: Node, a: Notes, mid: nat)
    requires Branch(n) && mid < |n.items| && n.children[mid + 1] < |a|
    ensures ReadOf(UpperHalf(n, mid), a) == a[n.children[mid + 1]].cont + RightOf(n, a, mid + 1)
  {
    var d := n.children[mid + 1];
    var its := n.items[mid + 1..];
    calc {
      ReadOf(UpperHalf(n, mid), a);
      WeaveAll(its, Parts(a, n.children[mid + 1..]));
      { CutFirst(its, Parts(a, n.children[mid + 1..])); }
      a[d].cont + Paz(its, Parts(a, n.children[mid + 1..])[1..]);
      { assert n.children[mid + 1..] == [d] + n.children[mid + 2..];
        PartsAppend(a, [d], n.children[mid + 2..]); }
      a[d].cont + RightOf(n, a, mid + 1);
    }
  }

  /** The heap after `c` was split, the upper half held by the caller at the fresh address. */
  ghost function SplitHeap(h: Heap, c: Id, mid: nat): Heap
    requires c < |h| && Splittable(h[c], mid)
  {
    h[c := LowerHalf(h[c], mid)] + [UpperHalf(h[c], mid)]
  }

  ghost function SplitNotes(h: Heap, a: Notes, c: Id, mid: nat): Notes
    requires |h| == |a| && c < |h| && Splittable(h[c], mid)
  {
    a[c := Note(a[c].level, ReadOf(LowerHalf(h[c], mid), a))]
      + [Note(a[c].level, ReadOf(UpperHalf(h[c], mid), a))]
  }

  lemma SplitSound(h: Heap, a: Notes, mx: nat, ext: multiset<Id>, c: Id, mid: nat)
    requires Sound(h, a, mx, ext) && c < |h| && h[c].Node? && |h[c].items| == mx && mid == mx / 2
    ensures Splittable(h[c], mid)
    ensures a[c].cont == ReadOf(LowerHalf(h[c], mid), a) + [h[c].items[mid]] + ReadOf(UpperHalf(h[c], mid), a)
    ensures SoundBut(SplitHeap(h, c, mid), SplitNotes(h, a, c, mid), mx, ext + multiset{|h|}, c, -1)
  {
    hide Reads;
    assert Coherent(h, a, mx, c, -1);
    KidsBelow(h, a, mx, c);
    HalvesRead(h[c], a, a[c].cont, mid);
    SplitExact(h, ext, c, mid);
    var h1, a1 := SplitHeap(h, c, mid), SplitNotes(h, a, c, mid);
    forall x | 0 <= x < |h1| && h1[x].Node? && (x == c || c !in h1[x].children)
      ensures Coherent(h1, a1, mx, x, -1)
    {
      if x == c || x == |h| {
        var lo, hi := LowerHalf(h[c], mid), UpperHalf(h[c], mid);
        HalfFits(h[c], mid, lo);
        HalfFits(h[c], mid, hi);
        SortedParts(ReadOf(lo, a), [h[c].items[mid]], ReadOf(hi, a));
        HalfCoherent(h, a, mx, c, lo, hi, ReadOf(lo, a), ReadOf(hi, a), x);
      } else {
        assert Coherent(h, a, mx, x, -1);
        SplitElsewhere(h, a, mx, c, mid, x);
      }
    }
  }

  lemma SplitExact(h: Heap, ext: multiset<Id>, c: Id, mid: nat)
    requires Exact(h, ext) && c < |h| && Splittable(h[c], mid)
    ensures Exact(SplitHeap(h, c, mid), ext + multiset{|h|})
  {
    var lo, hi := LowerHalf(h[c], mid), UpperHalf(h[c], mid);
    KidsHalved(h[c], mid);
    ExactUpdate(h, ext, c, lo, ext + Kids(hi));
    ExactAppend(h[c := lo], ext, hi);
  }

  lemma KidsHalved(n: Node, mid: nat)
    requires Splittable(n, mid)
    ensures forall x: Id :: Kids(LowerHalf(n, mid))[x] + Kids(UpperHalf(n, mid))[x] == Kids(n)[x]
  {
    if !n.leaf {
      assert n.children == n.children[..mid + 1] + n.children[mid + 1..];
      assert Kids(n) == Kids(LowerHalf(n, mid)) + Kids(UpperHalf(n, mid));
    }
  }

  /** A half of `n`: as many items as `mid`, children among those of `n`. */
  ghost predicate HalfOf(n: Node, half: Node, mid: nat) {
    && n.Node? && half.Node? && half.leaf == n.leaf && |half.items| == mid
    && |half.children| == (if n.leaf then 0 else mid + 1)
    && forall k :: 0 <= k < |half.children| ==> half.children[k] in n.children
  }

  lemma HalfFits(n: Node, mid: nat, half: Node)
    requires Splittable(n, mid) && |n.items| == 2 * mid + 1
    requires half == LowerHalf(n, mid) || half == UpperHalf(n, mid)
    ensures HalfOf(n, half, mid)
  {
  }

  lemma HalfCoherent(h: Heap, a: Notes, mx: nat, c: Id, lo: Node, hi: Node, p: seq<Item>, q: seq<Item>, x: Id)
    requires |h| == |a| && Capacity(mx) && c < |h| && h[c].Node? && Shaped(h, a, mx, c, -1)
    requires HalfOf(h[c], lo, mx / 2) && HalfOf(h[c], hi, mx / 2)
    requires Reads(lo, a, p) && Reads(hi, a, q) && Sorted(p) && Sorted(q)
    requires x == c || x == |h|
    ensures Coherent(h[c := lo] + [hi], a[c := Note(a[c].level, p)] + [Note(a[c].level, q)], mx, x, -1)
  {
    var h1, a1 := h[c := lo] + [hi], a[c := Note(a[c].level, p)] + [Note(a[c].level, q)];
    forall k | 0 <= k < |h1[x].children|
      ensures var d := h1[x].children[k];
              d < |a| && a1[d] == a[d] && KidOk(h1, a1, mx, d, a[c].level, -1)
    {
      var k0 :| 0 <= k0 < |h[c].children| && h[c].children[k0] == h1[x].children[k];
      assert KidOk(h, a, mx, h[c].children[k0], a[c].level, -1);
    }
    PieceCoherent(h1, a, a1, mx, x);
  }

  /** A node whose children have kept their notes, and that read as noted, is coherent. */
  lemma PieceCoherent(h1: Heap, a: Notes, a1: Notes, mx: nat, x: Id)
    requires |h1| == |a1| && x < |h1| && h1[x].Node? && 1 <= a1[x].level && |h1[x].items| <= mx
    requires h1[x].leaf <==> a1[x].level == 1
    requires |h1[x].children| == if h1[x].leaf then 0 else |h1[x].items| + 1
    requires forall k :: 0 <= k < |h1[x].children| ==> var d := h1[x].children[k];
               d < |a| && d < |a1| && a1[d] == a[d] && KidOk(h1, a1, mx, d, a1[x].level, -1)
    requires Reads(h1[x], a, a1[x].cont) && Sorted(a1[x].cont)
    ensures Coherent(h1, a1, mx, x, -1)
  {
    PartsSame(a, a1, h1[x].children);
    assert Reads(h1[x], a1, a1[x].cont);
    assert Shaped(h1, a1, mx, x, -1);
  }

  lemma SplitElsewhere(h: Heap, a: Notes, mx: nat, c: Id, mid: nat, x: Id)
    requires |h| == |a| && c < |h| && x < |h| && x != c && Coherent(h, a, mx, x, -1)
    requires Splittable(h[c], mid) && c !in h[x].children
    ensures Coherent(SplitHeap(h, c, mid), SplitNotes(h, a, c, mid), mx, x, -1)
  {
    forall k | 0 <= k < |h[x].children|
      ensures KidOk(h, a, mx, h[x].children[k], a[x].level, -1)
      ensures h[x].children[k] != c
    {
    }
    CoherentKept(h, a, SplitHeap(h, c, mid), SplitNotes(h, a, c, mid), mx, x, -1, -1);
  }

  // ----- the parent takes the median and the upper half

  ghost predicate Adopts(n: Node, n1: Node, i: nat, med: Item, z: Id) {
    && n.Node? && n1.Node? && n1.rc == n.rc && n1.leaf == n.leaf
    && i <= |n.items| && i < |n.children|
    && n1.items == n.items[..i] + [med] + n.items[i..]
    && n1.children == n.children[..i + 1] + [z] + n.children[i + 1..]
  }

  lemma AdoptReads(n: Node, n1: Node, a: Notes, a1: Notes, cont: seq<Item>, i: nat, c: Id, med: Item, z: Id)
    requires Branch(n) && Reads(n, a, cont) && Adopts(n, n1, i, med, z) && n.children[i] == c
    requires c < |a| && c < |a1| && z < |a1|
    requires a[c].cont == a1[c].cont + [med] + a1[z].cont
    requires forall k :: 0 <= k < |n.children| && k != i ==>
               n.children[k] < |a| && n.children[k] < |a1| && a[n.children[k]].cont == a1[n.children[k]].cont
    ensures Reads(n1, a1, cont)
  {
    hide Parts;
    var i1, i2 := n.items[..i], n.items[i..];
    var c1, c2 := n.children[..i], n.children[i + 1..];
    calc {
      WeaveAll(n1.items, Parts(a1, n1.children));
      { assert n1.children == c1 + [c, z] + c2; PartsCutTwo(a1, c1, c, z, c2); }
      WeaveAll(i1 + [med] + i2, Parts(a1, c1) + [a1[c].cont, a1[z].cont] + Parts(a1, c2));
      { CutTwo(i1, Parts(a1, c1), a1[c].cont, med, a1[z].cont, i2, Parts(a1, c2)); }
      Zip(i1, Parts(a1, c1)) + (a1[c].cont + [med] + a1[z].cont) + Paz(i2, Parts(a1, c2));
      Zip(i1, Parts(a1, c1)) + a[c].cont + Paz(i2, Parts(a1, c2));
      { SidesKept(n, a, a1, i); }
      LeftOf(n, a, i) + a[c].cont + RightOf(n, a, i);
      { NodeCut(n, a, cont, i); }
      cont;
    }
  }

  lemma AdoptExact(h: Heap, ext: multiset<Id>, n: Id, n1: Node, i: nat, med: Item, z: Id)
    requires Exact(h, ext + multiset{z}) && n < |h| && Adopts(h[n], n1, i, med, z)
    ensures Exact(h[n := n1], ext)
  {
    var cs := h[n].children;
    assert cs == cs[..i + 1] + cs[i + 1..];
    assert Kids(n1) == Kids(h[n]) + multiset{z};
    ExactUpdate(h, ext + multiset{z}, n, n1, ext);
  }

  lemma AdoptSound(h: Heap, a: Notes, h1: Heap, a1: Notes, mx: nat, ext: multiset<Id>,
                   n: Id, n1: Node, i: nat, c: Id, med: Item, z: Id)
    requires Sound(h, a, mx, ext) && n < |h| && Branch(h[n]) && h[n].rc == 0 && |h[n].items| < mx
    requires i < |h[n].children| && h[n].children[i] == c && c < |h| && h[c].Node? && h[c].rc == 0
    requires z == |h| && |h1| == |a1| == |h| + 1
    requires SoundBut(h1, a1, mx, ext + multiset{z}, c, -1)
    requires forall x :: 0 <= x < |h| && x != c ==> h1[x] == h[x] && a1[x] == a[x]
    requires h1[c].Node? && h1[c].rc == 0 && |h1[c].items| == mx / 2 && a1[c].level == a[c].level
    requires h1[z].Node? && |h1[z].items| == mx / 2 && a1[z].level == a[c].level
    requires a[c].cont == a1[c].cont + [med] + a1[z].cont
    requires Adopts(h[n], n1, i, med, z)
    ensures Sound(h1[n := n1], a1, mx, ext)
    ensures Frame(h, a, h1[n := n1], a1, ext, n)
    ensures a1[n] == a[n]
  {
    hide Coherent;
    var h2 := h1[n := n1];
    assert Coherent(h, a, mx, n, -1);
    KidsBelow(h, a, mx, n);
    SoleSlot(h, ext, n, i);
    AdoptExact(h1, ext, n, n1, i, med, z);
    SoleSlot(h1, ext + multiset{z}, n, i);
    forall x | 0 <= x < |h2| && h2[x].Node?
      ensures Coherent(h2, a1, mx, x, -1)
    {
      if x == n {
        AdoptHere(h, a, h1, a1, mx, n, n1, i, c, med, z);
      } else {
        assert Coherent(h1, a1, mx, x, -1);
        AdoptElsewhere(h1, a1, mx, n, n1, x);
      }
    }
    AdoptFrame(h, a, h2, a1, ext, n, c);
  }

  lemma AdoptFrame(h: Heap, a: Notes, h2: Heap, a2: Notes, ext: multiset<Id>, n: Id, c: Id)
    requires |h| == |a| <= |h2| == |a2| && n < |h| && c < |h|
    requires h[n].Node? && h2[n].Node? && h2[n].rc == h[n].rc && h2[n].leaf == h[n].leaf && a2[n] == a[n]
    requires ext[c] == 0 && a[c].level < a[n].level
    requires forall x :: 0 <= x < |h| && x != c && x != n ==> h2[x] == h[x] && a2[x] == a[x]
    ensures Frame(h, a, h2, a2, ext, n)
  {
    forall x | 0 <= x < |h| && x != n
      ensures Kept(h, a, h2, a2, ext, a[n].level, x)
    {
    }
  }

  lemma AdoptElsewhere(h1: Heap, a1: Notes, mx: nat, n: Id, n1: Node, x: Id)
    requires |h1| == |a1| && n < |h1| && x < |h1| && x != n && Coherent(h1, a1, mx, x, -1)
    requires h1[n].Node? && n1.Node? && |n1.items| >= |h1[n].items|
    ensures Coherent(h1[n := n1], a1, mx, x, -1)
  {
    forall k | 0 <= k < |h1[x].children|
      ensures KidOk(h1, a1, mx, h1[x].children[k], a1[x].level, -1)
    {
    }
    CoherentKept(h1, a1, h1[n := n1], a1, mx, x, -1, -1);
  }

  lemma AdoptHere(h: Heap, a: Notes, h1: Heap, a1: Notes, mx: nat, n: Id, n1: Node, i: nat, c: Id, med: Item, z: Id)
    requires |h| == |a| && n < |h| && Branch(h[n]) && |h[n].items| < mx && Coherent(h, a, mx, n, -1)
    requires i < |h[n].children| && h[n].children[i] == c && c < |h| && h[c].Node?
    requires forall j :: 0 <= j < |h[n].children| && j != i ==> h[n].children[j] != c
    requires n != c && z == |h| && |h1| == |a1| == |h| + 1
    requires forall x :: 0 <= x < |h| && x != c ==> h1[x] == h[x] && a1[x] == a[x]
    requires h1[c].Node? && |h1[c].items| == mx / 2 && a1[c].level == a[c].level
    requires h1[z].Node? && |h1[z].items| == mx / 2 && a1[z].level == a[c].level
    requires a[c].cont == a1[c].cont + [med] + a1[z].cont
    requires Adopts(h[n], n1, i, med, z)
    ensures Coherent(h1[n := n1], a1, mx, n, -1)
  {
    var h2 := h1[n := n1];
    KidsBelow(h, a, mx, n);
    forall k | 0 <= k < |h[n].children|
      ensures KidOk(h2, a1, mx, h[n].children[k], a[n].level, -1)
    {
      assert KidOk(h, a, mx, h[n].children[k], a[n].level, -1);
    }
    assert KidOk(h2, a1, mx, z, a[n].level, -1);
    assert forall k :: 0 <= k < |n1.children| ==> n1.children[k] == z || n1.children[k] in h[n].children;
    assert Shaped(h2, a1, mx, n, -1);
    assert Reads(h[n], a, a[n].cont);
    AdoptReads(h[n], n1, a, a1, a[n].cont, i, c, med, z);
  }

  // ----- what the two methods promise

  /** `c` was split: its lower half stays, the upper half is held by the caller. */
  ghost predicate SplitInto(h: Heap, a: Notes, h1: Heap, a1: Notes, mx: nat, ext: multiset<Id>, c: Id, median: Item)
  {
    && |h| == |a| && |h1| == |a1| == |h| + 1 && c < |h| && h[c].Node?
    && SoundBut(h1, a1, mx, ext + multiset{|h|}, c, -1)
    && (forall x :: 0 <= x < |h| && x != c ==> h1[x] == h[x] && a1[x] == a[x])
    && h1[c].Node? && h1[c].rc == h[c].rc && h1[c].leaf == h[c].leaf
    && |h1[c].items| == mx / 2 && a1[c].level == a[c].level
    && h1[|h|].Node? && h1[|h|].rc == 0 && |h1[|h|].items| == mx / 2 && a1[|h|].level == a[c].level
    && a[c].cont == a1[c].cont + [median] + a1[|h|].cont
  }

  lemma SplitDone(h: Heap, a: Notes, mx: nat, ext: multiset<Id>, c: Id, mid: nat)
    requires Sound(h, a, mx, ext) && c < |h| && h[c].Node? && |h[c].items| == mx && mid == mx / 2
    ensures Splittable(h[c], mid)
    ensures SplitInto(h, a, SplitHeap(h, c, mid), SplitNotes(h, a, c, mid), mx, ext, c, h[c].items[mid])
  {
    SplitSound(h, a, mx, ext, c, mid);
    var lo, hi := LowerHalf(h[c], mid), UpperHalf(h[c], mid);
    HalfFits(h[c], mid, lo);
    HalfFits(h[c], mid, hi);
    SplitDoneBy(h, a, mx, ext, c, lo, hi, ReadOf(lo, a), ReadOf(hi, a), h[c].items[mid]);
  }

  lemma SplitDoneBy(h: Heap, a: Notes, mx: nat, ext: multiset<Id>, c: Id, lo: Node, hi: Node,
                    p: seq<Item>, q: seq<Item>, median: Item)
    requires |h| == |a| && c < |h| && HalfOf(h[c], lo, mx / 2) && HalfOf(h[c], hi, mx / 2)
    requires lo.rc == h[c].rc && hi.rc == 0 && a[c].cont == p + [median] + q
    requires SoundBut(h[c := lo] + [hi], a[c := Note(a[c].level, p)] + [Note(a[c].level, q)], mx,
                      ext + multiset{|h|}, c, -1)
    ensures SplitInto(h, a, h[c := lo] + [hi], a[c := Note(a[c].level, p)] + [Note(a[c].level, q)], mx, ext, c, median)
  {
  }

  /** `n` gained a median and a child at `i`, and both children there are half full. */
  ghost predicate Widened(h: Heap, h1: Heap, n: Id, i: nat, mx: nat) {
    && n < |h| && n < |h1| && Branch(h[n]) && i < |h[n].children|
    && var c, z := h[n].children[i], |h|;
    && c < |h1| && h1[c].Node? && |h1[c].items| == mx / 2
    && z < |h1| && h1[z].Node? && |h1[z].items| == mx / 2
    && exists med :: Adopts(h[n], h1[n], i, med, z)
  }
}
