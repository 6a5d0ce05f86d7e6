/** Counting references and framing, one node at a time. */
module NodeHeapLemmas {
  import opened NodeHeap

  // ----- counting

  lemma {:induction false} InDegAppend(h: Heap, n: Node, x: Id)
    ensures InDeg(h + [n], x) == InDeg(h, x) + Kids(n)[x]
  {
    assert (h + [n])[..|h|] == h;
  }

  lemma {:induction false} InDegUpdate(h: Heap, i: nat, n: Node, x: Id)
    requires i < |h|
    ensures InDeg(h[i := n], x) == InDeg(h, x) - Kids(h[i])[x] + Kids(n)[x]
  {
    var m := |h| - 1;
    if i == m {
      assert h[i := n][..m] == h[..m];
    } else {
      InDegUpdate(h[..m], i, n, x);
      assert h[i := n][..m] == h[..m][i := n];
    }
  }

  lemma {:induction false} InDegAtLeast(h: Heap, p: nat, x: Id)
    requires p < |h|
    ensures InDeg(h, x) >= Kids(h[p])[x]
  {
    InDegUpdate(h, p, Free, x);
  }

  lemma {:induction false} InDegPair(h: Heap, p: nat, q: nat, x: Id)
    requires p < |h| && q < |h| && p != q
    ensures InDeg(h, x) >= Kids(h[p])[x] + Kids(h[q])[x]
  {
    InDegUpdate(h, p, Free, x);
    InDegAtLeast(h[p := Free], q, x);
  }

  function Owed(n: Node): nat { if n.Node? then n.rc + 1 else 0 }

  /** Rewriting one node keeps the counts exact when each address gains as many references,
      inside and outside, as its own count rises. */
  lemma ExactUpdate(h: Heap, ext: multiset<Id>, i: nat, n: Node, ext1: multiset<Id>)
    requires Exact(h, ext) && i < |h|
    requires forall x: Id {:trigger Kids(n)[x]} {:trigger ext1[x]} :: Kids(n)[x] + ext1[x] + (if x == i then Owed(h[i]) else 0)
                          == Kids(h[i])[x] + ext[x] + (if x == i then Owed(n) else 0)
    ensures Exact(h[i := n], ext1)
  {
    var h1 := h[i := n];
    forall x: Id
      ensures RefOk(h1, ext1, x)
    {
      assert RefOk(h, ext, x);
      InDegUpdate(h, i, n, x);
    }
  }

  /** A node hands some of its child slots to the caller. */
  lemma ExactGive(h: Heap, ext: multiset<Id>, i: nat, n: Node, moved: multiset<Id>)
    requires Exact(h, ext) && i < |h| && h[i].Node? && n.Node? && n.rc == h[i].rc
    requires Kids(h[i]) == Kids(n) + moved
    ensures Exact(h[i := n], ext + moved)
  {
    ExactUpdate(h, ext, i, n, ext + moved);
  }

  /** A node takes over child slots the caller held. */
  lemma ExactTake(h: Heap, ext: multiset<Id>, i: nat, n: Node, moved: multiset<Id>)
    requires Exact(h, ext + moved) && i < |h| && h[i].Node? && n.Node? && n.rc == h[i].rc
    requires Kids(n) == Kids(h[i]) + moved
    ensures Exact(h[i := n], ext)
  {
    ExactUpdate(h, ext + moved, i, n, ext);
  }

  lemma ExactFree(h: Heap, ext: multiset<Id>, i: nat)
    requires Exact(h, ext + multiset{i}) && i < |h| && h[i].Node? && h[i].rc == 0
    ensures Exact(h[i := Free], ext + Kids(h[i]))
  {
    ExactUpdate(h, ext + multiset{i}, i, Free, ext + Kids(h[i]));
  }

  /** A fresh node takes over outside references as its child slots. */
  lemma ExactAppend(h: Heap, ext: multiset<Id>, node: Node)
    requires node.Node? && node.rc == 0 && Exact(h, ext + Kids(node))
    ensures Exact(h + [node], ext + multiset{|h|})
  {
    var h1, e1 := h + [node], ext + multiset{|h|};
    forall x: Id
      ensures RefOk(h1, e1, x)
    {
      assert RefOk(h, ext + Kids(node), x);
      InDegAppend(h, node, x);
    }
  }

  lemma SlotCounted(cs: seq<Id>, i: nat)
    requires i < |cs|
    ensures multiset(cs)[cs[i]] >= 1
  {
    assert cs[i] in multiset(cs);
  }

  lemma SlotsCounted(cs: seq<Id>, i: nat, j: nat)
    requires i < j < |cs| && cs[i] == cs[j]
    ensures multiset(cs)[cs[i]] >= 2
  {
    assert cs == cs[..j] + cs[j..];
    assert cs[..j][i] in multiset(cs[..j]);
    assert cs[j..][0] in multiset(cs[j..]);
  }

  /** A node whose count is zero and that sits in a child slot sits in no other slot and is not
      referred to from outside. */
  lemma SoleSlot(h: Heap, ext: multiset<Id>, p: Id, i: nat)
    requires Exact(h, ext) && p < |h| && h[p].Node? && i < |h[p].children|
    requires h[p].children[i] < |h| && h[h[p].children[i]].Node? && h[h[p].children[i]].rc == 0
    ensures ext[h[p].children[i]] == 0
    ensures forall q :: 0 <= q < |h| && h[q].Node? && q != p ==> h[p].children[i] !in h[q].children
    ensures forall j :: 0 <= j < |h[p].children| && j != i ==> h[p].children[j] != h[p].children[i]
  {
    var c := h[p].children[i];
    assert RefOk(h, ext, c);
    InDegAtLeast(h, p, c);
    SlotCounted(h[p].children, i);
    forall q | 0 <= q < |h| && h[q].Node? && q != p
      ensures c !in h[q].children
    {
      InDegPair(h, p, q, c);
    }
    forall j | 0 <= j < |h[p].children| && j != i
      ensures h[p].children[j] != c
    {
      if h[p].children[j] == c {
        SlotsCounted(h[p].children, if i < j then i else j, if i < j then j else i);
      }
    }
  }

  /** A node whose only reference comes from outside sits in no child slot. */
  lemma SoleRoot(h: Heap, ext: multiset<Id>, n: Id)
    requires Exact(h, ext) && n < |h| && h[n].Node? && h[n].rc == 0 && ext[n] > 0
    ensures ext[n] == 1
    ensures forall q :: 0 <= q < |h| && h[q].Node? ==> n !in h[q].children
  {
    assert RefOk(h, ext, n);
    forall q | 0 <= q < |h| && h[q].Node?
      ensures n !in h[q].children
    {
      InDegAtLeast(h, q, n);
    }
  }

  // ----- readings of a list of children

  lemma {:induction false} PartsAppend(a: Notes, xs: seq<Id>, ys: seq<Id>)
    ensures Parts(a, xs + ys) == Parts(a, xs) + Parts(a, ys)
  {
    if ys == [] {
      assert xs + ys == xs;
    } else {
      PartsAppend(a, xs, ys[..|ys| - 1]);
      assert (xs + ys)[..|xs + ys| - 1] == xs + ys[..|ys| - 1];
    }
  }

  lemma {:induction false} PartsCut(a: Notes, xs: seq<Id>, c: Id, ys: seq<Id>)
    requires c < |a|
    ensures Parts(a, xs + [c] + ys) == Parts(a, xs) + [a[c].cont] + Parts(a, ys)
  {
    PartsAppend(a, xs + [c], ys);
    PartsAppend(a, xs, [c]);
    assert Parts(a, [c]) == [a[c].cont];
  }

  lemma {:induction false} PartsCutTwo(a: Notes, xs: seq<Id>, c: Id, d: Id, ys: seq<Id>)
    requires c < |a| && d < |a|
    ensures Parts(a, xs + [c, d] + ys) == Parts(a, xs) + [a[c].cont, a[d].cont] + Parts(a, ys)
  {
    PartsAppend(a, xs + [c, d], ys);
    PartsAppend(a, xs, [c, d]);
    assert Parts(a, [c, d]) == [a[c].cont, a[d].cont];
  }

  lemma {:induction false} PartsSame(a: Notes, b: Notes, cs: seq<Id>)
    requires forall k :: 0 <= k < |cs| ==> cs[k] < |a| && cs[k] < |b| && a[cs[k]].cont == b[cs[k]].cont
    ensures Parts(a, cs) == Parts(b, cs)
  {
    if cs != [] {
      PartsSame(a, b, cs[..|cs| - 1]);
    }
  }

  /** What a local variable or a tree holds is allocated. */
  lemma HeldIsLive(h: Heap, ext: multiset<Id>, c: Id)
    requires Exact(h, ext) && ext[c] > 0
    ensures c < |h| && h[c].Node?
  {
    assert RefOk(h, ext, c);
  }

  lemma KidsBelow(h: Heap, a: Notes, mx: nat, c: Id)
    requires |h| == |a| && c < |h| && h[c].Node? && Coherent(h, a, mx, c, -1)
    ensures forall k :: 0 <= k < |h[c].children| ==>
              h[c].children[k] < |a| && a[h[c].children[k]].level + 1 == a[c].level
              && h[h[c].children[k]].Node?
  {
    forall k | 0 <= k < |h[c].children|
      ensures h[c].children[k] < |a| && a[h[c].children[k]].level + 1 == a[c].level
              && h[h[c].children[k]].Node?
    {
      assert KidOk(h, a, mx, h[c].children[k], a[c].level, -1);
    }
  }

  lemma ShrunkTrans(h: Heap, h1: Heap, h2: Heap)
    requires Shrunk(h, h1) && Shrunk(h1, h2)
    ensures Shrunk(h, h2)
  {
  }

  lemma CountedTrans(h: Heap, h1: Heap, h2: Heap, c: Id, cs: seq<Id>)
    requires Counted(h, h1, cs) && Counted(h1, h2, [c]) && c in cs
    ensures Counted(h, h2, cs)
  {
    assert forall x :: x !in cs ==> x !in [c];
  }

  lemma ExtSnoc(ext: multiset<Id>, kids: seq<Id>, i: nat)
    requires i < |kids|
    ensures ext + multiset(kids[..i + 1]) == ext + multiset(kids[..i]) + multiset{kids[i]}
  {
    assert kids[..i + 1] == kids[..i] + [kids[i]];
  }

  // ----- framing

  lemma CowedFrame(h: Heap, a: Notes, h1: Heap, a1: Notes, mx: nat, ext: multiset<Id>, n: Id, i: nat)
    requires Cowed(h, a, h1, a1, n, i) && Coherent(h, a, mx, n, -1)
    ensures Frame(h, a, h1, a1, ext, n)
  {
    assert KidOk(h, a, mx, h[n].children[i], a[n].level, -1);
  }

  lemma CoherentKept(h: Heap, a: Notes, h1: Heap, a1: Notes, mx: nat, x: Id, u: int, u1: int)
    requires |h| == |a| && |h1| == |a1| && x < |h| && x < |h1|
    requires SameBody(h[x], h1[x]) && a1[x] == a[x]
    requires Coherent(h, a, mx, x, u)
    requires forall k :: 0 <= k < |h[x].children| ==>
      var c := h[x].children[k];
      c < |h1| && c < |a| && h1[c].Node? && a1[c] == a[c] && (c == u1 || mx / 2 <= |h1[c].items|)
    ensures Coherent(h1, a1, mx, x, u1)
  {
    forall k | 0 <= k < |h[x].children|
      ensures KidOk(h1, a1, mx, h[x].children[k], a[x].level, u1)
    {
      assert KidOk(h, a, mx, h[x].children[k], a[x].level, u);
    }
    if !h[x].leaf {
      forall k | 0 <= k < |h[x].children|
        ensures h[x].children[k] < |a| && h[x].children[k] < |a1|
        ensures a[h[x].children[k]].cont == a1[h[x].children[k]].cont
      {
        assert KidOk(h, a, mx, h[x].children[k], a[x].level, u);
      }
      PartsSame(a, a1, h[x].children);
    }
  }

  lemma FrameTrans(h: Heap, a: Notes, h1: Heap, a1: Notes, h2: Heap, a2: Notes, ext: multiset<Id>, n: Id)
    requires Frame(h, a, h1, a1, ext, n) && Frame(h1, a1, h2, a2, ext, n)
    ensures Frame(h, a, h2, a2, ext, n)
  {
    forall x | 0 <= x < |h| && h[x].Node? && x != n
      ensures Kept(h, a, h2, a2, ext, a[n].level, x)
    {
      assert Kept(h, a, h1, a1, ext, a[n].level, x);
      if h1[x].Node? {
        assert Kept(h1, a1, h2, a2, ext, a[n].level, x);
      }
    }
  }
}
