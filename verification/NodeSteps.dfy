/** The elementary heap steps of the copy-on-write discipline, each with the reference it moves:
    `ext` counts the references held outside the heap, by trees and by local variables. */
module NodeSteps {
  import opened NodeHeap
  import opened NodeHeapLemmas

  function WithRc(h: Heap, c: Id, r: nat): Heap
    requires c < |h| && h[c].Node?
  {
    h[c := h[c].(rc := r)]
  }

  /** Changing one count, in step with the references held outside, keeps the heap sound. */
  lemma RcSound(h: Heap, a: Notes, mx: nat, ext: multiset<Id>, c: Id, r: nat, ext1: multiset<Id>)
    requires Sound(h, a, mx, ext) && c < |h| && h[c].Node?
    requires forall x: Id :: ext1[x] == ext[x] + if x == c then r - h[c].rc else 0
    ensures Sound(WithRc(h, c, r), a, mx, ext1)
  {
    var h1 := WithRc(h, c, r);
    ExactUpdate(h, ext, c, h1[c], ext1);
    forall x | 0 <= x < |h1| && h1[x].Node?
      ensures Coherent(h1, a, mx, x, -1)
    {
      RcCoherent(h, a, mx, c, r, x);
    }
  }

  lemma RcCoherent(h: Heap, a: Notes, mx: nat, c: Id, r: nat, x: Id)
    requires |h| == |a| && c < |h| && h[c].Node? && x < |h| && h[x].Node?
    requires Coherent(h, a, mx, x, -1)
    ensures Coherent(WithRc(h, c, r), a, mx, x, -1)
  {
    var h1 := WithRc(h, c, r);
    forall k | 0 <= k < |h[x].children|
      ensures var d := h[x].children[k];
              d < |h1| && h1[d].Node? && mx / 2 <= |h1[d].items|
    {
      assert KidOk(h, a, mx, h[x].children[k], a[x].level, -1);
    }
    CoherentKept(h, a, h1, a, mx, x, -1, -1);
  }

  /** `rc++` takes one more outside reference. */
  lemma RetainSound(h: Heap, a: Notes, mx: nat, ext: multiset<Id>, c: Id, r: nat)
    requires Sound(h, a, mx, ext) && c < |h| && h[c].Node? && r == h[c].rc + 1
    ensures Sound(WithRc(h, c, r), a, mx, ext + multiset{c})
  {
    RcSound(h, a, mx, ext, c, r, ext + multiset{c});
  }

  /** `rc--` on a node that keeps another reference gives one outside reference back. */
  lemma ReleaseSound(h: Heap, a: Notes, mx: nat, ext: multiset<Id>, c: Id, r: nat)
    requires Sound(h, a, mx, ext + multiset{c}) && c < |h| && h[c].Node? && h[c].rc == r + 1
    ensures Sound(WithRc(h, c, r), a, mx, ext)
  {
    RcSound(h, a, mx, ext + multiset{c}, c, r, ext);
  }

  /** Freeing a node nobody else holds passes its child slots to the caller. */
  lemma FreeSound(h: Heap, a: Notes, mx: nat, ext: multiset<Id>, c: Id, ext1: multiset<Id>)
    requires Sound(h, a, mx, ext + multiset{c}) && c < |h| && h[c].Node? && h[c].rc == 0
    requires ext1 == ext + Kids(h[c])
    ensures Sound(h[c := Free], a, mx, ext1)
  {
    var h1 := h[c := Free];
    SoleRoot(h, ext + multiset{c}, c);
    ExactUpdate(h, ext + multiset{c}, c, Free, ext1);
    forall x | 0 <= x < |h1| && h1[x].Node?
      ensures Coherent(h1, a, mx, x, -1)
    {
      FreeCoherent(h, a, mx, c, x);
    }
  }

  lemma FreeCoherent(h: Heap, a: Notes, mx: nat, c: Id, x: Id)
    requires |h| == |a| && c < |h| && x < |h| && x != c && h[x].Node? && c !in h[x].children
    requires Coherent(h, a, mx, x, -1)
    ensures Coherent(h[c := Free], a, mx, x, -1)
  {
    var h1 := h[c := Free];
    forall k | 0 <= k < |h[x].children|
      ensures var d := h[x].children[k];
              d < |h1| && h1[d].Node? && mx / 2 <= |h1[d].items|
    {
      assert KidOk(h, a, mx, h[x].children[k], a[x].level, -1);
    }
    CoherentKept(h, a, h1, a, mx, x, -1, -1);
  }

  /** A fresh node takes over outside references as its child slots; the caller holds it. */
  lemma AppendSound(h: Heap, a: Notes, mx: nat, ext: multiset<Id>, node: Node, note: Note)
    requires node.Node? && node.rc == 0
    requires Sound(h, a, mx, ext + multiset(node.children))
    requires Coherent(h + [node], a + [note], mx, |h|, -1)
    ensures Sound(h + [node], a + [note], mx, ext + multiset{|h|})
  {
    var h1, a1 := h + [node], a + [note];
    ExactAppend(h, ext, node);
    forall x | 0 <= x < |h1| && h1[x].Node?
      ensures Coherent(h1, a1, mx, x, -1)
    {
      if x < |h| {
        assert Coherent(h, a, mx, x, -1);
        AppendCoherent(h, a, mx, x, node, note);
      }
    }
  }

  lemma AppendCoherent(h: Heap, a: Notes, mx: nat, x: Id, node: Node, note: Note)
    requires |h| == |a| && x < |h| && Coherent(h, a, mx, x, -1)
    ensures Coherent(h + [node], a + [note], mx, x, -1)
  {
    forall k | 0 <= k < |h[x].children|
      ensures KidOk(h, a, mx, h[x].children[k], a[x].level, -1)
    {
    }
    CoherentKept(h, a, h + [node], a + [note], mx, x, -1, -1);
  }

  /** A copy of a coherent node is coherent. */
  lemma CopyCoherent(h: Heap, a: Notes, mx: nat, c: Id)
    requires |h| == |a| && c < |h| && h[c].Node? && Coherent(h, a, mx, c, -1)
    ensures Coherent(h + [h[c].(rc := 0)], a + [a[c]], mx, |h|, -1)
  {
    var h1, a1 := h + [h[c].(rc := 0)], a + [a[c]];
    forall k | 0 <= k < |h[c].children|
      ensures KidOk(h1, a1, mx, h[c].children[k], a[c].level, -1)
      ensures h[c].children[k] < |a| && a[h[c].children[k]] == a1[h[c].children[k]]
    {
      assert KidOk(h, a, mx, h[c].children[k], a[c].level, -1);
    }
    PartsSame(a, a1, h[c].children);
  }

  /** The fresh copy of `c`, once its children have been counted. */
  lemma AppendCopySound(h0: Heap, h: Heap, a: Notes, mx: nat, ext: multiset<Id>, c: Id, node: Node)
    requires c < |h0| && h0[c].Node? && node == h0[c].(rc := 0)
    requires Counted(h0, h, node.children)
    requires Sound(h, a, mx, ext + multiset(node.children))
    ensures Sound(h + [node], a + [a[c]], mx, ext + multiset{|h|})
  {
    assert node == h[c].(rc := 0);
    CopyCoherent(h, a, mx, c);
    AppendSound(h, a, mx, ext, node, a[c]);
  }

  /** Child slot `i` of `n` trades the node `c` it held for an equal one held by the caller. */
  lemma SwapSlotSound(h: Heap, a: Notes, mx: nat, ext: multiset<Id>, n: Id, i: nat, c: Id, z: Id, n1: Node)
    requires n < |h| && h[n].Node? && i < |h[n].children| && c == h[n].children[i]
    requires n1.Node? && n1 == h[n].(children := n1.children) && n1.children == h[n].children[i := z]
    requires Sound(h, a, mx, ext + multiset{z}) && z < |h| && h[z].Node? && z != n
    requires c < |h| && h[c].Node? && a[z] == a[c] && |h[z].items| == |h[c].items|
    ensures Sound(h[n := n1], a, mx, ext + multiset{c})
  {
    var h1 := h[n := n1];
    SwapSlotExact(h, ext, n, i, c, z, n1);
    forall x | 0 <= x < |h1| && h1[x].Node?
      ensures Coherent(h1, a, mx, x, -1)
    {
      SwapSlotCoherent(h, a, mx, n, i, c, z, n1, x);
    }
  }

  lemma SwapSlotExact(h: Heap, ext: multiset<Id>, n: Id, i: nat, c: Id, z: Id, n1: Node)
    requires n < |h| && h[n].Node? && i < |h[n].children| && c == h[n].children[i]
    requires n1.Node? && n1.rc == h[n].rc && n1.children == h[n].children[i := z]
    requires Exact(h, ext + multiset{z})
    ensures Exact(h[n := n1], ext + multiset{c})
  {
    MultisetSwap(h[n].children, i, z);
    var e, e1, k, k1 := ext + multiset{z}, ext + multiset{c}, Kids(h[n]), Kids(n1);
    assert k1 + multiset{c} == k + multiset{z};
    forall x: Id
      ensures k1[x] + e1[x] == k[x] + e[x]
    {
      assert (k1 + multiset{c})[x] == (k + multiset{z})[x];
    }
    ExactUpdate(h, e, n, n1, e1);
  }

  lemma SwapSlotCoherent(h: Heap, a: Notes, mx: nat, n: Id, i: nat, c: Id, z: Id, n1: Node, x: Id)
    requires |h| == |a| && n < |h| && h[n].Node? && i < |h[n].children| && c == h[n].children[i]
    requires n1.Node? && n1 == h[n].(children := n1.children) && n1.children == h[n].children[i := z]
    requires z < |h| && h[z].Node? && z != n
    requires c < |h| && h[c].Node? && a[z] == a[c] && |h[z].items| == |h[c].items|
    requires x < |h| && h[x].Node? && Coherent(h, a, mx, x, -1) && Coherent(h, a, mx, n, -1)
    ensures Coherent(h[n := n1], a, mx, x, -1)
  {
    var h1 := h[n := n1];
    forall k | 0 <= k < |h[x].children|
      ensures KidOk(h1, a, mx, h[x].children[k], a[x].level, -1)
      ensures KidOk(h, a, mx, h[x].children[k], a[x].level, -1)
    {
      assert KidOk(h, a, mx, h[x].children[k], a[x].level, -1);
    }
    if x == n {
      assert KidOk(h, a, mx, h[n].children[i], a[n].level, -1);
      PartsSwap(a, h[n].children, i, z);
    } else {
      CoherentKept(h, a, h1, a, mx, x, -1, -1);
    }
  }

  /** Copying, swapping the slot and dropping the old reference amount to `Cowed`. */
  lemma CowedByCopy(h: Heap, a: Notes, h1: Heap, h3: Heap, a1: Notes, n: Id, i: nat)
    requires |h| == |a| && n < |h| && h[n].Node? && i < |h[n].children|
    requires forall k :: 0 <= k < |h[n].children| ==>
               h[n].children[k] < |a| && a[h[n].children[k]].level + 1 == a[n].level && h[h[n].children[k]].Node?
    requires forall k :: 0 <= k < |h[h[n].children[i]].children| ==>
               var d := h[h[n].children[i]].children[k];
               d < |a| && a[d].level + 1 == a[h[n].children[i]].level
    requires |h1| == |h| + 1 && a1 == a + [a[h[n].children[i]]]
    requires h1[|h|] == h[h[n].children[i]].(rc := 0)
    requires Counted(h, h1[..|h|], h[h[n].children[i]].children)
    requires Dropped(h1[n := h1[n].(children := h1[n].children[i := |h|])], h3, h[n].children[i])
    ensures Cowed(h, a, h3, a1, n, i)
  {
    var c := h[n].children[i];
    assert h1[..|h|][n] == h1[n] && h1[..|h|][c] == h1[c];
    assert n !in h[c].children && c !in h[c].children;
    assert h3[n] == h1[n].(children := h1[n].children[i := |h|]);
    forall x | 0 <= x < |h| && h[x].Node?
      ensures x != n ==> SameBody(h[x], h3[x])
      ensures x != n && x != c && a[x].level + 1 >= a[n].level ==> h3[x] == h[x]
    {
      assert h1[..|h|][x] == h1[x];
    }
  }

  lemma MultisetSwap(cs: seq<Id>, i: nat, z: Id)
    requires i < |cs|
    ensures multiset(cs[i := z]) + multiset{cs[i]} == multiset(cs) + multiset{z}
  {
    assert cs[i] in multiset(cs);
  }

  lemma PartsSwap(a: Notes, cs: seq<Id>, i: nat, z: Id)
    requires i < |cs| && cs[i] < |a| && z < |a| && a[z].cont == a[cs[i]].cont
    ensures Parts(a, cs[i := z]) == Parts(a, cs)
  {
    assert cs == cs[..i] + [cs[i]] + cs[i + 1..];
    assert cs[i := z] == cs[..i] + [z] + cs[i + 1..];
    PartsCut(a, cs[..i], z, cs[i + 1..]);
    PartsCut(a, cs[..i], cs[i], cs[i + 1..]);
  }
}
