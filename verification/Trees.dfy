/** The trees of a family: their roots, counters and contents on the shared heap. */
module Trees {
  import opened Keys
  import opened SortedItems
  import opened Weave
  import opened NodeHeap
  import opened NodeHeapLemmas
  import opened NodeSplits
  import opened NodeSets
  import opened NodeDeletes
  import opened NodeSteps

  /** The mutable part of a tree handle; a freed handle is `Gone`. */
  datatype Tree = Gone | Tree(root: Option<Id>, count: nat, height: nat, oom: bool)

  function RootOf(t: Tree): multiset<Id> {
    if t.Tree? && t.root.Some? then multiset{t.root.value} else multiset{}
  }

  /** The references the trees hold. */
  ghost function Roots(ts: seq<Tree>): multiset<Id> {
    if ts == [] then multiset{} else Roots(ts[..|ts| - 1]) + RootOf(ts[|ts| - 1])
  }

  lemma {:induction false} RootsSplit(ts: seq<Tree>, i: nat)
    requires i < |ts|
    ensures Roots(ts) == Roots(ts[i := Gone]) + RootOf(ts[i])
  {
    hide Roots;
    var m := |ts| - 1;
    var pre, last := ts[..m], ts[m];
    assert ts == pre + [last];
    RootsAppend(pre, last);
    if i == m {
      assert ts[i := Gone] == pre + [Gone];
      RootsAppend(pre, Gone);
    } else {
      RootsSplit(pre, i);
      var cut := pre[i := Gone];
      assert ts[i := Gone] == cut + [last];
      RootsAppend(cut, last);
      SwapLast(Roots(cut), RootOf(ts[i]), RootOf(last));
    }
  }

  lemma SwapLast(a: multiset<Id>, b: multiset<Id>, c: multiset<Id>)
    ensures (a + b) + c == (a + c) + b
  {
  }

  lemma RootsUpdate(ts: seq<Tree>, i: nat, t: Tree)
    requires i < |ts|
    ensures Roots(ts[i := t]) == Roots(ts[i := Gone]) + RootOf(t)
  {
    calc {
      Roots(ts[i := t]);
      { RootsSplit(ts[i := t], i); }
      Roots(ts[i := t][i := Gone]) + RootOf(t);
      { assert ts[i := t][i := Gone] == ts[i := Gone]; }
      Roots(ts[i := Gone]) + RootOf(t);
    }
  }

  lemma {:induction false} RootsAppend(ts: seq<Tree>, t: Tree)
    ensures Roots(ts + [t]) == Roots(ts) + RootOf(t)
  {
    assert (ts + [t])[..|ts|] == ts;
  }

  lemma {:induction false} RootHeld(ts: seq<Tree>, i: nat)
    requires i < |ts| && ts[i].Tree? && ts[i].root.Some?
    ensures Roots(ts)[ts[i].root.value] > 0
  {
    RootsSplit(ts, i);
  }

  lemma {:induction false} RootHeldTwice(ts: seq<Tree>, i: nat, j: nat)
    requires i < |ts| && j < |ts| && i != j && ts[i].Tree? && ts[i].root.Some? && ts[j] .Tree?
    requires ts[j].root == ts[i].root
    ensures Roots(ts)[ts[i].root.value] > 1
  {
    RootsSplit(ts, i);
    RootHeld(ts[i := Gone], j);
  }

  // ----- contents

  /** The in-order walk of a node of the given height. */
  ghost function Walk(h: Heap, x: Id, height: nat): seq<Item>
    decreases height, 0
  {
    match At(h, x)
    case Free => []
    case Node(_, leaf, items, children) =>
      if leaf then items
      else if height > 0 && |children| == |items| + 1 then WeaveAll(items, WalkAll(h, children, height - 1))
      else []
  }

  ghost function WalkAll(h: Heap, cs: seq<Id>, height: nat): (r: seq<seq<Item>>)
    ensures |r| == |cs|
    decreases height, 1, |cs|
  {
    if cs == [] then [] else WalkAll(h, cs[..|cs| - 1], height) + [Walk(h, cs[|cs| - 1], height)]
  }

  ghost predicate AllCoherent(h: Heap, a: Notes, mx: nat) {
    |h| == |a| && forall x {:trigger Coherent(h, a, mx, x, -1)} ::
      0 <= x < |h| && h[x].Node? ==> Coherent(h, a, mx, x, -1)
  }

  /** The noted contents are what the walk finds. */
  lemma {:induction false} WalkIsNoted(h: Heap, a: Notes, mx: nat, x: Id, height: nat)
    requires AllCoherent(h, a, mx) && x < |h| && h[x].Node? && a[x].level == height
    ensures Walk(h, x, height) == a[x].cont
    decreases height, 0
  {
    assert Coherent(h, a, mx, x, -1);
    assert Reads(h[x], a, a[x].cont);
    KidsBelow(h, a, mx, x);
    if !h[x].leaf {
      WalkAllNoted(h, a, mx, h[x].children, height - 1);
    }
  }

  lemma {:induction false} WalkAllNoted(h: Heap, a: Notes, mx: nat, cs: seq<Id>, height: nat)
    requires AllCoherent(h, a, mx)
    requires forall k :: 0 <= k < |cs| ==> cs[k] < |h| && h[cs[k]].Node? && a[cs[k]].level == height
    ensures WalkAll(h, cs, height) == Parts(a, cs)
    decreases height, 1, |cs|
  {
    if cs != [] {
      WalkAllNoted(h, a, mx, cs[..|cs| - 1], height);
      WalkIsNoted(h, a, mx, cs[|cs| - 1], height);
    }
  }

  ghost function View(t: Tree, h: Heap): seq<Item> {
    if t.Tree? && t.root.Some? then Walk(h, t.root.value, t.height) else []
  }

  ghost function Noting(t: Tree, a: Notes): seq<Item> {
    if t.Tree? && t.root.Some? && t.root.value < |a| then a[t.root.value].cont else []
  }

  // ----- soundness of a family

  ghost predicate TreeOk(t: Tree, h: Heap, a: Notes) {
    match t
    case Gone => true
    case Tree(None, count, height, _) => count == 0 && height == 0
    case Tree(Some(r), count, height, _) =>
      r < |h| && r < |a| && h[r].Node? && 0 < |h[r].items| && a[r].level == height && |a[r].cont| == count
  }

  ghost predicate FamilyOk(ts: seq<Tree>, h: Heap, a: Notes, mx: nat) {
    && Sound(h, a, mx, Roots(ts))
    && forall i {:trigger TreeOk(ts[i], h, a)} :: 0 <= i < |ts| ==> TreeOk(ts[i], h, a)
  }

  lemma ViewIsNoted(ts: seq<Tree>, h: Heap, a: Notes, mx: nat, i: nat)
    requires FamilyOk(ts, h, a, mx) && i < |ts|
    ensures View(ts[i], h) == Noting(ts[i], a)
    ensures Sorted(View(ts[i], h))
    ensures ts[i].Tree? ==> ts[i].count == |View(ts[i], h)|
  {
    assert TreeOk(ts[i], h, a);
    if ts[i].Tree? && ts[i].root.Some? {
      WalkIsNoted(h, a, mx, ts[i].root.value, ts[i].height);
      assert Coherent(h, a, mx, ts[i].root.value, -1);
    }
  }

  /** Every tree but `t` reads as before. */
  ghost predicate OthersKept(ts: seq<Tree>, h: Heap, ts1: seq<Tree>, h1: Heap, t: nat) {
    |ts| <= |ts1| && forall i {:trigger ts[i]} {:trigger ts1[i]} ::
      0 <= i < |ts| && i != t ==> ts1[i] == ts[i] && View(ts1[i], h1) == View(ts[i], h)
  }

  /** One tree changed its record from `ts[t]` to `t1`; the others did not notice. */
  lemma FamilyStep(ts: seq<Tree>, h: Heap, a: Notes, mx: nat, t: nat, t1: Tree, h1: Heap, a1: Notes)
    requires FamilyOk(ts, h, a, mx) && t < |ts|
    requires Sound(h1, a1, mx, Roots(ts[t := t1])) && TreeOk(t1, h1, a1)
    requires forall i :: 0 <= i < |ts| && i != t ==> TreeOk(ts[i], h1, a1) && Noting(ts[i], a1) == Noting(ts[i], a)
    ensures FamilyOk(ts[t := t1], h1, a1, mx)
    ensures OthersKept(ts, h, ts[t := t1], h1, t)
  {
    var ts1 := ts[t := t1];
    forall i | 0 <= i < |ts1|
      ensures TreeOk(ts1[i], h1, a1)
    {
    }
    forall i | 0 <= i < |ts| && i != t
      ensures View(ts1[i], h1) == View(ts[i], h)
    {
      ViewIsNoted(ts, h, a, mx, i);
      ViewIsNoted(ts1, h1, a1, mx, i);
    }
  }

  /** A private root is the root of one tree only. */
  lemma {:induction false} RootOfOne(ts: seq<Tree>, h: Heap, a: Notes, mx: nat, t: nat, n: Id)
    requires FamilyOk(ts, h, a, mx) && t < |ts| && ts[t].Tree? && ts[t].root == Some(n)
    requires n < |h| && h[n].Node? && h[n].rc == 0
    ensures Roots(ts)[n] == 1
    ensures forall q :: 0 <= q < |h| && h[q].Node? ==> n !in h[q].children
    ensures forall i :: 0 <= i < |ts| && i != t && ts[i].Tree? ==> ts[i].root != Some(n)
  {
    RootHeld(ts, t);
    SoleRoot(h, Roots(ts), n);
    forall i | 0 <= i < |ts| && i != t && ts[i].Tree?
      ensures ts[i].root != Some(n)
    {
      if ts[i].root == Some(n) {
        RootHeldTwice(ts, t, i);
      }
    }
  }

  /** An operation on the private root of one tree leaves the others as they were. */
  lemma {:induction false} RootFramed(ts: seq<Tree>, h: Heap, a: Notes, h1: Heap, a1: Notes, mx: nat, t: nat, n: Id)
    requires FamilyOk(ts, h, a, mx) && t < |ts| && ts[t].Tree? && ts[t].root == Some(n)
    requires n < |h| && h[n].Node? && h[n].rc == 0 && Frame(h, a, h1, a1, Roots(ts), n)
    ensures forall i :: 0 <= i < |ts| && i != t ==> TreeOk(ts[i], h1, a1) && Noting(ts[i], a1) == Noting(ts[i], a)
  {
    RootOfOne(ts, h, a, mx, t, n);
    forall i | 0 <= i < |ts| && i != t
      ensures TreeOk(ts[i], h1, a1) && Noting(ts[i], a1) == Noting(ts[i], a)
    {
      assert TreeOk(ts[i], h, a);
      if ts[i].Tree? && ts[i].root.Some? {
        RootHeld(ts, i);
        assert Kept(h, a, h1, a1, Roots(ts), a[n].level, ts[i].root.value);
      }
    }
  }

  /** Nobody holds a private root in a child slot, so nothing is out of step. */
  lemma RootSound(h: Heap, a: Notes, mx: nat, ext: multiset<Id>, n: Id)
    requires SoundBut(h, a, mx, ext, n, -1) && n < |h| && h[n].Node? && h[n].rc == 0 && ext[n] > 0
    ensures Sound(h, a, mx, ext)
  {
    SoleRoot(h, ext, n);
    forall x | 0 <= x < |h| && h[x].Node?
      ensures Coherent(h, a, mx, x, -1)
    {
    }
  }

  /** An operation on the private root of `t`, its record updated to match. */
  lemma {:induction false} RootStep(ts: seq<Tree>, h: Heap, a: Notes, h1: Heap, a1: Notes, mx: nat, t: nat, n: Id, t1: Tree)
    requires FamilyOk(ts, h, a, mx) && t < |ts| && ts[t].Tree? && ts[t].root == Some(n)
    requires n < |h| && h[n].Node? && h[n].rc == 0 && Frame(h, a, h1, a1, Roots(ts), n)
    requires SoundBut(h1, a1, mx, Roots(ts), n, -1)
    requires t1.Tree? && t1.root == Some(n) && t1.height == ts[t].height
    requires 0 < |h1[n].items| && |a1[n].cont| == t1.count
    ensures FamilyOk(ts[t := t1], h1, a1, mx) && OthersKept(ts, h, ts[t := t1], h1, t)
    ensures View(t1, h1) == a1[n].cont && View(ts[t], h) == a[n].cont
  {
    assert TreeOk(ts[t], h, a);
    RootOfOne(ts, h, a, mx, t, n);
    RootSound(h1, a1, mx, Roots(ts), n);
    RootFramed(ts, h, a, h1, a1, mx, t, n);
    RootsUpdate(ts, t, t1);
    RootsSplit(ts, t);
    FamilyStep(ts, h, a, mx, t, t1, h1, a1);
    ViewIsNoted(ts, h, a, mx, t);
    ViewIsNoted(ts[t := t1], h1, a1, mx, t);
  }

  /** Nothing a user of the family can see has changed, though `t` may sit on other nodes. */
  ghost predicate Quiet(ts: seq<Tree>, h: Heap, ts1: seq<Tree>, h1: Heap, t: nat) {
    && |ts1| == |ts| && t < |ts| && ts[t].Tree? && ts1[t].Tree?
    && OthersKept(ts, h, ts1, h1, t)
    && View(ts1[t], h1) == View(ts[t], h) && ts1[t].count == ts[t].count
  }

  // ----- an empty tree takes its first item

  lemma FirstSound(ts: seq<Tree>, h: Heap, a: Notes, mx: nat, t: nat, it: Item, t1: Tree, node: Node, note: Note)
    requires FamilyOk(ts, h, a, mx) && t < |ts| && ts[t].Tree? && ts[t].root == None
    requires t1.Tree? && t1.root == Some(|h|) && node == Node(0, true, [it], []) && note == Note(1, [it])
    ensures Sound(h + [node], a + [note], mx, Roots(ts[t := t1]))
  {
    var h1, a1 := h + [node], a + [note];
    assert Reads(node, a1, [it]);
    assert Shaped(h1, a1, mx, |h|, -1);
    NoKids(Roots(ts), node);
    AppendSound(h, a, mx, Roots(ts), node, note);
    RootsUpdate(ts, t, t1);
    RootsSplit(ts, t);
    NoKids(Roots(ts[t := Gone]), node);
  }

  lemma NoKids(ext: multiset<Id>, node: Node)
    requires node.Node? && node.children == []
    ensures ext + multiset(node.children) == ext && ext + multiset{} == ext
  {
  }

  lemma FirstStep(ts: seq<Tree>, h: Heap, a: Notes, mx: nat, t: nat, it: Item, t1: Tree)
    requires FamilyOk(ts, h, a, mx) && t < |ts| && ts[t].Tree? && ts[t].root == None
    requires t1.Tree? && t1.root == Some(|h|) && t1.count == 1 && t1.height == 1
    ensures var h1, a1 := h + [Node(0, true, [it], [])], a + [Note(1, [it])];
            FamilyOk(ts[t := t1], h1, a1, mx) && OthersKept(ts, h, ts[t := t1], h1, t)
            && View(t1, h1) == [it] && View(ts[t], h) == []
  {
    var node, note := Node(0, true, [it], []), Note(1, [it]);
    var h1, a1 := h + [node], a + [note];
    FirstSound(ts, h, a, mx, t, it, t1, node, note);
    forall i | 0 <= i < |ts| && i != t
      ensures TreeOk(ts[i], h1, a1) && Noting(ts[i], a1) == Noting(ts[i], a)
    {
      assert TreeOk(ts[i], h, a);
    }
    FamilyStep(ts, h, a, mx, t, t1, h1, a1);
    ViewIsNoted(ts[t := t1], h1, a1, mx, t);
  }

  lemma UpsertEmpty(it: Item)
    ensures Upsert([], it) == [it] && Lookup([], it.key) == None
  {
  }

  // ----- a shared root is replaced by its copy

  lemma CowRootStep(ts: seq<Tree>, h: Heap, a: Notes, h1: Heap, h2: Heap, mx: nat, t: nat, r: Id, t1: Tree)
    requires FamilyOk(ts, h, a, mx) && t < |ts| && ts[t].Tree? && ts[t].root == Some(r)
    requires t1 == ts[t].(root := Some(|h|))
    requires r < |h| && h[r].Node? && |h1| == |h| + 1 && h1[|h|] == h[r].(rc := 0)
    requires Counted(h, h1[..|h|], h[r].children) && Dropped(h1, h2, r)
    requires Sound(h2, a + [a[r]], mx, Roots(ts[t := t1]))
    ensures FamilyOk(ts[t := t1], h2, a + [a[r]], mx) && Quiet(ts, h, ts[t := t1], h2, t)
    ensures h2[|h|] == h[r].(rc := 0) && PrivateRoot(t1, h2, true)
  {
    var a1 := a + [a[r]];
    assert TreeOk(ts[t], h, a);
    forall i | 0 <= i < |ts| && i != t
      ensures TreeOk(ts[i], h2, a1) && Noting(ts[i], a1) == Noting(ts[i], a)
    {
      assert TreeOk(ts[i], h, a);
      if ts[i].Tree? && ts[i].root.Some? {
        assert h1[..|h|][ts[i].root.value] == h1[ts[i].root.value];
      }
    }
    FamilyStep(ts, h, a, mx, t, t1, h2, a1);
    ViewIsNoted(ts, h, a, mx, t);
    ViewIsNoted(ts[t := t1], h2, a1, mx, t);
  }

  // ----- a full root is split below a new root

  lemma {:induction false} GrowStep(ts: seq<Tree>, h: Heap, a: Notes, h1: Heap, a1: Notes, mx: nat, t: nat, n: Id, med: Item,
                 w: Node, t1: Tree, key: Key)
    requires FamilyOk(ts, h, a, mx) && t < |ts| && ts[t].Tree? && ts[t].root == Some(n)
    requires n < |h| && h[n].Node? && h[n].rc == 0
    requires SplitInto(h, a, h1, a1, mx, Roots(ts), n, med)
    requires w == Node(0, false, [med], [n, |h|])
    requires t1 == ts[t].(root := Some(|h1|), height := ts[t].height + 1)
    ensures var h2, a2 := h1 + [w], a1 + [Note(a[n].level + 1, a[n].cont)];
            FamilyOk(ts[t := t1], h2, a2, mx) && Quiet(ts, h, ts[t := t1], h2, t)
            && !MeetsFull(h2, |h1|, key, mx)
  {
    hide Roots;
    var h2, a2 := h1 + [w], a1 + [Note(a[n].level + 1, a[n].cont)];
    assert TreeOk(ts[t], h, a);
    assert Coherent(h, a, mx, n, -1);
    RootOfOne(ts, h, a, mx, t, n);
    GrowSound(ts, h, a, h1, a1, mx, t, n, med, w, t1);
    forall i | 0 <= i < |ts| && i != t
      ensures TreeOk(ts[i], h2, a2) && Noting(ts[i], a2) == Noting(ts[i], a)
    {
      assert TreeOk(ts[i], h, a);
    }
    FamilyStep(ts, h, a, mx, t, t1, h2, a2);
    ViewIsNoted(ts, h, a, mx, t);
    ViewIsNoted(ts[t := t1], h2, a2, mx, t);
  }

  lemma GrowSound(ts: seq<Tree>, h: Heap, a: Notes, h1: Heap, a1: Notes, mx: nat, t: nat, n: Id, med: Item,
                  w: Node, t1: Tree)
    requires FamilyOk(ts, h, a, mx) && t < |ts| && ts[t].Tree? && ts[t].root == Some(n)
    requires n < |h| && h[n].Node? && h[n].rc == 0 && Coherent(h, a, mx, n, -1)
    requires SplitInto(h, a, h1, a1, mx, Roots(ts), n, med)
    requires w == Node(0, false, [med], [n, |h|])
    requires t1 == ts[t].(root := Some(|h1|), height := ts[t].height + 1)
    ensures Sound(h1 + [w], a1 + [Note(a[n].level + 1, a[n].cont)], mx, Roots(ts[t := t1]))
  {
    var z, note, rest := |h|, Note(a[n].level + 1, a[n].cont), Roots(ts[t := Gone]);
    RootsSplit(ts, t);
    RootsUpdate(ts, t, t1);
    RootHeld(ts, t);
    RootSound(h1, a1, mx, Roots(ts) + multiset{z}, n);
    TwoKids(rest, n, z);
    GrowCoherent(h1, a1, mx, n, z, med, w, note);
    AppendSound(h1, a1, mx, rest, w, note);
  }

  lemma TwoKids(rest: multiset<Id>, n: Id, z: Id)
    ensures rest + multiset{n} + multiset{z} == rest + multiset([n, z])
  {
  }

  lemma GrowCoherent(h1: Heap, a1: Notes, mx: nat, n: Id, z: Id, med: Item, w: Node, note: Note)
    requires |h1| == |a1| && Capacity(mx) && n < |h1| && z < |h1| && h1[n].Node? && h1[z].Node?
    requires |h1[n].items| == mx / 2 && |h1[z].items| == mx / 2 && a1[z].level == a1[n].level
    requires w == Node(0, false, [med], [n, z]) && 1 <= a1[n].level
    requires note == Note(a1[n].level + 1, a1[n].cont + [med] + a1[z].cont) && Sorted(note.cont)
    ensures Coherent(h1 + [w], a1 + [note], mx, |h1|, -1)
  {
    var h2, a2 := h1 + [w], a1 + [note];
    PartsCutTwo(a2, [], n, z, []);
    assert [] + [n, z] + [] == [n, z];
    var parts := Parts(a2, [n, z]);
    assert parts == [a1[n].cont, a1[z].cont];
    CutFirst([med], parts);
    assert Paz([med], parts[1..]) == [med] + a1[z].cont;
    assert Reads(w, a2, note.cont);
    assert KidOk(h2, a2, mx, n, note.level, -1) && KidOk(h2, a2, mx, z, note.level, -1);
    assert Shaped(h2, a2, mx, |h1|, -1);
  }

  // ----- after a deletion

  /** A root left without items hands its place to its only child. */
  lemma {:induction false} CollapseStep(ts: seq<Tree>, h: Heap, a: Notes, h1: Heap, a1: Notes, mx: nat, t: nat, n: Id, t1: Tree)
    requires FamilyOk(ts, h, a, mx) && t < |ts| && ts[t].Tree? && ts[t].root == Some(n)
    requires n < |h| && h[n].Node? && h[n].rc == 0 && Frame(h, a, h1, a1, Roots(ts), n)
    requires SoundBut(h1, a1, mx, Roots(ts), n, -1) && |h1[n].items| == 0
    requires t1.Tree? && t1.root == (if h1[n].leaf then None else Some(ChildAt(h1[n], 0)))
    requires t1.height + 1 == ts[t].height && t1.count == |a1[n].cont|
    ensures FamilyOk(ts[t := t1], h1[n := Free], a1, mx)
    ensures OthersKept(ts, h, ts[t := t1], h1[n := Free], t)
    ensures View(t1, h1[n := Free]) == a1[n].cont && View(ts[t], h) == a[n].cont
  {
    var h2 := h1[n := Free];
    assert TreeOk(ts[t], h, a);
    RootOfOne(ts, h, a, mx, t, n);
    RootFramed(ts, h, a, h1, a1, mx, t, n);
    CollapseSound(ts, h1, a1, mx, t, n, t1);
    forall i | 0 <= i < |ts| && i != t
      ensures TreeOk(ts[i], h2, a1) && Noting(ts[i], a1) == Noting(ts[i], a)
    {
      assert TreeOk(ts[i], h1, a1);
    }
    FamilyStep(ts, h, a, mx, t, t1, h2, a1);
    ViewIsNoted(ts, h, a, mx, t);
    ViewIsNoted(ts[t := t1], h2, a1, mx, t);
  }

  lemma CollapseSound(ts: seq<Tree>, h1: Heap, a1: Notes, mx: nat, t: nat, n: Id, t1: Tree)
    requires t < |ts| && ts[t].Tree? && ts[t].root == Some(n)
    requires n < |h1| && h1[n].Node? && h1[n].rc == 0 && |h1[n].items| == 0
    requires SoundBut(h1, a1, mx, Roots(ts), n, -1) && Roots(ts)[n] == 1
    requires t1.Tree? && t1.root == (if h1[n].leaf then None else Some(ChildAt(h1[n], 0)))
    requires t1.height + 1 == a1[n].level && t1.count == |a1[n].cont|
    ensures Sound(h1[n := Free], a1, mx, Roots(ts[t := t1]))
    ensures TreeOk(t1, h1[n := Free], a1) && Noting(t1, a1) == a1[n].cont
  {
    hide Roots;
    RootSound(h1, a1, mx, Roots(ts), n);
    assert Coherent(h1, a1, mx, n, -1);
    EmptyRoot(h1, a1, mx, n);
    RootsUpdate(ts, t, t1);
    RootsSplit(ts, t);
    assert Kids(h1[n]) == RootOf(t1);
    FreeSound(h1, a1, mx, Roots(ts[t := Gone]), n, Roots(ts[t := t1]));
  }

  function ChildAt(n: Node, i: nat): Id {
    if n.Node? && i < |n.children| then n.children[i] else 0
  }

  lemma EmptyRoot(h: Heap, a: Notes, mx: nat, n: Id)
    requires |h| == |a| && Capacity(mx) && n < |h| && Coherent(h, a, mx, n, -1) && n < |h| && h[n].Node? && |h[n].items| == 0
    ensures h[n].leaf ==> h[n].children == [] && a[n].cont == [] && a[n].level == 1
    ensures !h[n].leaf ==> h[n].children == [ChildAt(h[n], 0)]
    ensures !h[n].leaf ==>
      var c := ChildAt(h[n], 0);
      c < |h| && c != n && h[c].Node? && 0 < |h[c].items| && a[c].level + 1 == a[n].level && a[n].cont == a[c].cont
  {
    assert Reads(h[n], a, a[n].cont);
    KidsBelow(h, a, mx, n);
    if !h[n].leaf {
      assert KidOk(h, a, mx, h[n].children[0], a[n].level, -1);
    }
  }

  // ----- clearing, cloning and creating

  /** Freeing what only one tree reached leaves the other trees whole. */
  lemma ClearStep(ts: seq<Tree>, h: Heap, a: Notes, h1: Heap, mx: nat, t: nat, t1: Tree)
    requires FamilyOk(ts, h, a, mx) && t < |ts| && RootOf(t1) == multiset{}
    requires t1.Tree? ==> t1.count == 0 && t1.height == 0
    requires Sound(h1, a, mx, Roots(ts[t := Gone])) && Shrunk(h, h1)
    ensures FamilyOk(ts[t := t1], h1, a, mx) && OthersKept(ts, h, ts[t := t1], h1, t)
    ensures View(t1, h1) == []
  {
    RootsUpdate(ts, t, t1);
    NoRoot(ts[t := Gone], t1);
    forall i | 0 <= i < |ts| && i != t
      ensures TreeOk(ts[i], h1, a) && Noting(ts[i], a) == Noting(ts[i], a)
    {
      assert TreeOk(ts[i], h, a);
      if ts[i].Tree? && ts[i].root.Some? {
        RootHeld(ts[t := Gone], i);
        HeldIsLive(h1, Roots(ts[t := Gone]), ts[i].root.value);
      }
    }
    FamilyStep(ts, h, a, mx, t, t1, h1, a);
  }

  lemma NoRoot(ts: seq<Tree>, t: Tree)
    requires RootOf(t) == multiset{}
    ensures Roots(ts) + RootOf(t) == Roots(ts)
  {
  }

  lemma TreeOkBody(t: Tree, h: Heap, h1: Heap, a: Notes)
    requires |h1| == |h| && TreeOk(t, h, a)
    requires forall x :: 0 <= x < |h| && h[x].Node? ==> SameBody(h[x], h1[x])
    ensures TreeOk(t, h1, a)
  {
  }

  /** One more handle; nothing else changes but a count. */
  lemma {:induction false} AppendStep(ts: seq<Tree>, h: Heap, a: Notes, h1: Heap, mx: nat, t1: Tree)
    requires FamilyOk(ts, h, a, mx) && |h1| == |h|
    requires forall x :: 0 <= x < |h| && h[x].Node? ==> SameBody(h[x], h1[x])
    requires Sound(h1, a, mx, Roots(ts) + RootOf(t1)) && TreeOk(t1, h, a)
    ensures FamilyOk(ts + [t1], h1, a, mx) && OthersKept(ts, h, ts + [t1], h1, |ts|)
    ensures View(t1, h1) == Noting(t1, a)
  {
    var ts1 := ts + [t1];
    RootsAppend(ts, t1);
    forall i | 0 <= i < |ts1|
      ensures TreeOk(ts1[i], h1, a)
    {
      assert i < |ts| ==> TreeOk(ts[i], h, a);
      TreeOkBody(ts1[i], h, h1, a);
    }
    assert FamilyOk(ts1, h1, a, mx);
    forall i | 0 <= i < |ts|
      ensures ts1[i] == ts[i] && View(ts1[i], h1) == View(ts[i], h)
    {
      ViewIsNoted(ts, h, a, mx, i);
      ViewIsNoted(ts1, h1, a, mx, i);
    }
    ViewIsNoted(ts1, h1, a, mx, |ts|);
  }

  /** The reference of tree `t`, apart from those of the other trees. */
  lemma RootApart(ts: seq<Tree>, h: Heap, a: Notes, mx: nat, t: nat)
    requires FamilyOk(ts, h, a, mx) && t < |ts| && ts[t].Tree?
    ensures ts[t].root.Some? ==> ts[t].root.value < |a|
                                 && Sound(h, a, mx, Roots(ts[t := Gone]) + multiset{ts[t].root.value})
    ensures ts[t].root.None? ==> Sound(h, a, mx, Roots(ts[t := Gone]))
  {
    assert TreeOk(ts[t], h, a);
    RootsSplit(ts, t);
    if ts[t].root.None? {
      NoRoot(ts[t := Gone], ts[t]);
    }
  }

  lemma QuietTrans(ts: seq<Tree>, h: Heap, ts1: seq<Tree>, h1: Heap, ts2: seq<Tree>, h2: Heap, t: nat)
    requires Quiet(ts, h, ts1, h1, t) && Quiet(ts1, h1, ts2, h2, t)
    ensures Quiet(ts, h, ts2, h2, t)
  {
  }

  lemma OthersTrans(ts: seq<Tree>, h: Heap, ts1: seq<Tree>, h1: Heap, ts2: seq<Tree>, h2: Heap, t: nat)
    requires OthersKept(ts, h, ts1, h1, t) && OthersKept(ts1, h1, ts2, h2, t)
    ensures OthersKept(ts, h, ts2, h2, t)
  {
  }

  /** Only the out-of-memory flag changed. */
  lemma FlagStep(ts: seq<Tree>, h: Heap, a: Notes, mx: nat, t: nat, oom: bool)
    requires FamilyOk(ts, h, a, mx) && t < |ts| && ts[t].Tree?
    ensures FamilyOk(ts[t := ts[t].(oom := oom)], h, a, mx) && Quiet(ts, h, ts[t := ts[t].(oom := oom)], h, t)
  {
    var t1 := ts[t].(oom := oom);
    RootsUpdate(ts, t, t1);
    RootsSplit(ts, t);
    assert TreeOk(ts[t], h, a);
    forall i | 0 <= i < |ts| && i != t
      ensures TreeOk(ts[i], h, a) && Noting(ts[i], a) == Noting(ts[i], a)
    {
      assert TreeOk(ts[i], h, a);
    }
    FamilyStep(ts, h, a, mx, t, t1, h, a);
  }

  // ----- setting and deleting at the root

  /** The tree has a root; if `private`, no other tree or node shares it. */
  ghost predicate PrivateRoot(t: Tree, h: Heap, private: bool) {
    match t
    case Gone => false
    case Tree(None, _, _, _) => false
    case Tree(Some(r), _, _, _) => r < |h| && h[r].Node? && (private ==> h[r].rc == 0)
  }

  /** What a sound family says of a root. */
  lemma RootLive(ts: seq<Tree>, h: Heap, a: Notes, mx: nat, t: nat, r: Id)
    requires FamilyOk(ts, h, a, mx) && t < |ts| && ts[t].Tree? && ts[t].root == Some(r)
    ensures Sound(h, a, mx, Roots(ts)) && |h| == |a| && r < |h| && h[r].Node? && 0 < |h[r].items|
    ensures forall k :: 0 <= k < |h[r].children| ==> h[r].children[k] < |h| && h[h[r].children[k]].Node?
    ensures r !in h[r].children
    ensures Quiet(ts, h, ts, h, t) && PrivateRoot(ts[t], h, h[r].rc == 0)
  {
    assert TreeOk(ts[t], h, a) && Coherent(h, a, mx, r, -1);
    KidsBelow(h, a, mx, r);
  }

  lemma RootReplaced(ts: seq<Tree>, t: nat, r: Id, z: Id)
    requires t < |ts| && ts[t].Tree? && ts[t].root == Some(r)
    ensures Roots(ts) + multiset{z} == Roots(ts[t := ts[t].(root := Some(z))]) + multiset{r}
  {
    var t1 := ts[t].(root := Some(z));
    RootsSplit(ts, t);
    RootsUpdate(ts, t, t1);
    SwapLast(Roots(ts[t := Gone]), multiset{r}, multiset{z});
  }

  /** Tree `t` took the item and returned the one it replaced. */
  ghost predicate SetShown(ts: seq<Tree>, h: Heap, ts1: seq<Tree>, h1: Heap, t: nat, it: Item, prev: Option<Item>) {
    && |ts1| == |ts| && t < |ts| && ts1[t].Tree? && OthersKept(ts, h, ts1, h1, t)
    && View(ts1[t], h1) == Upsert(View(ts[t], h), it)
    && prev == Lookup(View(ts[t], h), it.key)
  }

  lemma UpsertCount(s: seq<Item>, it: Item)
    ensures |Upsert(s, it)| == |s| + if Lookup(s, it.key) == None then 1 else 0
  {
  }

  lemma {:induction false} SetCounted(ts: seq<Tree>, h: Heap, a: Notes, h1: Heap, a1: Notes, mx: nat, t: nat, n: Id, it: Item,
                   res: MutResult, prev: Option<Item>, t1: Tree)
    requires FamilyOk(ts, h, a, mx) && t < |ts| && ts[t].Tree? && ts[t].root == Some(n)
    requires n < |h| && h[n].Node? && h[n].rc == 0 && Frame(h, a, h1, a1, Roots(ts), n)
    requires SetDone(h, a, h1, a1, mx, Roots(ts), n, it, res, prev)
    requires t1 == if res.Inserted? then ts[t].(count := ts[t].count + 1) else ts[t]
    ensures FamilyOk(ts[t := t1], h1, a1, mx)
    ensures res.NoMem? || res.MustSplit? ==> Quiet(ts, h, ts[t := t1], h1, t)
    ensures !res.NoMem? && !res.MustSplit? ==> SetShown(ts, h, ts[t := t1], h1, t, it, prev)
  {
    assert TreeOk(ts[t], h, a);
    UpsertCount(a[n].cont, it);
    if res.NoMem? || res.MustSplit? {
      SoundHere(h1, a1, mx, Roots(ts), n);
    }
    RootStep(ts, h, a, h1, a1, mx, t, n, t1);
  }

  lemma SoundHere(h: Heap, a: Notes, mx: nat, ext: multiset<Id>, n: Id)
    requires Sound(h, a, mx, ext)
    ensures SoundBut(h, a, mx, ext, n, -1)
  {
  }

  /** How often the root may still have to be split before the item fits. */
  ghost function RootSplits(t: Tree, h: Heap, key: Key, mx: nat): nat {
    match t
    case Gone => 0
    case Tree(None, _, _, _) => 0
    case Tree(Some(r), _, _, _) => if At(h, r).Node? && (h[r].leaf || MeetsFull(h, r, key, mx)) then 1 else 0
  }

  lemma SetAfterQuiet(ts: seq<Tree>, h: Heap, ts1: seq<Tree>, h1: Heap, ts2: seq<Tree>, h2: Heap, t: nat,
                      it: Item, prev: Option<Item>, res: MutResult)
    requires Quiet(ts, h, ts1, h1, t)
    requires res.NoMem? || res.MustSplit? ==> Quiet(ts1, h1, ts2, h2, t)
    requires !res.NoMem? && !res.MustSplit? ==> SetShown(ts1, h1, ts2, h2, t, it, prev)
    ensures res.NoMem? || res.MustSplit? ==> Quiet(ts, h, ts2, h2, t)
    ensures !res.NoMem? && !res.MustSplit? ==> SetShown(ts, h, ts2, h2, t, it, prev)
  {
  }

  /** The target of the action is gone and returned; without a target nothing happens. */
  ghost predicate Taken(s: seq<Item>, act: DelAct, key: Key, s1: seq<Item>, prev: Option<Item>) {
    match Target(act, key, s)
    case None => s1 == s && prev == None
    case Some(j) => j < |s| && s1 == RemoveAt(s, j) && prev == Some(s[j])
  }

  ghost predicate DelShown(ts: seq<Tree>, h: Heap, ts1: seq<Tree>, h1: Heap, t: nat, act: DelAct, key: Key,
                           prev: Option<Item>)
  {
    && |ts1| == |ts| && t < |ts| && ts1[t].Tree? && OthersKept(ts, h, ts1, h1, t)
    && Taken(View(ts[t], h), act, key, View(ts1[t], h1), prev)
  }

  lemma DelAfterQuiet(ts: seq<Tree>, h: Heap, ts1: seq<Tree>, h1: Heap, ts2: seq<Tree>, h2: Heap, t: nat,
                      act: DelAct, key: Key, prev: Option<Item>)
    requires Quiet(ts, h, ts1, h1, t) && DelShown(ts1, h1, ts2, h2, t, act, key, prev)
    ensures DelShown(ts, h, ts2, h2, t, act, key, prev)
  {
  }

  /** The record of a tree after its private root gave up an item. */
  function AfterDelete(t: Tree, root: Node): Tree
    requires t.Tree?
  {
    var count := if t.count > 0 then t.count - 1 else 0;
    if root.Node? && |root.items| == 0 then
      Tree(if root.leaf then None else Some(ChildAt(root, 0)), count, if t.height > 0 then t.height - 1 else 0, t.oom)
    else
      t.(count := count)
  }

  lemma {:induction false} DelCounted(ts: seq<Tree>, h: Heap, a: Notes, h1: Heap, a1: Notes, mx: nat, t: nat, n: Id,
                   act: DelAct, key: Key, prev: Option<Item>, t1: Tree, h2: Heap)
    requires FamilyOk(ts, h, a, mx) && t < |ts| && ts[t].Tree? && ts[t].root == Some(n)
    requires n < |h| && h[n].Node? && h[n].rc == 0 && Frame(h, a, h1, a1, Roots(ts), n)
    requires DelDone(h, a, h1, a1, mx, Roots(ts), n, act, key, Deleted, prev)
    requires t1 == AfterDelete(ts[t], h1[n])
    requires h2 == if |h1[n].items| == 0 then h1[n := Free] else h1
    ensures FamilyOk(ts[t := t1], h2, a1, mx) && DelShown(ts, h, ts[t := t1], h2, t, act, key, prev)
  {
    assert TreeOk(ts[t], h, a);
    assert |a1[n].cont| + 1 == |a[n].cont|;
    assert Coherent(h, a, mx, n, -1);
    LevelPositive(h, a, mx, n);
    if |h1[n].items| == 0 {
      CollapseStep(ts, h, a, h1, a1, mx, t, n, t1);
    } else {
      RootStep(ts, h, a, h1, a1, mx, t, n, t1);
    }
  }

  lemma LevelPositive(h: Heap, a: Notes, mx: nat, n: Id)
    requires |h| == |a| && n < |h| && Coherent(h, a, mx, n, -1)
    ensures a[n].level >= 1
  {
  }

  lemma {:induction false} DelNothing(ts: seq<Tree>, h: Heap, a: Notes, h1: Heap, a1: Notes, mx: nat, t: nat, n: Id,
                   act: DelAct, key: Key, res: MutResult)
    requires FamilyOk(ts, h, a, mx) && t < |ts| && ts[t].Tree? && ts[t].root == Some(n)
    requires n < |h| && h[n].Node? && h[n].rc == 0 && Frame(h, a, h1, a1, Roots(ts), n)
    requires DelDone(h, a, h1, a1, mx, Roots(ts), n, act, key, res, None) && !res.Deleted?
    ensures FamilyOk(ts, h1, a1, mx) && Quiet(ts, h, ts, h1, t)
    ensures res.NoChange? ==> DelShown(ts, h, ts, h1, t, act, key, None)
  {
    assert TreeOk(ts[t], h, a);
    SoundHere(h1, a1, mx, Roots(ts), n);
    RootStep(ts, h, a, h1, a1, mx, t, n, ts[t]);
    assert ts[t := ts[t]] == ts;
  }

  lemma TakenEmpty(act: DelAct, key: Key)
    ensures Taken([], act, key, [], None)
  {
  }
}
