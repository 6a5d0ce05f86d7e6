/** The shared node heap of a family of cloned B-trees, and what it means for it to be sound. */
module NodeHeap {
  import opened SortedItems
  import opened Weave

  type Id = nat

  /** An address never handed out again once freed. `rc` counts the references beyond the first. */
  datatype Node = Free | Node(rc: nat, leaf: bool, items: seq<Item>, children: seq<Id>)
  type Heap = seq<Node>

  /** What the proof remembers of each node: its distance from the leaves (a leaf has level 1)
      and the items below it, in order. */
  datatype Note = Note(level: nat, cont: seq<Item>)
  type Notes = seq<Note>

  function At(h: Heap, x: Id): Node { if x < |h| then h[x] else Free }

  // ----- reference counts

  ghost function Kids(n: Node): multiset<Id> {
    if n.Node? then multiset(n.children) else multiset{}
  }

  /** How many child slots of allocated nodes hold `x`. */
  ghost function InDeg(h: Heap, x: Id): nat {
    if h == [] then 0 else InDeg(h[..|h| - 1], x) + Kids(h[|h| - 1])[x]
  }

  /** Child slots plus outside references make up `rc + 1`; nothing refers to a freed address. */
  ghost predicate RefOk(h: Heap, ext: multiset<Id>, x: Id) {
    match At(h, x)
    case Free => InDeg(h, x) + ext[x] == 0
    case Node(rc, _, _, _) => InDeg(h, x) + ext[x] == rc + 1
  }

  ghost predicate Exact(h: Heap, ext: multiset<Id>) {
    forall x: Id {:trigger RefOk(h, ext, x)} :: RefOk(h, ext, x)
  }

  // ----- the shape and reading of one node

  ghost function Parts(a: Notes, cs: seq<Id>): (r: seq<seq<Item>>)
    ensures |r| == |cs|
    ensures forall k :: 0 <= k < |cs| && cs[k] < |a| ==> r[k] == a[cs[k]].cont
  {
    if cs == [] then []
    else Parts(a, cs[..|cs| - 1]) + [if cs[|cs| - 1] < |a| then a[cs[|cs| - 1]].cont else []]
  }

  /** A child slot: an allocated node one level down, at least half full unless it is `u`,
      the one child a deletion has left short. */
  ghost predicate KidOk(h: Heap, a: Notes, mx: nat, c: Id, lvl: nat, u: int)
    requires |h| == |a|
  {
    match At(h, c)
    case Free => false
    case Node(_, _, items, _) => a[c].level + 1 == lvl && (c == u || mx / 2 <= |items|)
  }

  /** The node fits its level: within capacity, a leaf exactly at level 1, one more child than
      items above it. */
  ghost predicate Shaped(h: Heap, a: Notes, mx: nat, x: Id, u: int)
    requires |h| == |a| && x < |h|
  {
    match h[x]
    case Free => false
    case Node(_, leaf, items, children) =>
      && |items| <= mx
      && 1 <= a[x].level
      && (leaf <==> a[x].level == 1)
      && |children| == (if leaf then 0 else |items| + 1)
      && forall k {:trigger KidOk(h, a, mx, children[k], a[x].level, u)} ::
           0 <= k < |children| ==> KidOk(h, a, mx, children[k], a[x].level, u)
  }

  /** The noted contents are what walking the node and its children reads. */
  ghost predicate Reads(n: Node, a: Notes, cont: seq<Item>) {
    match n
    case Free => false
    case Node(_, leaf, items, children) =>
      if leaf then cont == items
      else |children| == |items| + 1 && cont == WeaveAll(items, Parts(a, children))
  }

  ghost predicate Coherent(h: Heap, a: Notes, mx: nat, x: Id, u: int)
    requires |h| == |a| && x < |h|
  {
    match h[x]
    case Free => false
    case Node(_, _, _, _) => Shaped(h, a, mx, x, u) && Reads(h[x], a, a[x].cont) && Sorted(a[x].cont)
  }

  /** The normalised node capacity: odd and at least 3. */
  predicate Capacity(mx: nat) { 3 <= mx && mx % 2 == 1 }

  /** Everything is coherent except, possibly, the nodes that hold `n` in a child slot. */
  ghost predicate SoundBut(h: Heap, a: Notes, mx: nat, ext: multiset<Id>, n: int, u: int) {
    && |h| == |a|
    && Capacity(mx)
    && Exact(h, ext)
    && forall x {:trigger Coherent(h, a, mx, x, u)} ::
         0 <= x < |h| && h[x].Node? && (x == n || n !in h[x].children) ==> Coherent(h, a, mx, x, u)
  }

  ghost predicate Sound(h: Heap, a: Notes, mx: nat, ext: multiset<Id>) {
    && |h| == |a|
    && Capacity(mx)
    && Exact(h, ext)
    && forall x {:trigger Coherent(h, a, mx, x, -1)} ::
         0 <= x < |h| && h[x].Node? ==> Coherent(h, a, mx, x, -1)
  }

  // ----- what an operation on node n leaves alone

  ghost predicate SameBody(p: Node, q: Node) {
    p.Node? && q.Node? && p.leaf == q.leaf && p.items == q.items && p.children == q.children
  }

  ghost predicate Kept(h: Heap, a: Notes, h1: Heap, a1: Notes, ext: multiset<Id>, lvl: nat, x: Id)
    requires |h| == |a| <= |h1| == |a1| && x < |h|
  {
    match h[x]
    case Free => true
    case Node(_, _, _, _) =>
      && (a[x].level >= lvl ==> h1[x] == h[x] && a1[x] == a[x])
      && (ext[x] > 0 ==> SameBody(h[x], h1[x]) && a1[x] == a[x])
  }

  /** An operation on `n` may change `n` and nodes below it, but no other node of the same or a
      higher level, and no node that is referred to from outside the heap. */
  ghost predicate Frame(h: Heap, a: Notes, h1: Heap, a1: Notes, ext: multiset<Id>, n: Id) {
    && |h| == |a| <= |h1| == |a1|
    && n < |h| && h[n].Node? && h1[n].Node? && h1[n].rc == h[n].rc
    && h1[n].leaf == h[n].leaf && a1[n].level == a[n].level
    && forall x {:trigger Kept(h, a, h1, a1, ext, a[n].level, x)} ::
         0 <= x < |h| && x != n ==> Kept(h, a, h1, a1, ext, a[n].level, x)
  }

  // ----- what the memory operations do to the heap

  /** Nodes may have been freed or have lost references; nothing else happened. */
  ghost predicate Shrunk(h: Heap, h1: Heap) {
    |h| == |h1| && forall x :: 0 <= x < |h| ==>
      h1[x].Free? || (SameBody(h[x], h1[x]) && h1[x].rc <= h[x].rc)
  }

  /** One reference to `c` fewer. */
  ghost predicate Dropped(h: Heap, h1: Heap, c: Id)
    requires c < |h|
  {
    |h| == |h1| && SameBody(h[c], h1[c]) && h1[c].rc + 1 == h[c].rc
    && forall x :: 0 <= x < |h| && x != c ==> h1[x] == h[x]
  }

  /** Only counts of nodes in `cs` changed. */
  ghost predicate Counted(h: Heap, h1: Heap, cs: seq<Id>) {
    |h| == |h1| && forall x :: 0 <= x < |h| ==>
      (x !in cs ==> h1[x] == h[x]) && (h[x].Node? ==> SameBody(h[x], h1[x]))
  }

  /** Child slot `i` of `n` now holds an unshared node equal to the one it held before. */
  ghost predicate Cowed(h: Heap, a: Notes, h1: Heap, a1: Notes, n: Id, i: nat)
  {
    && |h| == |a| <= |h1| == |a1|
    && n < |h| && h[n].Node? && i < |h[n].children| && h[n].children[i] < |a|
    && h1[n].Node? && h1[n].rc == h[n].rc && h1[n].leaf == h[n].leaf && h1[n].items == h[n].items
    && |h1[n].children| == |h[n].children|
    && (forall j :: 0 <= j < |h[n].children| && j != i ==> h1[n].children[j] == h[n].children[j])
    && var c, z := h[n].children[i], h1[n].children[i];
    && h[c].Node? && z < |h1| && h1[z].Node? && h1[z].rc == 0 && h1[z].items == h[c].items && a1[z] == a[c]
    && (forall x :: 0 <= x < |h| && h[x].Node? ==>
          && a1[x] == a[x]
          && (x != n ==> SameBody(h[x], h1[x]))
          && (x != n && x != c && a[x].level + 1 >= a[n].level ==> h1[x] == h[x]))
  }
}
