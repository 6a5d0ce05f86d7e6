/** The contract of the recursive deletion, and how a node's result follows from its child's. */
module NodeDeletes {
  import opened Keys
  import opened SortedItems
  import opened Weave
  import opened NodeHeap
  import opened NodeHeapLemmas
  import opened NodeReading
  import opened NodeWrites
  import opened NodeSets
  import opened NodeRebalance

  datatype DelAct = DelKey | PopFront | PopBack | PopMax

  /** Which item of a reading the action takes out. */
  ghost function Target(act: DelAct, key: Key, s: seq<Item>): Option<nat> {
    match act
    case DelKey => if Has(s, key) then Some(Rank(s, key)) else None
    case PopFront => if s == [] then None else Some(0)
    case PopBack => if s == [] then None else Some(|s| - 1)
    case PopMax => if s == [] then None else Some(|s| - 1)
  }

  /** Exactly the target is gone and is returned. */
  ghost predicate TookOut(s: seq<Item>, act: DelAct, key: Key, s1: seq<Item>, prev: Option<Item>) {
    match Target(act, key, s)
    case None => false
    case Some(j) => j < |s| && prev == Some(s[j]) && s1 == RemoveAt(s, j)
  }

  ghost predicate DelDone(h: Heap, a: Notes, h1: Heap, a1: Notes, mx: nat, ext: multiset<Id>, n: Id,
                          act: DelAct, key: Key, res: MutResult, prev: Option<Item>)
    requires Frame(h, a, h1, a1, ext, n)
  {
    match res
    case Deleted =>
      SoundBut(h1, a1, mx, ext, n, -1) && |h1[n].items| + 1 >= |h[n].items|
      && TookOut(a[n].cont, act, key, a1[n].cont, prev)
    case NoChange => Untouched(h, a, h1, a1, mx, ext, n) && Target(act, key, a[n].cont) == None
    case NoMem => Untouched(h, a, h1, a1, mx, ext, n)
    case Inserted => false
    case Replaced => false
    case MustSplit => false
  }

  // ----- a leaf

  lemma LeafDeleteDone(h: Heap, a: Notes, mx: nat, ext: multiset<Id>, n: Id, n1: Node, i: nat, act: DelAct, key: Key)
    requires Sound(h, a, mx, ext) && n < |h| && h[n].Node? && h[n].leaf && i < |h[n].items|
    requires n1.Node? && n1 == h[n].(items := n1.items) && n1.items == RemoveAt(h[n].items, i)
    requires match act
             case DelKey => h[n].items[i].key == key
             case PopFront => i == 0
             case PopBack => i == |h[n].items| - 1
             case PopMax => i == |h[n].items| - 1
    ensures Frame(h, a, h[n := n1], Noted(a, n, n1.items), ext, n)
    ensures DelDone(h, a, h[n := n1], Noted(a, n, n1.items), mx, ext, n, act, key, Deleted, Some(h[n].items[i]))
  {
    assert Coherent(h, a, mx, n, -1);
    NodeItemsSorted(h, a, mx, n);
    assert Reads(h[n], a, a[n].cont);
    if act.DelKey? {
      SearchIsRank(h[n].items, key, i, true);
    }
    RemoveSorted(h[n].items, i);
    LeafRewrite(h, a, mx, ext, n, n1);
  }

  lemma LeafNoChange(h: Heap, a: Notes, mx: nat, ext: multiset<Id>, n: Id, i: nat, key: Key)
    requires Sound(h, a, mx, ext) && n < |h| && h[n].Node? && h[n].leaf
    requires SearchedAt(h[n].items, key, i, false)
    ensures Frame(h, a, h, a, ext, n)
    ensures DelDone(h, a, h, a, mx, ext, n, DelKey, key, NoChange, None)
  {
    assert Coherent(h, a, mx, n, -1);
    NodeItemsSorted(h, a, mx, n);
    assert Reads(h[n], a, a[n].cont);
    SearchIsRank(h[n].items, key, i, false);
    NothingDone(h, a, mx, ext, n);
  }

  // ----- a branch

  /** The action on `n` continues in child `i`. */
  ghost predicate Leads(items: seq<Item>, act: DelAct, key: Key, i: nat) {
    match act
    case DelKey => SearchedAt(items, key, i, false)
    case PopFront => i == 0
    case PopBack => i == |items|
    case PopMax => i == |items|
  }

  /** Children `i` and its neighbour are private. */
  ghost predicate Ready(h: Heap, a: Notes, mx: nat, ext: multiset<Id>, n: Id, i: nat, c: Id) {
    match At(h, n)
    case Free => false
    case Node(rc, _, items, children) =>
      && Sound(h, a, mx, ext) && Branch(h[n]) && rc == 0 && 0 < |items|
      && i <= |items| && children[i] == c && c < |h| && h[c].Node? && h[c].rc == 0
      && var s := Sibling(i, |items|);
      children[s] < |h| && h[children[s]].Node? && h[children[s]].rc == 0
  }

  function Sibling(i: nat, nitems: nat): nat
    requires i <= nitems && 0 < nitems
  {
    if i == nitems then i - 1 else i + 1
  }

  lemma ReadyFacts(h: Heap, a: Notes, mx: nat, ext: multiset<Id>, n: Id, i: nat, c: Id)
    requires Ready(h, a, mx, ext, n, i, c)
    ensures n < |a| && c < |a| && Coherent(h, a, mx, n, -1) && a[c].level + 1 == a[n].level
    ensures mx / 2 <= |h[c].items| && mx / 2 >= 1 && n != c && ext[c] == 0 && |h[n].items| <= mx
    ensures a[n].cont == LeftOf(h[n], a, i) + a[c].cont + RightOf(h[n], a, i)
    ensures forall k :: 0 <= k < |h[n].children| ==> h[n].children[k] < |a|
  {
    assert Coherent(h, a, mx, n, -1);
    KidsBelow(h, a, mx, n);
    NodeItemsSorted(h, a, mx, n);
    assert KidOk(h, a, mx, h[n].children[i], a[n].level, -1);
    SoleSlot(h, ext, n, i);
    NodeCut(h[n], a, a[n].cont, i);
  }

  lemma TargetInChild(n: Node, a: Notes, cont: seq<Item>, i: nat, act: DelAct, key: Key)
    requires Branch(n) && Reads(n, a, cont) && Sorted(cont) && i <= |n.items|
    requires forall k :: 0 <= k < |n.children| ==> n.children[k] < |a|
    requires Leads(n.items, act, key, i) && a[n.children[i]].cont != []
    ensures Target(act, key, cont)
         == match Target(act, key, a[n.children[i]].cont)
            case None => None
            case Some(j) => Some(|LeftOf(n, a, i)| + j)
  {
    hide Reads;
    NodeCut(n, a, cont, i);
    var l, m, r := LeftOf(n, a, i), a[n.children[i]].cont, RightOf(n, a, i);
    match act
    case DelKey =>
      GapSides(n, a, cont, i, key);
      RankMiddle(l, m, r, key);
    case PopFront => assert l == [];
    case PopBack => assert r == [];
    case PopMax => assert r == [];
  }

  lemma TookOutMiddle(l: seq<Item>, m: seq<Item>, r: seq<Item>, act: DelAct, key: Key, m1: seq<Item>, prev: Option<Item>)
    requires TookOut(m, act, key, m1, prev)
    requires Target(act, key, l + m + r) == Some(|l| + Target(act, key, m).value)
    ensures TookOut(l + m + r, act, key, l + m1 + r, prev)
  {
    RemoveMiddle(l, m, r, Target(act, key, m).value);
  }

  lemma ContNonEmpty(h: Heap, a: Notes, mx: nat, n: Id)
    requires |h| == |a| && n < |h| && h[n].Node? && |h[n].items| > 0
    requires Coherent(h, a, mx, n, -1)
    ensures a[n].cont != []
  {
    assert Reads(h[n], a, a[n].cont);
    KidsBelow(h, a, mx, n);
    if !h[n].leaf {
      ItemCut(h[n], a, a[n].cont, 0);
    }
  }

  /** The child has given its item up and the parent has noted it; nothing is rebalanced yet. */
  ghost predicate GaveUp(h1: Heap, a1: Notes, h2: Heap, a2: Notes, h3: Heap, a3: Notes, mx: nat, ext: multiset<Id>,
                         n: Id, i: nat, c: Id)
  {
    match At(h3, n)
    case Free => false
    case Node(rc, leaf, items, children) =>
      && Ready(h1, a1, mx, ext, n, i, c)
      && Frame(h1, a1, h2, a2, ext, c) && SoundBut(h2, a2, mx, ext, c, -1) && |h2[c].items| + 1 >= |h1[c].items|
      && Frame(h1, a1, h3, a3, ext, n) && |h3| == |h2|
      && (forall x :: 0 <= x < |h2| && x != n ==> h3[x] == h2[x] && a3[x] == a2[x])
      && children == h1[n].children && |items| == |h1[n].items|
      && SoundBut(h3, a3, mx, ext, n, if |h2[c].items| < mx / 2 then c as int else -1)
  }

  /** What the deletion below `c` came to, seen from `n`. */
  lemma DeletedBelow(h1: Heap, a1: Notes, h2: Heap, a2: Notes, mx: nat, ext: multiset<Id>, n: Id, i: nat, c: Id,
                      act: DelAct, key: Key, res: MutResult, prev: Option<Item>)
    requires Ready(h1, a1, mx, ext, n, i, c) && n < |h1| && h1[n].Node? && Leads(h1[n].items, act, key, i)
    requires Frame(h1, a1, h2, a2, ext, c) && (!res.Deleted? ==> prev == None)
    requires DelDone(h1, a1, h2, a2, mx, ext, c, act, key, res, prev)
    ensures res.NoMem? || res.NoChange? || res.Deleted?
    ensures c < |h2| && c < |a2| && h2[c].Node?
    ensures !res.Deleted? ==>
              Frame(h1, a1, h2, a2, ext, n) && DelDone(h1, a1, h2, a2, mx, ext, n, act, key, res, prev)
  {
    if !res.Deleted? {
      DeleteStopped(h1, a1, h2, a2, mx, ext, n, i, c, act, key, res);
    }
  }

  /** The child gave its item up: note it here, the child possibly left short. */
  lemma DeleteThrough(h1: Heap, a1: Notes, h2: Heap, a2: Notes, mx: nat, ext: multiset<Id>, n: Id, i: nat, c: Id,
                      act: DelAct, key: Key, prev: Option<Item>, u: int, cont1: seq<Item>)
    requires Ready(h1, a1, mx, ext, n, i, c) && Leads(h1[n].items, act, key, i)
    requires Frame(h1, a1, h2, a2, ext, c)
    requires DelDone(h1, a1, h2, a2, mx, ext, c, act, key, Deleted, prev)
    requires u == if |h2[c].items| < mx / 2 then c as int else -1
    requires cont1 == LeftOf(h1[n], a1, i) + a2[c].cont + RightOf(h1[n], a1, i)
    ensures n < |a2| && GaveUp(h1, a1, h2, a2, h2, Noted(a2, n, cont1), mx, ext, n, i, c)
    ensures TookOut(a1[n].cont, act, key, cont1, prev)
  {
    hide Leads;
    ReadyFacts(h1, a1, mx, ext, n, i, c);
    DeleteReads(h1, a1, mx, ext, n, i, c, act, key, a2[c].cont, prev, cont1);
    Propagate(h1, a1, h2, a2, mx, ext, n, i, c, cont1, u);
  }

  lemma DeleteReads(h1: Heap, a1: Notes, mx: nat, ext: multiset<Id>, n: Id, i: nat, c: Id,
                    act: DelAct, key: Key, part: seq<Item>, prev: Option<Item>, cont1: seq<Item>)
    requires Ready(h1, a1, mx, ext, n, i, c) && Leads(h1[n].items, act, key, i) && c < |a1| && n < |a1|
    requires TookOut(a1[c].cont, act, key, part, prev)
    requires cont1 == LeftOf(h1[n], a1, i) + part + RightOf(h1[n], a1, i)
    ensures TookOut(a1[n].cont, act, key, cont1, prev) && Sorted(cont1)
  {
    hide Less, RightOf, Parts;
    ReadyFacts(h1, a1, mx, ext, n, i, c);
    TargetBelow(h1, a1, mx, ext, n, i, c, act, key);
    TookOutMiddle(LeftOf(h1[n], a1, i), a1[c].cont, RightOf(h1[n], a1, i), act, key, part, prev);
    RemoveSorted(a1[n].cont, Target(act, key, a1[n].cont).value);
  }

  lemma TargetBelow(h: Heap, a: Notes, mx: nat, ext: multiset<Id>, n: Id, i: nat, c: Id, act: DelAct, key: Key)
    requires Ready(h, a, mx, ext, n, i, c) && Leads(h[n].items, act, key, i) && c < |a| && n < |a|
    ensures Target(act, key, a[n].cont)
         == match Target(act, key, a[c].cont)
            case None => None
            case Some(j) => Some(|LeftOf(h[n], a, i)| + j)
  {
    hide Reads, Parts, SearchedAt;
    ReadyFacts(h, a, mx, ext, n, i, c);
    assert Coherent(h, a, mx, c, -1);
    ContNonEmpty(h, a, mx, c);
    TargetInChild(h[n], a, a[n].cont, i, act, key);
  }

  /** The child ran out of memory. */
  lemma DeleteGaveUp(h1: Heap, a1: Notes, h2: Heap, a2: Notes, mx: nat, ext: multiset<Id>, n: Id, i: nat, c: Id)
    requires Ready(h1, a1, mx, ext, n, i, c)
    requires Frame(h1, a1, h2, a2, ext, c) && Untouched(h1, a1, h2, a2, mx, ext, c)
    ensures Frame(h1, a1, h2, a2, ext, n) && Untouched(h1, a1, h2, a2, mx, ext, n)
  {
    ReadyFacts(h1, a1, mx, ext, n, i, c);
    assert Kept(h1, a1, h2, a2, ext, a1[c].level, n);
    PropagateFrame(h1, a1, h2, a2, mx, ext, n, i, c, a1[n].cont);
    assert Noted(a2, n, a1[n].cont) == a2;
  }

  /** Popping the greatest item of a child always finds one. */
  lemma PopResult(h1: Heap, a1: Notes, h2: Heap, a2: Notes, mx: nat, ext: multiset<Id>, n: Id, i: nat, c: Id,
                  key: Key, res: MutResult, prev: Option<Item>)
    requires Ready(h1, a1, mx, ext, n, i, c) && Frame(h1, a1, h2, a2, ext, c)
    requires DelDone(h1, a1, h2, a2, mx, ext, c, PopMax, key, res, prev)
    ensures res.NoMem? || (res.Deleted? && prev.Some?)
  {
    ReadyFacts(h1, a1, mx, ext, n, i, c);
    assert Coherent(h1, a1, mx, c, -1);
    ContNonEmpty(h1, a1, mx, c);
  }

  /** The child gave up or did not hold the key. */
  lemma DeleteStopped(h1: Heap, a1: Notes, h2: Heap, a2: Notes, mx: nat, ext: multiset<Id>, n: Id, i: nat, c: Id,
                      act: DelAct, key: Key, res: MutResult)
    requires Ready(h1, a1, mx, ext, n, i, c) && Leads(h1[n].items, act, key, i)
    requires Frame(h1, a1, h2, a2, ext, c) && (res.NoMem? || res.NoChange?)
    requires DelDone(h1, a1, h2, a2, mx, ext, c, act, key, res, None)
    ensures Frame(h1, a1, h2, a2, ext, n)
    ensures DelDone(h1, a1, h2, a2, mx, ext, n, act, key, res, None)
  {
    ReadyFacts(h1, a1, mx, ext, n, i, c);
    TargetBelow(h1, a1, mx, ext, n, i, c, act, key);
    DeleteGaveUp(h1, a1, h2, a2, mx, ext, n, i, c);
  }

  // ----- the key found in a branch: the greatest item of the child before it takes its place

  function Without(s: seq<Item>, key: Key): seq<Item> {
    if Has(s, key) then RemoveAt(s, Rank(s, key)) else s
  }

  lemma SwapReads(n: Node, a: Notes, a2: Notes, cont: seq<Item>, i: nat, c: Id, popped: Item, n2: Node)
    requires Branch(n) && Reads(n, a, cont) && Sorted(cont) && i < |n.items| && c == n.children[i]
    requires forall k :: 0 <= k < |n.children| ==> n.children[k] < |a| && n.children[k] < |a2|
    requires forall k :: 0 <= k < |n.children| && k != i ==> a2[n.children[k]] == a[n.children[k]]
    requires a[c].cont == a2[c].cont + [popped]
    requires n2.Node? && n2 == n.(items := n2.items) && n2.items == n.items[i := popped]
    ensures TookOut(cont, DelKey, n.items[i].key, Without(cont, n.items[i].key), Some(n.items[i]))
    ensures Reads(n2, a2, Without(cont, n.items[i].key))
  {
    ItemCut(n, a, cont, i);
    SwapWeave(n, a, a2, i, c, popped, n2);
    FoundBetween(cont, LeftOf(n, a, i) + a[c].cont, n.items[i], a[n.children[i + 1]].cont + RightOf(n, a, i + 1));
  }

  lemma {:induction false} FoundBetween(cont: seq<Item>, l: seq<Item>, it: Item, r: seq<Item>)
    requires cont == l + [it] + r && Sorted(cont)
    ensures Has(cont, it.key) && Rank(cont, it.key) == |l|
    ensures Without(cont, it.key) == l + r
    ensures TookOut(cont, DelKey, it.key, l + r, Some(it))
  {
    TotalOrder();
    ItemSides(l, it, r);
    RankUnique(cont, it.key, |l|);
  }

  lemma {:induction false} SwapWeave(n: Node, a: Notes, a2: Notes, i: nat, c: Id, popped: Item, n2: Node)
    requires Branch(n) && i < |n.items| && c == n.children[i]
    requires forall k :: 0 <= k < |n.children| ==> n.children[k] < |a| && n.children[k] < |a2|
    requires forall k :: 0 <= k < |n.children| && k != i ==> a2[n.children[k]] == a[n.children[k]]
    requires a[c].cont == a2[c].cont + [popped]
    requires n2.Node? && n2 == n.(items := n2.items) && n2.items == n.items[i := popped]
    ensures WeaveAll(n2.items, Parts(a2, n2.children))
         == (LeftOf(n, a, i) + a[c].cont) + (a[n.children[i + 1]].cont + RightOf(n, a, i + 1))
  {
    var w := WeaveAll(n2.items, Parts(a2, n2.children));
    assert Reads(n2, a2, w);
    calc {
      w;
      { ItemCut(n2, a2, w, i); }
      (LeftOf(n2, a2, i) + a2[c].cont) + [popped] + (a2[n.children[i + 1]].cont + RightOf(n2, a2, i + 1));
      { SwapSides(n, a, a2, i, n2); }
      (LeftOf(n, a, i) + a2[c].cont) + [popped] + (a[n.children[i + 1]].cont + RightOf(n, a, i + 1));
      { Assoc(LeftOf(n, a, i), a2[c].cont, [popped]); }
      (LeftOf(n, a, i) + a[c].cont) + (a[n.children[i + 1]].cont + RightOf(n, a, i + 1));
    }
  }

  lemma SwapSides(n: Node, a: Notes, a2: Notes, i: nat, n2: Node)
    requires Branch(n) && i < |n.items|
    requires forall k :: 0 <= k < |n.children| ==> n.children[k] < |a| && n.children[k] < |a2|
    requires forall k :: 0 <= k < |n.children| && k != i ==> a2[n.children[k]] == a[n.children[k]]
    requires Branch(n2) && n2.children == n.children
    requires n2.items[..i] == n.items[..i] && n2.items[i + 1..] == n.items[i + 1..]
    ensures LeftOf(n2, a2, i) == LeftOf(n, a, i) && RightOf(n2, a2, i + 1) == RightOf(n, a, i + 1)
  {
    PartsSame(a, a2, n.children[..i]);
    PartsSame(a, a2, n.children[i + 2..]);
  }

  /** What popping the greatest item below `c` came to, seen from `n`. */
  lemma PoppedBelow(h1: Heap, a1: Notes, h2: Heap, a2: Notes, mx: nat, ext: multiset<Id>, n: Id, i: nat, c: Id,
                     key: Key, res: MutResult, popped: Option<Item>)
    requires Ready(h1, a1, mx, ext, n, i, c) && n < |h1| && h1[n].Node? && i < |h1[n].items|
    requires Frame(h1, a1, h2, a2, ext, c) && DelDone(h1, a1, h2, a2, mx, ext, c, PopMax, key, res, popped)
    ensures res.NoMem? || (res.Deleted? && popped.Some?)
    ensures c < |h2| && c < |a2| && h2[c].Node? && n < |h2| && n < |a2|
    ensures res.NoMem? ==> Frame(h1, a1, h2, a2, ext, n) && DelDone(h1, a1, h2, a2, mx, ext, n, DelKey, key, res, None)
  {
    PopResult(h1, a1, h2, a2, mx, ext, n, i, c, key, res, popped);
    if res.NoMem? {
      DeleteGaveUp(h1, a1, h2, a2, mx, ext, n, i, c);
    }
  }

  lemma DeleteSwap(h1: Heap, a1: Notes, h2: Heap, a2: Notes, mx: nat, ext: multiset<Id>, n: Id, i: nat, c: Id,
                   popped: Item, n2: Node, u: int, it: Item, cont2: seq<Item>)
    requires Ready(h1, a1, mx, ext, n, i, c) && i < |h1[n].items| && it == h1[n].items[i]
    requires Frame(h1, a1, h2, a2, ext, c)
    requires DelDone(h1, a1, h2, a2, mx, ext, c, PopMax, it.key, Deleted, Some(popped))
    requires u == if |h2[c].items| < mx / 2 then c as int else -1
    requires n2.Node? && n2 == h1[n].(items := n2.items) && n2.items == h1[n].items[i := popped]
    requires n < |a1| && cont2 == Without(a1[n].cont, it.key)
    ensures n < |a2| && GaveUp(h1, a1, h2, a2, h2[n := n2], Noted(a2, n, cont2), mx, ext, n, i, c)
    ensures TookOut(a1[n].cont, DelKey, it.key, cont2, Some(it))
  {
    hide TookOut;
    ReadyFacts(h1, a1, mx, ext, n, i, c);
    SwapNow(h1, a1, a2, mx, ext, n, i, c, popped, n2, h2, it);
    var mid := LeftOf(h1[n], a1, i) + a2[c].cont + RightOf(h1[n], a1, i);
    LastOut(LeftOf(h1[n], a1, i), a2[c].cont, popped, RightOf(h1[n], a1, i));
    Propagate(h1, a1, h2, a2, mx, ext, n, i, c, mid, u);
    SwapAgain(h1, a1, h2, a2, Noted(a2, n, mid), mx, ext, n, n2, u, cont2);
  }

  lemma SwapAgain(h1: Heap, a1: Notes, h2: Heap, a2: Notes, a3: Notes, mx: nat, ext: multiset<Id>, n: Id,
                  n2: Node, u: int, cont2: seq<Item>)
    requires Frame(h1, a1, h2, a3, ext, n) && SoundBut(h2, a3, mx, ext, n, u) && h2[n] == h1[n]
    requires Branch(h1[n]) && n !in h1[n].children
    requires forall k :: 0 <= k < |h1[n].children| ==> h1[n].children[k] < |a2|
    requires n < |a2| == |a3| && a2[n].level == a3[n].level && (forall x :: 0 <= x < |a2| && x != n ==> a3[x] == a2[x])
    requires n2.Node? && n2 == h1[n].(items := n2.items) && |n2.items| == |h1[n].items|
    requires Reads(n2, a2, cont2) && Sorted(cont2)
    ensures Frame(h1, a1, h2[n := n2], Noted(a2, n, cont2), ext, n)
    ensures SoundBut(h2[n := n2], Noted(a2, n, cont2), mx, ext, n, u)
  {
    PartsSame(a2, a3, h1[n].children);
    assert Reads(n2, a3, cont2);
    RewriteAgain(h2, a3, mx, ext, n, n2, cont2, u);
    assert Noted(a3, n, cont2) == Noted(a2, n, cont2);
    FrameTrans(h1, a1, h2, a3, h2[n := n2], Noted(a2, n, cont2), ext, n);
  }

  lemma LastOut(l: seq<Item>, m: seq<Item>, it: Item, r: seq<Item>)
    requires Sorted(l + (m + [it]) + r)
    ensures Sorted(l + m + r)
  {
    var s := m + [it];
    RemoveMiddle(l, s, r, |m|);
    assert RemoveAt(s, |m|) == m;
    RemoveSorted(l + s + r, |l| + |m|);
  }

  lemma SwapNow(h1: Heap, a1: Notes, a2: Notes, mx: nat, ext: multiset<Id>, n: Id, i: nat, c: Id,
                popped: Item, n2: Node, h2: Heap, it: Item)
    requires Ready(h1, a1, mx, ext, n, i, c) && i < |h1[n].items| && n < |a1| && c < |a1| && it == h1[n].items[i]
    requires Frame(h1, a1, h2, a2, ext, c)
    requires TookOut(a1[c].cont, PopMax, it.key, a2[c].cont, Some(popped))
    requires n2.Node? && n2 == h1[n].(items := n2.items) && n2.items == h1[n].items[i := popped]
    ensures n < |a2| && a2[n].level == a1[n].level && n !in h1[n].children
    ensures a1[c].cont == a2[c].cont + [popped]
    ensures forall k :: 0 <= k < |h1[n].children| ==> h1[n].children[k] < |a1| && h1[n].children[k] < |a2|
    ensures Reads(n2, a2, Without(a1[n].cont, it.key)) && Sorted(Without(a1[n].cont, it.key))
    ensures TookOut(a1[n].cont, DelKey, it.key, Without(a1[n].cont, it.key), Some(it))
  {
    hide Reads, Parts, WeaveAll;
    ReadyFacts(h1, a1, mx, ext, n, i, c);
    KidsBelow(h1, a1, mx, n);
    SoleSlot(h1, ext, n, i);
    assert Kept(h1, a1, h2, a2, ext, a1[c].level, n);
    forall k | 0 <= k < |h1[n].children| && k != i
      ensures a2[h1[n].children[k]] == a1[h1[n].children[k]]
    {
      assert Kept(h1, a1, h2, a2, ext, a1[c].level, h1[n].children[k]);
    }
    SwapReads(h1[n], a1, a2, a1[n].cont, i, c, popped, n2);
    RemoveSorted(a1[n].cont, Rank(a1[n].cont, it.key));
  }

  // ----- before and after rebalancing

  lemma PairNow(h1: Heap, a1: Notes, h2: Heap, a2: Notes, h3: Heap, a3: Notes, mx: nat, ext: multiset<Id>,
                n: Id, i: nat, c: Id, j: nat)
    requires Ready(h1, a1, mx, ext, n, i, c) && j == if i == |h1[n].items| then i - 1 else i
    requires Frame(h1, a1, h2, a2, ext, c) && Coherent(h2, a2, mx, c, -1)
    requires |h3| == |h2| == |a3| && n < |h3| && h3[n].Node? && Branch(h3[n]) && h3[n].rc == 0
    requires h3[n].children == h1[n].children && a3[n].level == a1[n].level
    requires forall x :: 0 <= x < |h2| && x != n ==> h3[x] == h2[x] && a3[x] == a2[x]
    requires SoundBut(h3, a3, mx, ext, n, c) && |h3[c].items| < mx / 2 && |h2[c].items| + 1 >= |h1[c].items|
    ensures j + 1 < |h3[n].children|
    ensures Pair(h3, a3, mx, ext, n, j, h3[n].children[j], h3[n].children[j + 1], c)
  {
    ReadyFacts(h1, a1, mx, ext, n, i, c);
    KidsBelow(h1, a1, mx, n);
    KidsBelow(h2, a2, mx, c);
    var s := h1[n].children[Sibling(i, |h1[n].items|)];
    SoleSlot(h1, ext, n, i);
    assert Kept(h1, a1, h2, a2, ext, a1[c].level, s);
    assert Kept(h1, a1, h2, a2, ext, a1[c].level, n);
    assert Coherent(h1, a1, mx, s, -1);
    KidsBelow(h1, a1, mx, s);
    NotBelow(h1, a1, n, s);
    NotBelow(h2, a2, n, c);
    NotBelow(h1, a1, n, n);
  }

  lemma GaveUpShort(h1: Heap, a1: Notes, h2: Heap, a2: Notes, h3: Heap, a3: Notes, mx: nat, ext: multiset<Id>,
                    n: Id, i: nat, c: Id, j: nat)
    requires GaveUp(h1, a1, h2, a2, h3, a3, mx, ext, n, i, c)
    requires c < |h3| && h3[c].Node? && |h3[c].items| < mx / 2
    requires h3[n].Node? && j == if i == |h3[n].items| then i - 1 else i
    ensures Branch(h3[n]) && i <= |h3[n].items| && 0 < |h3[n].items| && h3[n].children[i] == c
    ensures j + 1 < |h3[n].children|
    ensures Pair(h3, a3, mx, ext, n, j, h3[n].children[j], h3[n].children[j + 1], c)
  {
    ReadyFacts(h1, a1, mx, ext, n, i, c);
    assert Coherent(h2, a2, mx, c, -1);
    PairNow(h1, a1, h2, a2, h3, a3, mx, ext, n, i, c, j);
  }

  lemma GaveUpDone(h1: Heap, a1: Notes, h2: Heap, a2: Notes, h3: Heap, a3: Notes, mx: nat, ext: multiset<Id>,
                   n: Id, i: nat, c: Id, act: DelAct, key: Key, prev: Option<Item>)
    requires GaveUp(h1, a1, h2, a2, h3, a3, mx, ext, n, i, c)
    ensures n < |h1| && n < |a1| && n < |h3| && n < |a3| && h1[n].Node? && h3[n].Node? && |h3[n].items| == |h1[n].items|
    ensures c < |h3| && h3[c].Node? && Frame(h1, a1, h3, a3, ext, n)
    ensures |h3[c].items| >= mx / 2 && TookOut(a1[n].cont, act, key, a3[n].cont, prev) ==>
              DelDone(h1, a1, h3, a3, mx, ext, n, act, key, Deleted, prev)
  {
    ReadyFacts(h1, a1, mx, ext, n, i, c);
  }

  lemma NotBelow(h: Heap, a: Notes, n: Id, x: Id)
    requires |h| == |a| && n < |h| && x < |h| && h[x].Node? && a[x].level <= a[n].level
    requires forall k :: 0 <= k < |h[x].children| ==>
               h[x].children[k] < |a| && a[h[x].children[k]].level + 1 == a[x].level
    ensures n !in h[x].children
  {
  }

  lemma RebalancedDone(h: Heap, a: Notes, h3: Heap, a3: Notes, h4: Heap, a4: Notes, mx: nat, ext: multiset<Id>,
                       n: Id, act: DelAct, key: Key, prev: Option<Item>)
    requires Frame(h, a, h3, a3, ext, n) && |h3[n].items| == |h[n].items|
    requires TookOut(a[n].cont, act, key, a3[n].cont, prev)
    requires Rebalanced(h3, a3, h4, a4, mx, ext, n)
    ensures Frame(h, a, h4, a4, ext, n)
    ensures DelDone(h, a, h4, a4, mx, ext, n, act, key, Deleted, prev)
  {
    FrameTrans(h, a, h3, a3, h4, a4, ext, n);
  }

  /** Private copies made before the descent do not show. */
  lemma DeleteAfterCow(h: Heap, a: Notes, h1: Heap, a1: Notes, h2: Heap, a2: Notes, mx: nat, ext: multiset<Id>,
                       n: Id, act: DelAct, key: Key, res: MutResult, prev: Option<Item>)
    requires Frame(h, a, h1, a1, ext, n) && Frame(h1, a1, h2, a2, ext, n)
    requires a1[n] == a[n] && |h1[n].items| == |h[n].items|
    requires DelDone(h1, a1, h2, a2, mx, ext, n, act, key, res, prev)
    ensures Frame(h, a, h2, a2, ext, n) && DelDone(h, a, h2, a2, mx, ext, n, act, key, res, prev)
  {
    FrameTrans(h, a, h1, a1, h2, a2, ext, n);
  }

  // ----- making a child and its neighbour private

  lemma CowPairReady(h: Heap, a: Notes, h1: Heap, a1: Notes, h2: Heap, a2: Notes, mx: nat, ext: multiset<Id>,
                     n: Id, i: nat)
    requires Sound(h, a, mx, ext) && n < |h| && Branch(h[n]) && h[n].rc == 0 && i <= |h[n].items| && 0 < |h[n].items|
    requires Sound(h1, a1, mx, ext) && Cowed(h, a, h1, a1, n, i)
    requires Sound(h2, a2, mx, ext) && Cowed(h1, a1, h2, a2, n, Sibling(i, |h[n].items|))
    ensures Frame(h, a, h2, a2, ext, n) && a2[n] == a[n] && h2[n].items == h[n].items && h2[n].leaf == h[n].leaf
    ensures i < |h2[n].children| && Ready(h2, a2, mx, ext, n, i, h2[n].children[i])
  {
    assert Coherent(h, a, mx, n, -1) && Coherent(h1, a1, mx, n, -1);
    CowedFrame(h, a, h1, a1, mx, ext, n, i);
    CowedFrame(h1, a1, h2, a2, mx, ext, n, Sibling(i, |h[n].items|));
    FrameTrans(h, a, h1, a1, h2, a2, ext, n);
    KidsBelow(h1, a1, mx, n);
    SoleSlot(h1, ext, n, i);
  }

  lemma CowedUntouched(h: Heap, a: Notes, h1: Heap, a1: Notes, mx: nat, ext: multiset<Id>, n: Id, i: nat)
    requires Sound(h, a, mx, ext) && n < |h| && h[n].Node? && i < |h[n].children|
    requires Sound(h1, a1, mx, ext) && Cowed(h, a, h1, a1, n, i)
    ensures Frame(h, a, h1, a1, ext, n) && Untouched(h, a, h1, a1, mx, ext, n)
  {
    assert Coherent(h, a, mx, n, -1);
    CowedFrame(h, a, h1, a1, mx, ext, n, i);
  }
}
