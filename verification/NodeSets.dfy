/** The contract of the recursive insertion, and how a node's result follows from its child's. */
module NodeSets {
  import opened Keys
  import opened SortedItems
  import opened NodeHeap
  import opened NodeHeapLemmas
  import opened NodeReading
  import opened NodeWrites
  import opened NodeSplits

  datatype MutResult = NoChange | NoMem | MustSplit | Inserted | Replaced | Deleted

  /** Contents and shape as before; only private copies and splits may have happened. */
  ghost predicate Untouched(h: Heap, a: Notes, h1: Heap, a1: Notes, mx: nat, ext: multiset<Id>, n: Id)
    requires Frame(h, a, h1, a1, ext, n)
  {
    Sound(h1, a1, mx, ext) && a1[n] == a[n] && |h1[n].items| >= |h[n].items|
  }

  /** What setting `it` below `n` came to. */
  ghost predicate SetDone(h: Heap, a: Notes, h1: Heap, a1: Notes, mx: nat, ext: multiset<Id>, n: Id, it: Item,
                          res: MutResult, prev: Option<Item>)
    requires Frame(h, a, h1, a1, ext, n)
  {
    match res
    case Inserted =>
      SoundBut(h1, a1, mx, ext, n, -1) && |h1[n].items| >= |h[n].items|
      && a1[n].cont == Upsert(a[n].cont, it) && prev == None && Lookup(a[n].cont, it.key) == None
    case Replaced =>
      SoundBut(h1, a1, mx, ext, n, -1) && |h1[n].items| >= |h[n].items|
      && a1[n].cont == Upsert(a[n].cont, it) && prev.Some? && Lookup(a[n].cont, it.key) == prev
    case NoMem => Untouched(h, a, h1, a1, mx, ext, n)
    case MustSplit => Untouched(h, a, h1, a1, mx, ext, n) && |h1[n].items| == mx == |h[n].items|
    case NoChange => false
    case Deleted => false
  }

  /** The child the search of `n` descends into is full. */
  ghost predicate MeetsFull(h: Heap, n: Id, key: Key, mx: nat) {
    n < |h| && Branch(h[n])
    && var i := Rank(h[n].items, key);
       !Has(h[n].items, key) && h[n].children[i] < |h| && h[h[n].children[i]].Node?
       && |h[h[n].children[i]].items| == mx
  }

  /** A node whose search is under way: it is private, a branch, and the key falls in gap `i`. */
  ghost predicate AtGap(h: Heap, a: Notes, mx: nat, ext: multiset<Id>, n: Id, i: nat, key: Key) {
    Sound(h, a, mx, ext) && n < |h| && Branch(h[n]) && h[n].rc == 0
    && SearchedAt(h[n].items, key, i, false)
  }

  lemma CowedKeepsGap(h: Heap, a: Notes, h1: Heap, a1: Notes, mx: nat, ext: multiset<Id>, n: Id, i: nat, key: Key)
    requires AtGap(h, a, mx, ext, n, i, key) && Sound(h1, a1, mx, ext) && Cowed(h, a, h1, a1, n, i)
    ensures Frame(h, a, h1, a1, ext, n) && AtGap(h1, a1, mx, ext, n, i, key) && a1[n] == a[n]
    ensures h1[n].children[i] < |h1| && a1[h1[n].children[i]].level + 1 == a1[n].level
    ensures |h1[n].items| == |h[n].items|
  {
    assert Coherent(h, a, mx, n, -1);
    assert Coherent(h1, a1, mx, n, -1);
    CowedFrame(h, a, h1, a1, mx, ext, n, i);
    KidsBelow(h1, a1, mx, n);
  }

  /** The child took the item: note it here. */
  lemma SetThrough(h1: Heap, a1: Notes, h2: Heap, a2: Notes, mx: nat, ext: multiset<Id>, n: Id, i: nat, c: Id,
                   it: Item, res: MutResult, prev: Option<Item>)
    requires AtGap(h1, a1, mx, ext, n, i, it.key)
    requires c == h1[n].children[i] && c < |h1| && h1[c].Node? && h1[c].rc == 0
    requires Frame(h1, a1, h2, a2, ext, c)
    requires res.Inserted? || res.Replaced?
    requires SetDone(h1, a1, h2, a2, mx, ext, c, it, res, prev)
    ensures n < |a2| && Frame(h1, a1, h2, Noted(a2, n, Upsert(a1[n].cont, it)), ext, n)
    ensures SetDone(h1, a1, h2, Noted(a2, n, Upsert(a1[n].cont, it)), mx, ext, n, it, res, prev)
  {
    var cont1 := Upsert(a1[n].cont, it);
    assert Coherent(h1, a1, mx, n, -1);
    KidsBelow(h1, a1, mx, n);
    assert KidOk(h1, a1, mx, c, a1[n].level, -1);
    GapSides(h1[n], a1, a1[n].cont, i, it.key);
    NodeCut(h1[n], a1, a1[n].cont, i);
    UpsertMiddle(LeftOf(h1[n], a1, i), a1[c].cont, RightOf(h1[n], a1, i), it);
    UpsertSorted(a1[n].cont, it);
    Propagate(h1, a1, h2, a2, mx, ext, n, i, c, cont1, -1);
  }

  /** The child gave up, or asks to be split: nothing to note here. */
  lemma SetStopped(h1: Heap, a1: Notes, h2: Heap, a2: Notes, mx: nat, ext: multiset<Id>, n: Id, i: nat, c: Id, key: Key)
    requires AtGap(h1, a1, mx, ext, n, i, key)
    requires c == h1[n].children[i] && c < |h1| && h1[c].Node? && h1[c].rc == 0
    requires Frame(h1, a1, h2, a2, ext, c)
    requires Untouched(h1, a1, h2, a2, mx, ext, c)
    ensures Frame(h1, a1, h2, a2, ext, n) && Untouched(h1, a1, h2, a2, mx, ext, n)
    ensures h2[n] == h1[n] && AtGap(h2, a2, mx, ext, n, i, key) && h2[c].rc == 0
  {
    assert Coherent(h1, a1, mx, n, -1);
    KidsBelow(h1, a1, mx, n);
    SoleSlot(h1, ext, n, i);
    assert Kept(h1, a1, h2, a2, ext, a1[c].level, n);
    PropagateFrame(h1, a1, h2, a2, mx, ext, n, i, c, a1[n].cont);
    assert Noted(a2, n, a1[n].cont) == a2;
  }

  lemma FrameSet(h: Heap, a: Notes, h1: Heap, a1: Notes, h2: Heap, a2: Notes, mx: nat, ext: multiset<Id>, n: Id,
                 it: Item, res: MutResult, prev: Option<Item>)
    requires Frame(h, a, h1, a1, ext, n) && Frame(h1, a1, h2, a2, ext, n)
    requires a1[n] == a[n] && |h1[n].items| >= |h[n].items|
    requires SetDone(h1, a1, h2, a2, mx, ext, n, it, res, prev)
    requires res.MustSplit? ==> |h1[n].items| == |h[n].items|
    ensures Frame(h, a, h2, a2, ext, n) && SetDone(h, a, h2, a2, mx, ext, n, it, res, prev)
  {
    FrameTrans(h, a, h1, a1, h2, a2, ext, n);
  }

  /** After the split, the search of `n` meets a half-full child. */
  lemma SplitMakesRoom(h: Heap, h1: Heap, n: Id, i: nat, med: Item, z: Id, key: Key, mx: nat)
    requires Capacity(mx) && n < |h| && Branch(h[n]) && n < |h1|
    requires SearchedAt(h[n].items, key, i, false)
    requires Adopts(h[n], h1[n], i, med, z) && Sorted(h1[n].items)
    requires h[n].children[i] < |h1| && h1[h[n].children[i]].Node? && |h1[h[n].children[i]].items| == mx / 2
    requires z < |h1| && h1[z].Node? && |h1[z].items| == mx / 2
    ensures !MeetsFull(h1, n, key, mx)
  {
    TotalOrder();
    RankUnique(h1[n].items, key, if Less(med.key, key) then i + 1 else i);
  }

  lemma SplitRetry(h: Heap, h1: Heap, a1: Notes, mx: nat, ext: multiset<Id>, n: Id, i: nat, key: Key)
    requires n < |h| && Branch(h[n]) && SearchedAt(h[n].items, key, i, false)
    requires Sound(h1, a1, mx, ext) && Widened(h, h1, n, i, mx)
    ensures !MeetsFull(h1, n, key, mx) && !h1[n].leaf && h1[n].rc == h[n].rc && |h1[n].items| == |h[n].items| + 1
  {
    assert Coherent(h1, a1, mx, n, -1);
    NodeItemsSorted(h1, a1, mx, n);
    var med :| Adopts(h[n], h1[n], i, med, |h|);
    SplitMakesRoom(h, h1, n, i, med, |h|, key, mx);
  }

  /** The child must be split before the item fits: nothing has changed yet. */
  ghost predicate ChildFull(h: Heap, a: Notes, h1: Heap, a1: Notes, mx: nat, ext: multiset<Id>, n: Id, i: nat, it: Item)
    requires Frame(h, a, h1, a1, ext, n)
  {
    && MeetsFull(h, n, it.key, mx)
    && AtGap(h1, a1, mx, ext, n, i, it.key) && a1[n] == a[n] && |h1[n].items| == |h[n].items|
    && i < |h1[n].children| && h1[n].children[i] < |h1| && h1[h1[n].children[i]].Node?
    && h1[h1[n].children[i]].rc == 0 && |h1[h1[n].children[i]].items| == mx
  }

  lemma ChildFullNow(h: Heap, a: Notes, h1: Heap, a1: Notes, h2: Heap, a2: Notes, mx: nat, ext: multiset<Id>,
                     n: Id, i: nat, c: Id, it: Item)
    requires AtGap(h, a, mx, ext, n, i, it.key) && AtGap(h1, a1, mx, ext, n, i, it.key)
    requires Cowed(h, a, h1, a1, n, i) && c == h1[n].children[i] && a1[n] == a[n]
    requires Frame(h, a, h1, a1, ext, n)
    requires Frame(h1, a1, h2, a2, ext, c) && Untouched(h1, a1, h2, a2, mx, ext, c)
    requires |h2[c].items| == mx == |h1[c].items|
    ensures Frame(h, a, h2, a2, ext, n) && ChildFull(h, a, h2, a2, mx, ext, n, i, it)
  {
    SetStopped(h1, a1, h2, a2, mx, ext, n, i, c, it.key);
    FrameTrans(h, a, h1, a1, h2, a2, ext, n);
    assert Coherent(h, a, mx, n, -1);
    NodeItemsSorted(h, a, mx, n);
    SearchIsRank(h[n].items, it.key, i, false);
  }

  /** The items of a coherent node are sorted. */
  lemma NodeItemsSorted(h: Heap, a: Notes, mx: nat, n: Id)
    requires |h| == |a| && n < |h| && h[n].Node? && Coherent(h, a, mx, n, -1)
    ensures Sorted(h[n].items) && |h[n].children| == (if h[n].leaf then 0 else |h[n].items| + 1)
    ensures |h[n].items| <= mx
  {
    KidsBelow(h, a, mx, n);
    if !h[n].leaf {
      ItemsSorted(h[n], a, a[n].cont);
    }
  }

  lemma ReplaceDone(h: Heap, a: Notes, mx: nat, ext: multiset<Id>, n: Id, n1: Node, i: nat, it: Item)
    requires Sound(h, a, mx, ext) && n < |h| && h[n].Node?
    requires i < |h[n].items| && h[n].items[i].key == it.key
    requires n1.Node? && n1 == h[n].(items := n1.items) && n1.items == h[n].items[i := it]
    ensures Frame(h, a, h[n := n1], Noted(a, n, Upsert(a[n].cont, it)), ext, n)
    ensures SetDone(h, a, h[n := n1], Noted(a, n, Upsert(a[n].cont, it)), mx, ext, n, it, Replaced, Some(h[n].items[i]))
  {
    assert Coherent(h, a, mx, n, -1);
    NodeItemsSorted(h, a, mx, n);
    if h[n].leaf {
      assert Reads(h[n], a, a[n].cont);
      SearchIsRank(h[n].items, it.key, i, true);
      UpsertSorted(h[n].items, it);
      LeafRewrite(h, a, mx, ext, n, n1);
    } else {
      BranchReplace(h, a, mx, ext, n, n1, i, it, Upsert(a[n].cont, it));
    }
  }

  lemma InsertDone(h: Heap, a: Notes, mx: nat, ext: multiset<Id>, n: Id, n1: Node, i: nat, it: Item)
    requires Sound(h, a, mx, ext) && n < |h| && h[n].Node? && h[n].leaf && |h[n].items| < mx
    requires SearchedAt(h[n].items, it.key, i, false)
    requires n1.Node? && n1 == h[n].(items := n1.items) && n1.items == h[n].items[..i] + [it] + h[n].items[i..]
    ensures Frame(h, a, h[n := n1], Noted(a, n, Upsert(a[n].cont, it)), ext, n)
    ensures SetDone(h, a, h[n := n1], Noted(a, n, Upsert(a[n].cont, it)), mx, ext, n, it, Inserted, None)
  {
    assert Coherent(h, a, mx, n, -1);
    NodeItemsSorted(h, a, mx, n);
    assert Reads(h[n], a, a[n].cont);
    SearchIsRank(h[n].items, it.key, i, false);
    UpsertSorted(h[n].items, it);
    LeafRewrite(h, a, mx, ext, n, n1);
  }

  lemma NothingDone(h: Heap, a: Notes, mx: nat, ext: multiset<Id>, n: Id)
    requires Sound(h, a, mx, ext) && n < |h| && h[n].Node?
    ensures Frame(h, a, h, a, ext, n) && Untouched(h, a, h, a, mx, ext, n)
  {
    forall x | 0 <= x < |h| && x != n
      ensures Kept(h, a, h, a, ext, a[n].level, x)
    {
    }
  }
}
