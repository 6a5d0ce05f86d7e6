/** A family of B-trees that share nodes copy-on-write, run on one node heap. */
module ForestModel {
  import opened Keys
  import opened SortedItems
  import opened NodeHeap
  import opened NodeHeapLemmas
  import opened NodeSteps
  import opened NodeReading
  import opened NodeWrites
  import opened NodeSplits
  import opened NodeSets
  import opened NodeRebalance
  import opened NodeDeletes
  import opened Trees
  import opened EdgePaths
  import opened NodeSearch
  import opened TreeReads

  class Forest {
    const maxItems: nat
    var heap: Heap
    var trees: seq<Tree>
    ghost var notes: Notes

    /** How many allocations have failed so far. */
    ghost var failures: nat

    ghost predicate Valid()
      reads this
    {
      FamilyOk(trees, heap, notes, maxItems)
    }

    /** The items of tree `t`, in order. */
    ghost function Contents(t: nat): seq<Item>
      requires t < |trees|
      reads this
    {
      View(trees[t], heap)
    }

    /** Fixes the node capacity of the family; no tree exists yet. */
    constructor (requested: nat)
      ensures Valid() && trees == [] && heap == []
      ensures requested < 2 ==> maxItems == 255
      ensures 2 <= requested < 4 ==> maxItems == 3
      ensures 4 <= requested ==> maxItems == if requested > 2047 then 2045 else requested - 1 - requested % 2
    {
      var half := requested / 2;
      var deg := if half == 0 then 128 else if half == 1 then 2 else half;
      maxItems := if deg * 2 - 1 > 2045 then 2045 else deg * 2 - 1;
      heap := [];
      trees := [];
      notes := [];
      failures := 0;
      new;
      forall x: Id
        ensures RefOk([], multiset{}, x)
      {
      }
    }

    // ----- memory

    /** The allocator may fail at any call. */
    method Malloc() returns (ok: bool)
      modifies this`failures
      ensures failures == old(failures) + if ok then 0 else 1
    {
      ok := *;
      failures := if ok then failures else failures + 1;
    }

    method RcFetchAdd(c: Id, ghost ext: multiset<Id>)
      requires Sound(heap, notes, maxItems, ext) && c < |heap| && heap[c].Node?
      modifies this`heap
      ensures Sound(heap, notes, maxItems, ext + multiset{c})
      ensures Counted(old(heap), heap, [c])
    {
      var rc := heap[c].rc + 1;
      RetainSound(heap, notes, maxItems, ext, c, rc);
      heap := WithRc(heap, c, rc);
    }

    method RcFetchSub(c: Id, ghost ext: multiset<Id>)
      requires Sound(heap, notes, maxItems, ext + multiset{c})
      requires c < |heap| && heap[c].Node? && heap[c].rc > 0
      modifies this`heap
      ensures Sound(heap, notes, maxItems, ext)
      ensures Dropped(old(heap), heap, c)
    {
      var rc := heap[c].rc - 1;
      ReleaseSound(heap, notes, maxItems, ext, c, rc);
      heap := WithRc(heap, c, rc);
    }

    /** Drops one reference; the last one frees the node and drops its children in turn. */
    method NodeFree(c: Id, ghost ext: multiset<Id>)
      requires Sound(heap, notes, maxItems, ext + multiset{c})
      requires c < |notes|
      modifies this`heap
      ensures Sound(heap, notes, maxItems, ext)
      ensures Shrunk(old(heap), heap)
      ensures old(heap)[c].Node? && old(heap)[c].rc > 0 ==> Dropped(old(heap), heap, c)
      decreases notes[c].level, 1
    {
      HeldIsLive(heap, ext + multiset{c}, c);
      if heap[c].rc > 0 {
        RcFetchSub(c, ext);
        return;
      }
      var kids := heap[c].children;
      KidsBelow(heap, notes, maxItems, c);
      FreeSound(heap, notes, maxItems, ext, c, ext + multiset(kids));
      heap := heap[c := Free];
      NodeFreeAll(kids, notes[c].level, ext);
    }

    method NodeFreeAll(kids: seq<Id>, ghost lvl: nat, ghost ext: multiset<Id>)
      requires Sound(heap, notes, maxItems, ext + multiset(kids))
      requires forall k :: 0 <= k < |kids| ==> kids[k] < |notes| && notes[kids[k]].level < lvl
      modifies this`heap
      ensures Sound(heap, notes, maxItems, ext)
      ensures Shrunk(old(heap), heap)
      decreases lvl, 0
    {
      assert kids[0..] == kids;
      for i := 0 to |kids|
        invariant Sound(heap, notes, maxItems, ext + multiset(kids[i..]))
        invariant Shrunk(old(heap), heap)
      {
        ghost var rest := ext + multiset(kids[i + 1..]);
        assert kids[i..] == [kids[i]] + kids[i + 1..];
        assert ext + multiset(kids[i..]) == rest + multiset{kids[i]};
        ghost var h := heap;
        NodeFree(kids[i], rest);
        ShrunkTrans(old(heap), h, heap);
      }
      assert ext + multiset(kids[|kids|..]) == ext;
    }

    /** A private copy of node `c`, sharing its children. */
    method NodeCopy(c: Id, ghost ext: multiset<Id>) returns (z: Option<Id>)
      requires Sound(heap, notes, maxItems, ext) && c < |heap| && heap[c].Node?
      modifies this`heap, this`notes, this`failures
      ensures z.None? ==> heap == old(heap) && notes == old(notes)
      ensures z.Some? ==>
        && z.value == |old(heap)|
        && Sound(heap, notes, maxItems, ext + multiset{z.value})
        && notes == old(notes) + [old(notes)[c]]
        && heap == heap[..|old(heap)|] + [old(heap)[c].(rc := 0)]
        && Counted(old(heap), heap[..|old(heap)|], old(heap)[c].children)
      ensures failures == old(failures) + if z.None? then 1 else 0
    {
      var ok := Malloc();
      if !ok {
        return None;
      }
      var node := heap[c].(rc := 0);
      KidsBelow(heap, notes, maxItems, c);
      RetainAll(node.children, ext);
      AppendCopySound(old(heap), heap, notes, maxItems, ext, c, node);
      z := Some(|heap|);
      heap := heap + [node];
      notes := notes + [notes[c]];
    }

    method RetainAll(kids: seq<Id>, ghost ext: multiset<Id>)
      requires Sound(heap, notes, maxItems, ext)
      requires forall k :: 0 <= k < |kids| ==> kids[k] < |heap| && heap[kids[k]].Node?
      modifies this`heap
      ensures Sound(heap, notes, maxItems, ext + multiset(kids))
      ensures Counted(old(heap), heap, kids)
    {
      assert ext + multiset(kids[..0]) == ext;
      for i := 0 to |kids|
        invariant Sound(heap, notes, maxItems, ext + multiset(kids[..i]))
        invariant Counted(old(heap), heap, kids)
      {
        ExtSnoc(ext, kids, i);
        ghost var h := heap;
        RcFetchAdd(kids[i], ext + multiset(kids[..i]));
        CountedTrans(old(heap), h, heap, kids[i], kids);
      }
      assert kids[..|kids|] == kids;
    }

    /** Makes child `i` of `n` private: a shared child is replaced by its copy. */
    method CowChild(n: Id, i: nat, ghost ext: multiset<Id>) returns (ok: bool)
      requires Sound(heap, notes, maxItems, ext)
      requires n < |heap| && heap[n].Node? && heap[n].rc == 0 && i < |heap[n].children|
      modifies this`heap, this`notes, this`failures
      ensures Sound(heap, notes, maxItems, ext)
      ensures !ok ==> heap == old(heap) && notes == old(notes)
      ensures ok ==> Cowed(old(heap), old(notes), heap, notes, n, i)
      ensures failures == old(failures) + if !ok then 1 else 0
    {
      hide Coherent;
      var c := heap[n].children[i];
      KidsBelow(heap, notes, maxItems, n);
      if heap[c].rc == 0 {
        return true;
      }
      KidsBelow(heap, notes, maxItems, c);
      var z := NodeCopy(c, ext);
      if z.None? {
        return false;
      }
      ghost var h1 := heap;
      var node := heap[n].(children := heap[n].children[i := z.value]);
      SwapSlotSound(heap, notes, maxItems, ext, n, i, c, z.value, node);
      heap := heap[n := node];
      NodeFree(c, ext);
      CowedByCopy(old(heap), old(notes), h1, heap, notes, n, i);
      ok := true;
    }

    // ----- inserting

    /** Splits the full child `i` of `n` around its median, which moves up into `n`. */
    method SplitChild(n: Id, i: nat, ghost ext: multiset<Id>) returns (ok: bool)
      requires Sound(heap, notes, maxItems, ext) && n < |heap| && Branch(heap[n]) && heap[n].rc == 0
      requires |heap[n].items| < maxItems && i < |heap[n].children|
      requires heap[n].children[i] < |heap| && heap[heap[n].children[i]].Node?
      requires heap[heap[n].children[i]].rc == 0 && |heap[heap[n].children[i]].items| == maxItems
      modifies this`heap, this`notes, this`failures
      ensures !ok ==> heap == old(heap) && notes == old(notes)
      ensures ok ==> Sound(heap, notes, maxItems, ext) && Frame(old(heap), old(notes), heap, notes, ext, n)
      ensures ok ==> notes[n] == old(notes)[n]
      ensures ok ==> Widened(old(heap), heap, n, i, maxItems)
      ensures failures == old(failures) + if !ok then 1 else 0
    {
      var c := heap[n].children[i];
      KidsBelow(heap, notes, maxItems, n);
      var right, median := NodeSplit(c, ext);
      if right.None? {
        return false;
      }
      var items := heap[n].items[..i] + [median] + heap[n].items[i..];
      var children := heap[n].children[..i + 1] + [right.value] + heap[n].children[i + 1..];
      var node := heap[n].(items := items, children := children);
      AdoptSound(old(heap), old(notes), heap, notes, maxItems, ext, n, node, i, c, median, right.value);
      heap := heap[n := node];
      assert Adopts(old(heap)[n], heap[n], i, median, right.value);
      ok := true;
    }

    /** Moves the upper half of the full node `c` into a new node, leaving the median to the caller. */
    method NodeSplit(c: Id, ghost ext: multiset<Id>) returns (right: Option<Id>, median: Item)
      requires Sound(heap, notes, maxItems, ext) && c < |heap| && heap[c].Node? && |heap[c].items| == maxItems
      modifies this`heap, this`notes, this`failures
      ensures right.None? ==> heap == old(heap) && notes == old(notes)
      ensures right.Some? ==> right.value == |old(heap)|
      ensures right.Some? ==> SplitInto(old(heap), old(notes), heap, notes, maxItems, ext, c, median)
      ensures failures == old(failures) + if right.None? then 1 else 0
    {
      hide ReadOf;
      var mid := maxItems / 2;
      median := heap[c].items[mid];
      var ok := Malloc();
      if !ok {
        return None, median;
      }
      SplitDone(heap, notes, maxItems, ext, c, mid);
      right := Some(|heap|);
      notes := SplitNotes(heap, notes, c, mid);
      heap := heap[c := LowerHalf(heap[c], mid)] + [UpperHalf(heap[c], mid)];
    }

    /** Sets `it` below the private node `n`. A full leaf, or a full branch whose child must be
        split, hands the split to its caller. */
    method NodeSet(n: Id, it: Item, hint: array?<Octet>, depth: nat, ghost ext: multiset<Id>)
      returns (res: MutResult, prev: Option<Item>)
      requires Sound(heap, notes, maxItems, ext) && n < |heap| && heap[n].Node? && heap[n].rc == 0
      requires |heap[n].items| > 0 && (hint != null ==> hint.Length == 8)
      modifies this`heap, this`notes, hint, this`failures
      ensures Frame(old(heap), old(notes), heap, notes, ext, n)
      ensures SetDone(old(heap), old(notes), heap, notes, maxItems, ext, n, it, res, prev)
      ensures !MeetsFull(old(heap), n, it.key, maxItems) && res.MustSplit? ==> old(heap)[n].leaf
      ensures failures == old(failures) + if res.NoMem? then 1 else 0
      decreases notes[n].level, if MeetsFull(heap, n, it.key, maxItems) then 1 else 0, 2
    {
      assert Coherent(heap, notes, maxItems, n, -1);
      NodeItemsSorted(heap, notes, maxItems, n);
      var i, found := Search(heap[n].items, it.key, hint, depth);
      if found {
        prev := Some(heap[n].items[i]);
        var node := heap[n].(items := heap[n].items[i := it]);
        ReplaceDone(heap, notes, maxItems, ext, n, node, i, it);
        heap, notes := heap[n := node], Noted(notes, n, Upsert(notes[n].cont, it));
        return Replaced, prev;
      }
      if heap[n].leaf {
        if |heap[n].items| == maxItems {
          NothingDone(heap, notes, maxItems, ext, n);
          return MustSplit, None;
        }
        var items := heap[n].items[..i] + [it] + heap[n].items[i..];
        var node := heap[n].(items := items);
        InsertDone(heap, notes, maxItems, ext, n, node, i, it);
        heap, notes := heap[n := node], Noted(notes, n, Upsert(notes[n].cont, it));
        return Inserted, None;
      }
      res, prev := BranchSet(n, i, it, hint, depth, ext);
    }

    method BranchSet(n: Id, i: nat, it: Item, hint: array?<Octet>, depth: nat, ghost ext: multiset<Id>)
      returns (res: MutResult, prev: Option<Item>)
      requires AtGap(heap, notes, maxItems, ext, n, i, it.key)
      requires hint != null ==> hint.Length == 8
      modifies this`heap, this`notes, hint, this`failures
      ensures Frame(old(heap), old(notes), heap, notes, ext, n)
      ensures SetDone(old(heap), old(notes), heap, notes, maxItems, ext, n, it, res, prev)
      ensures res.MustSplit? ==> MeetsFull(old(heap), n, it.key, maxItems)
      ensures failures == old(failures) + if res.NoMem? then 1 else 0
      decreases notes[n].level, if MeetsFull(heap, n, it.key, maxItems) then 1 else 0, 1
    {
      res, prev := ChildSet(n, i, it, hint, depth, ext);
      if !res.MustSplit? || |heap[n].items| == maxItems {
        return;
      }
      ghost var h, a := heap, notes;
      assert Coherent(h, a, maxItems, n, -1);
      NodeItemsSorted(h, a, maxItems, n);
      var ok := SplitChild(n, i, ext);
      if !ok {
        return NoMem, None;
      }
      ghost var h1, a1 := heap, notes;
      SplitRetry(h, h1, a1, maxItems, ext, n, i, it.key);
      res, prev := NodeSet(n, it, hint, depth, ext);
      FrameSet(h, a, h1, a1, heap, notes, maxItems, ext, n, it, res, prev);
      FrameSet(old(heap), old(notes), h, a, heap, notes, maxItems, ext, n, it, res, prev);
    }

    method ChildSet(n: Id, i: nat, it: Item, hint: array?<Octet>, depth: nat, ghost ext: multiset<Id>)
      returns (res: MutResult, prev: Option<Item>)
      requires AtGap(heap, notes, maxItems, ext, n, i, it.key)
      requires hint != null ==> hint.Length == 8
      modifies this`heap, this`notes, hint, this`failures
      ensures Frame(old(heap), old(notes), heap, notes, ext, n)
      ensures !res.MustSplit? ==> SetDone(old(heap), old(notes), heap, notes, maxItems, ext, n, it, res, prev)
      ensures res.MustSplit? ==> ChildFull(old(heap), old(notes), heap, notes, maxItems, ext, n, i, it)
      ensures failures == old(failures) + if res.NoMem? then 1 else 0
      decreases notes[n].level, if MeetsFull(heap, n, it.key, maxItems) then 1 else 0, 0
    {
      NothingDone(heap, notes, maxItems, ext, n);
      var ok := CowChild(n, i, ext);
      if !ok {
        return NoMem, None;
      }
      ghost var h, a := heap, notes;
      CowedKeepsGap(old(heap), old(notes), h, a, maxItems, ext, n, i, it.key);
      var c := heap[n].children[i];
      assert Coherent(h, a, maxItems, n, -1);
      assert KidOk(h, a, maxItems, c, a[n].level, -1);
      res, prev := NodeSet(c, it, hint, depth + 1, ext);
      if res.MustSplit? {
        ChildFullNow(old(heap), old(notes), h, a, heap, notes, maxItems, ext, n, i, c, it);
      } else {
        if res.NoMem? {
          SetStopped(h, a, heap, notes, maxItems, ext, n, i, c, it.key);
        } else {
          SetThrough(h, a, heap, notes, maxItems, ext, n, i, c, it, res, prev);
          notes := Noted(notes, n, Upsert(a[n].cont, it));
        }
        FrameSet(old(heap), old(notes), h, a, heap, notes, maxItems, ext, n, it, res, prev);
      }
    }

    // ----- deleting

    /** Makes child `i` of `n` and the neighbour it may be rebalanced with private. */
    method CowPair(n: Id, i: nat, ghost ext: multiset<Id>) returns (ok: bool)
      requires Sound(heap, notes, maxItems, ext) && n < |heap| && Branch(heap[n]) && heap[n].rc == 0
      requires i <= |heap[n].items| && 0 < |heap[n].items|
      modifies this`heap, this`notes, this`failures
      ensures Frame(old(heap), old(notes), heap, notes, ext, n)
      ensures !ok ==> Untouched(old(heap), old(notes), heap, notes, maxItems, ext, n)
      ensures ok ==> notes[n] == old(notes)[n] && Branch(heap[n]) && heap[n].items == old(heap)[n].items
      ensures ok ==> Ready(heap, notes, maxItems, ext, n, i, heap[n].children[i])
      ensures failures == old(failures) + if !ok then 1 else 0
    {
      NothingDone(heap, notes, maxItems, ext, n);
      ok := CowChild(n, i, ext);
      if !ok {
        return;
      }
      CowedUntouched(old(heap), old(notes), heap, notes, maxItems, ext, n, i);
      ghost var h, a := heap, notes;
      ok := CowChild(n, Sibling(i, |heap[n].items|), ext);
      if ok {
        CowPairReady(old(heap), old(notes), h, a, heap, notes, maxItems, ext, n, i);
      }
    }

    /** Takes the target of `act` out below the private node `n`. */
    method NodeDelete(n: Id, act: DelAct, key: Key, hint: array?<Octet>, depth: nat, ghost ext: multiset<Id>)
      returns (res: MutResult, prev: Option<Item>)
      requires Sound(heap, notes, maxItems, ext) && n < |heap| && heap[n].Node? && heap[n].rc == 0
      requires |heap[n].items| > 0 && (hint != null ==> hint.Length == 8)
      modifies this`heap, this`notes, hint, this`failures
      ensures Frame(old(heap), old(notes), heap, notes, ext, n)
      ensures DelDone(old(heap), old(notes), heap, notes, maxItems, ext, n, act, key, res, prev)
      ensures !res.Deleted? ==> prev == None
      ensures failures == old(failures) + if res.NoMem? then 1 else 0
      decreases notes[n].level, 2
    {
      assert Coherent(heap, notes, maxItems, n, -1);
      NodeItemsSorted(heap, notes, maxItems, n);
      var i, found := 0, false;
      match act {
        case DelKey =>
          i, found := Search(heap[n].items, key, hint, depth);
        case PopMax =>
          i, found := |heap[n].items| - 1, true;
        case PopFront =>
          found := heap[n].leaf;
        case PopBack =>
          if heap[n].leaf {
            i, found := |heap[n].items| - 1, true;
          } else {
            i := |heap[n].items|;
          }
      }
      if heap[n].leaf {
        res, prev := LeafDelete(n, act, key, i, found, ext);
      } else if found && act.DelKey? {
        res, prev := BranchDelete(n, i, key, hint, depth, ext);
      } else {
        if found {
          i := i + 1;
        }
        res, prev := BranchDescend(n, i, act, key, hint, depth, ext);
      }
    }

    method LeafDelete(n: Id, act: DelAct, key: Key, i: nat, found: bool, ghost ext: multiset<Id>)
      returns (res: MutResult, prev: Option<Item>)
      requires Sound(heap, notes, maxItems, ext) && n < |heap| && heap[n].Node? && heap[n].leaf && |heap[n].items| > 0
      requires match act
               case DelKey => SearchedAt(heap[n].items, key, i, found)
               case PopFront => i == 0 && found
               case PopBack => i == |heap[n].items| - 1 && found
               case PopMax => i == |heap[n].items| - 1 && found
      modifies this`heap, this`notes
      ensures Frame(old(heap), old(notes), heap, notes, ext, n)
      ensures DelDone(old(heap), old(notes), heap, notes, maxItems, ext, n, act, key, res, prev)
      ensures if found then res.Deleted? else res.NoChange?
      ensures !res.Deleted? ==> prev == None
    {
      if !found {
        LeafNoChange(heap, notes, maxItems, ext, n, i, key);
        return NoChange, None;
      }
      prev := Some(heap[n].items[i]);
      var node := heap[n].(items := RemoveAt(heap[n].items, i));
      LeafDeleteDone(heap, notes, maxItems, ext, n, node, i, act, key);
      heap, notes := heap[n := node], Noted(notes, n, node.items);
      res := Deleted;
    }

    /** The target lies below child `i`. */
    method BranchDescend(n: Id, i: nat, act: DelAct, key: Key, hint: array?<Octet>, depth: nat, ghost ext: multiset<Id>)
      returns (res: MutResult, prev: Option<Item>)
      requires Sound(heap, notes, maxItems, ext) && n < |heap| && Branch(heap[n]) && heap[n].rc == 0
      requires |heap[n].items| > 0 && (hint != null ==> hint.Length == 8)
      requires i <= |heap[n].items| && Leads(heap[n].items, act, key, i)
      modifies this`heap, this`notes, hint, this`failures
      ensures Frame(old(heap), old(notes), heap, notes, ext, n)
      ensures DelDone(old(heap), old(notes), heap, notes, maxItems, ext, n, act, key, res, prev)
      ensures !res.Deleted? ==> prev == None
      ensures failures == old(failures) + if res.NoMem? then 1 else 0
      decreases notes[n].level, 1
    {
      var ok := CowPair(n, i, ext);
      if !ok {
        return NoMem, None;
      }
      ghost var h1, a1 := heap, notes;
      res, prev := DescendReady(n, i, heap[n].children[i], act, key, hint, depth, ext);
      DeleteAfterCow(old(heap), old(notes), h1, a1, heap, notes, maxItems, ext, n, act, key, res, prev);
    }

    /** Child `i` and its neighbour are private. */
    method DescendReady(n: Id, i: nat, c: Id, act: DelAct, key: Key, hint: array?<Octet>, depth: nat, ghost ext: multiset<Id>)
      returns (res: MutResult, prev: Option<Item>)
      requires Ready(heap, notes, maxItems, ext, n, i, c) && n < |heap| && n < |notes| && heap[n].Node?
      requires Leads(heap[n].items, act, key, i) && (hint != null ==> hint.Length == 8)
      modifies this`heap, this`notes, hint, this`failures
      ensures Frame(old(heap), old(notes), heap, notes, ext, n)
      ensures DelDone(old(heap), old(notes), heap, notes, maxItems, ext, n, act, key, res, prev)
      ensures !res.Deleted? ==> prev == None
      ensures failures == old(failures) + if res.NoMem? then 1 else 0
      decreases notes[n].level, 0
    {
      hide Coherent, LeftOf, RightOf, Frame, DelDone, Leads, Sound, TookOut, Sibling, Capacity;
      ReadyFacts(heap, notes, maxItems, ext, n, i, c);
      ghost var h1, a1 := heap, notes;
      res, prev := NodeDelete(c, act, key, hint, depth + 1, ext);
      DeletedBelow(h1, a1, heap, notes, maxItems, ext, n, i, c, act, key, res, prev);
      if res.Deleted? {
        DescendNote(n, i, c, act, key, prev, ext, h1, a1);
      }
    }

    /** The child has given its item up. */
    method DescendNote(n: Id, i: nat, c: Id, ghost act: DelAct, ghost key: Key, ghost prev: Option<Item>,
                       ghost ext: multiset<Id>, ghost h1: Heap, ghost a1: Notes)
      requires Ready(h1, a1, maxItems, ext, n, i, c) && n < |h1| && n < |a1| && h1[n].Node? && Leads(h1[n].items, act, key, i)
      requires Frame(h1, a1, heap, notes, ext, c) && c < |heap| && c < |notes| && heap[c].Node?
      requires DelDone(h1, a1, heap, notes, maxItems, ext, c, act, key, Deleted, prev)
      requires i <= |h1[n].children| && forall k :: 0 <= k < |h1[n].children| ==> h1[n].children[k] < |a1|
      modifies this`heap, this`notes
      ensures Frame(h1, a1, heap, notes, ext, n)
      ensures DelDone(h1, a1, heap, notes, maxItems, ext, n, act, key, Deleted, prev)
    {
      ghost var h2, a2 := heap, notes;
      ghost var u := if |heap[c].items| < maxItems / 2 then c as int else -1;
      ghost var cont := LeftOf(h1[n], a1, i) + a2[c].cont + RightOf(h1[n], a1, i);
      DeleteThrough(h1, a1, h2, a2, maxItems, ext, n, i, c, act, key, prev, u, cont);
      notes := Noted(notes, n, cont);
      RestoreChild(n, i, c, act, key, prev, ext, h1, a1, h2, a2);
    }

    /** The key is item `i` of a branch: the greatest item below child `i` takes its place. */
    method BranchDelete(n: Id, i: nat, key: Key, hint: array?<Octet>, depth: nat, ghost ext: multiset<Id>)
      returns (res: MutResult, prev: Option<Item>)
      requires Sound(heap, notes, maxItems, ext) && n < |heap| && Branch(heap[n]) && heap[n].rc == 0
      requires i < |heap[n].items| && heap[n].items[i].key == key && (hint != null ==> hint.Length == 8)
      modifies this`heap, this`notes, hint, this`failures
      ensures Frame(old(heap), old(notes), heap, notes, ext, n)
      ensures DelDone(old(heap), old(notes), heap, notes, maxItems, ext, n, DelKey, key, res, prev)
      ensures !res.Deleted? ==> prev == None
      ensures failures == old(failures) + if res.NoMem? then 1 else 0
      decreases notes[n].level, 1
    {
      var ok := CowPair(n, i, ext);
      if !ok {
        return NoMem, None;
      }
      ghost var h1, a1 := heap, notes;
      res, prev := ReplaceReady(n, i, heap[n].children[i], key, hint, depth, ext);
      DeleteAfterCow(old(heap), old(notes), h1, a1, heap, notes, maxItems, ext, n, DelKey, key, res, prev);
    }

    /** Child `i` and its neighbour are private. */
    method ReplaceReady(n: Id, i: nat, c: Id, key: Key, hint: array?<Octet>, depth: nat, ghost ext: multiset<Id>)
      returns (res: MutResult, prev: Option<Item>)
      requires Ready(heap, notes, maxItems, ext, n, i, c) && n < |heap| && n < |notes| && heap[n].Node?
      requires i < |heap[n].items| && heap[n].items[i].key == key && (hint != null ==> hint.Length == 8)
      modifies this`heap, this`notes, hint, this`failures
      ensures Frame(old(heap), old(notes), heap, notes, ext, n)
      ensures DelDone(old(heap), old(notes), heap, notes, maxItems, ext, n, DelKey, key, res, prev)
      ensures !res.Deleted? ==> prev == None
      ensures failures == old(failures) + if res.NoMem? then 1 else 0
      decreases notes[n].level, 0
    {
      hide Coherent, LeftOf, RightOf, Frame, DelDone, Sound, TookOut, Sibling, Capacity;
      ReadyFacts(heap, notes, maxItems, ext, n, i, c);
      ghost var h1, a1 := heap, notes;
      var branch, item, popped := heap[n], heap[n].items[i], None;
      res, popped := NodeDelete(c, PopMax, key, hint, depth + 1, ext);
      PoppedBelow(h1, a1, heap, notes, maxItems, ext, n, i, c, key, res, popped);
      if res.NoMem? {
        return NoMem, None;
      }
      prev := Some(item);
      ReplaceNote(n, i, c, branch, popped.value, item, ext, h1, a1);
    }

    /** The child has given its greatest item up, which now replaces item `i` of `n`. */
    method ReplaceNote(n: Id, i: nat, c: Id, branch: Node, popped: Item, ghost item: Item, ghost ext: multiset<Id>,
                       ghost h1: Heap, ghost a1: Notes)
      requires Ready(h1, a1, maxItems, ext, n, i, c) && n < |h1| && n < |a1| && h1[n] == branch && branch.Node?
      requires i < |branch.items| && item == branch.items[i]
      requires Frame(h1, a1, heap, notes, ext, c) && c < |heap| && c < |notes| && heap[c].Node? && n < |heap| && n < |notes|
      requires DelDone(h1, a1, heap, notes, maxItems, ext, c, PopMax, item.key, Deleted, Some(popped))
      modifies this`heap, this`notes
      ensures Frame(h1, a1, heap, notes, ext, n)
      ensures DelDone(h1, a1, heap, notes, maxItems, ext, n, DelKey, item.key, Deleted, Some(item))
    {
      hide Coherent, Frame, DelDone, Sound, TookOut, Sibling, Capacity, Without, Ready;
      ghost var h2, a2 := heap, notes;
      ghost var u := if |heap[c].items| < maxItems / 2 then c as int else -1;
      ghost var cont := Without(a1[n].cont, item.key);
      var node := branch.(items := branch.items[i := popped]);
      DeleteSwap(h1, a1, h2, a2, maxItems, ext, n, i, c, popped, node, u, item, cont);
      heap, notes := heap[n := node], Noted(notes, n, cont);
      RestoreChild(n, i, c, DelKey, item.key, Some(item), ext, h1, a1, h2, a2);
    }

    /** The child has given its item up and `n` has noted it; a short child is rebalanced. */
    method RestoreChild(n: Id, i: nat, c: Id, ghost act: DelAct, ghost key: Key, ghost prev: Option<Item>,
                        ghost ext: multiset<Id>, ghost h1: Heap, ghost a1: Notes, ghost h2: Heap, ghost a2: Notes)
      requires GaveUp(h1, a1, h2, a2, heap, notes, maxItems, ext, n, i, c) && n < |a1| && n < |notes|
      requires TookOut(a1[n].cont, act, key, notes[n].cont, prev)
      modifies this`heap, this`notes
      ensures Frame(h1, a1, heap, notes, ext, n)
      ensures DelDone(h1, a1, heap, notes, maxItems, ext, n, act, key, Deleted, prev)
    {
      GaveUpDone(h1, a1, h2, a2, heap, notes, maxItems, ext, n, i, c, act, key, prev);
      var minItems := maxItems / 2;
      if |heap[c].items| < minItems {
        ghost var h3, a3 := heap, notes;
        GaveUpShort(h1, a1, h2, a2, h3, a3, maxItems, ext, n, i, c, if i == |heap[n].items| then i - 1 else i);
        Rebalance(n, i, ext);
        RebalancedDone(h1, a1, h3, a3, heap, notes, maxItems, ext, n, act, key, prev);
      }
    }

    /** Restores the occupancy of child `i` of `n`, one short, with the help of its neighbour. */
    method Rebalance(n: Id, i: nat, ghost ext: multiset<Id>)
      requires n < |heap| && Branch(heap[n]) && i <= |heap[n].items| && 0 < |heap[n].items|
      requires var j := if i == |heap[n].items| then i - 1 else i;
               Pair(heap, notes, maxItems, ext, n, j, heap[n].children[j], heap[n].children[j + 1], heap[n].children[i])
      modifies this`heap, this`notes
      ensures Rebalanced(old(heap), old(notes), heap, notes, maxItems, ext, n)
    {
      var j := if i == |heap[n].items| then i - 1 else i;
      var l, r := heap[n].children[j], heap[n].children[j + 1];
      PairFacts(heap, notes, maxItems, ext, n, j, l, r, heap[n].children[i]);
      if |heap[l].items| + |heap[r].items| < maxItems {
        MergeChildren(n, j, l, r, ext, heap[n].children[i]);
      } else if |heap[l].items| > |heap[r].items| {
        ShiftRight(n, j, l, r, ext, heap[n].children[i]);
      } else {
        ShiftLeft(n, j, l, r, ext, heap[n].children[i]);
      }
    }

    /** The left child takes item `j` and everything of the right child, which is freed. */
    method MergeChildren(n: Id, j: nat, l: Id, r: Id, ghost ext: multiset<Id>, ghost u: Id)
      requires Pair(heap, notes, maxItems, ext, n, j, l, r, u) && |heap[l].items| + |heap[r].items| < maxItems
      modifies this`heap, this`notes
      ensures Rebalanced(old(heap), old(notes), heap, notes, maxItems, ext, n)
    {
      var node := heap[n].(items := RemoveAt(heap[n].items, j), children := RemoveAt(heap[n].children, j + 1));
      var joined := Join(heap[l], heap[n].items[j], heap[r]);
      ghost var a := notes[l := Note(notes[l].level,
                                     ReadOf(heap[l], notes) + [heap[n].items[j]] + ReadOf(heap[r], notes))];
      var h := heap[l := joined][r := Free][n := node];
      MergeSound(heap, notes, maxItems, ext, n, j, l, r, u, joined, node, h, a);
      heap, notes := h, a;
    }

    /** The last item of the left child moves up, item `j` moves down into the right child. */
    method ShiftRight(n: Id, j: nat, l: Id, r: Id, ghost ext: multiset<Id>, ghost u: Id)
      requires Pair(heap, notes, maxItems, ext, n, j, l, r, u)
      requires maxItems <= |heap[l].items| + |heap[r].items| && |heap[l].items| > |heap[r].items|
      modifies this`heap, this`notes
      ensures Rebalanced(old(heap), old(notes), heap, notes, maxItems, ext, n)
    {
      PairFacts(heap, notes, maxItems, ext, n, j, l, r, u);
      var left, right, down := heap[l], heap[r], heap[n].items[j];
      var kids := if left.leaf then [] else [left.children[|left.items|]];
      ShiftRightFits(left, down, right, maxItems, kids);
      ShiftRightReads(left, down, right, notes, kids);
      RotateChildren(n, j, l, r, ext, u,
                     ShrunkLast(left), left.items[|left.items| - 1], GrownFirst(down, right, kids));
    }

    /** Item `j` moves down into the left child, the first item of the right child moves up. */
    method ShiftLeft(n: Id, j: nat, l: Id, r: Id, ghost ext: multiset<Id>, ghost u: Id)
      requires Pair(heap, notes, maxItems, ext, n, j, l, r, u)
      requires maxItems <= |heap[l].items| + |heap[r].items| && |heap[l].items| <= |heap[r].items|
      modifies this`heap, this`notes
      ensures Rebalanced(old(heap), old(notes), heap, notes, maxItems, ext, n)
    {
      PairFacts(heap, notes, maxItems, ext, n, j, l, r, u);
      var left, right, down := heap[l], heap[r], heap[n].items[j];
      var kids := if right.leaf then [] else [right.children[0]];
      ShiftLeftFits(left, down, right, maxItems, kids);
      ShiftLeftReads(left, down, right, notes, kids);
      RotateChildren(n, j, l, r, ext, u, GrownLast(left, down, kids), right.items[0], ShrunkFirst(right));
    }

    method RotateChildren(n: Id, j: nat, l: Id, r: Id, ghost ext: multiset<Id>, ghost u: Id,
                          left: Node, up: Item, right: Node)
      requires Pair(heap, notes, maxItems, ext, n, j, l, r, u)
      requires Rotated(heap[l], heap[n].items[j], heap[r], left, up, right, maxItems)
      requires ReadOf(heap[l], notes) + [heap[n].items[j]] + ReadOf(heap[r], notes)
            == ReadOf(left, notes) + [up] + ReadOf(right, notes)
      modifies this`heap, this`notes
      ensures Rebalanced(old(heap), old(notes), heap, notes, maxItems, ext, n)
    {
      var node := heap[n].(items := heap[n].items[j := up]);
      ghost var a := notes[l := Note(notes[l].level, ReadOf(left, notes))]
                          [r := Note(notes[r].level, ReadOf(right, notes))];
      var h := heap[l := left][r := right][n := node];
      RotateSound(heap, notes, maxItems, ext, n, j, l, r, u, left, up, right, node, h, a);
      heap, notes := h, a;
    }

    // ----- whole trees

    method NewTree() returns (t: Option<nat>)
      requires Valid()
      modifies this`trees, this`failures
      ensures Valid()
      ensures t.None? ==> trees == old(trees)
      ensures t.Some? ==> t.value == |old(trees)| && |trees| == |old(trees)| + 1
      ensures t.Some? ==> trees[t.value].Tree? && Contents(t.value) == []
      ensures OthersKept(old(trees), old(heap), trees, heap, |old(trees)|)
      ensures failures == old(failures) + if t.None? then 1 else 0
    {
      var ok := Malloc();
      if !ok {
        return None;
      }
      var tree := Tree(None, 0, 0, false);
      NoRoot(trees, tree);
      AppendStep(trees, heap, notes, heap, maxItems, tree);
      t := Some(|trees|);
      trees := trees + [tree];
    }

    /** An instant copy: the new handle shares the root. */
    method Clone(t: nat) returns (u: Option<nat>)
      requires Valid() && t < |trees| && trees[t].Tree?
      modifies this`heap, this`trees, this`failures
      ensures Valid()
      ensures u.None? ==> trees == old(trees) && heap == old(heap)
      ensures u.Some? ==> u.value == |old(trees)| && |trees| == |old(trees)| + 1
      ensures u.Some? ==> trees[u.value].Tree? && Contents(u.value) == old(Contents(t))
      ensures OthersKept(old(trees), old(heap), trees, heap, |old(trees)|)
      ensures failures == old(failures) + if u.None? then 1 else 0
    {
      var ok := Malloc();
      if !ok {
        return None;
      }
      assert TreeOk(trees[t], heap, notes);
      hide *;
      ViewIsNoted(trees, heap, notes, maxItems, t);
      if trees[t].root.Some? {
        RcFetchAdd(trees[t].root.value, Roots(trees));
      } else {
        NoRoot(trees, trees[t]);
      }
      AppendStep(trees, old(heap), notes, heap, maxItems, trees[t]);
      u := Some(|trees|);
      trees := trees + [trees[t]];
    }

    /** Drops every item of tree `t`. */
    method Clear(t: nat)
      requires Valid() && t < |trees| && trees[t].Tree?
      modifies this`heap, this`trees
      ensures Valid() && |trees| == |old(trees)| && trees[t] == Tree(None, 0, 0, false)
      ensures Contents(t) == [] && OthersKept(old(trees), old(heap), trees, heap, t)
    {
      RootApart(trees, heap, notes, maxItems, t);
      if trees[t].root.Some? {
        NodeFree(trees[t].root.value, Roots(trees[t := Gone]));
      }
      ClearStep(trees, old(heap), notes, heap, maxItems, t, Tree(None, 0, 0, false));
      trees := trees[t := Tree(None, 0, 0, false)];
    }

    /** Drops tree `t` and its handle. */
    method FreeTree(t: nat)
      requires Valid() && t < |trees| && trees[t].Tree?
      modifies this`heap, this`trees
      ensures Valid() && |trees| == |old(trees)| && trees[t] == Gone
      ensures OthersKept(old(trees), old(heap), trees, heap, t)
    {
      Clear(t);
      ghost var ts := trees;
      RootsSplit(trees, t);
      NoRoot(trees[t := Gone], trees[t]);
      ClearStep(trees, heap, notes, heap, maxItems, t, Gone);
      trees := trees[t := Gone];
      OthersTrans(old(trees), old(heap), ts, heap, trees, heap, t);
    }

    // ----- setting an item

    /** Makes the root of tree `t` private. */
    method CowRoot(t: nat) returns (ok: bool)
      requires Valid() && t < |trees| && trees[t].Tree? && trees[t].root.Some?
      modifies this`heap, this`notes, this`trees, this`failures
      ensures Valid() && Quiet(old(trees), old(heap), trees, heap, t)
      ensures trees[t] == old(trees)[t].(root := trees[t].root) && PrivateRoot(trees[t], heap, ok)
      ensures failures == old(failures) + if !ok then 1 else 0
    {
      hide Roots;
      var r := trees[t].root.value;
      RootLive(trees, heap, notes, maxItems, t, r);
      if heap[r].rc == 0 {
        return true;
      }
      var z := NodeCopy(r, Roots(trees));
      if z.None? {
        return false;
      }
      ghost var h1 := heap;
      RootReplaced(trees, t, r, z.value);
      var tree := trees[t].(root := z);
      NodeFree(r, Roots(trees[t := tree]));
      CowRootStep(trees, old(heap), old(notes), h1, heap, maxItems, t, r, tree);
      trees := trees[t := tree];
      ok := true;
    }

    /** Splits the full private root of tree `t` below a new root. */
    method GrowRoot(t: nat, ghost key: Key) returns (ok: bool)
      requires Valid() && t < |trees| && trees[t].Tree? && PrivateRoot(trees[t], heap, true)
      requires |heap[trees[t].root.value].items| == maxItems
      modifies this`heap, this`notes, this`trees, this`failures
      ensures Valid() && Quiet(old(trees), old(heap), trees, heap, t)
      ensures PrivateRoot(trees[t], heap, true) && trees[t].oom == old(trees)[t].oom
      ensures ok ==> !heap[trees[t].root.value].leaf && !MeetsFull(heap, trees[t].root.value, key, maxItems)
      ensures failures == old(failures) + if !ok then 1 else 0
    {
      hide Roots, RootOf, View, Branch, MeetsFull, Has, TreeOk;
      assert TreeOk(trees[t], heap, notes);
      var n := trees[t].root.value;
      ok := Malloc();
      if !ok {
        return;
      }
      var right, median := NodeSplit(n, Roots(trees));
      if right.None? {
        return false;
      }
      hide *;
      var root := Node(0, false, [median], [n, right.value]);
      var tree := trees[t].(root := Some(|heap|), height := trees[t].height + 1);
      GrowStep(trees, old(heap), old(notes), heap, notes, maxItems, t, n, median, root, tree, key);
      notes := notes + [Note(old(notes)[n].level + 1, old(notes)[n].cont)];
      heap := heap + [root];
      trees := trees[t := tree];
    }

    /** One attempt to set `it` in tree `t`. */
    method SetAtRoot(t: nat, it: Item, hint: array?<Octet>) returns (res: MutResult, prev: Option<Item>)
      requires Valid() && t < |trees| && trees[t].Tree? && PrivateRoot(trees[t], heap, true)
      requires hint != null ==> hint.Length == 8
      modifies this`heap, this`notes, this`trees, hint, this`failures
      ensures Valid() && |trees| == |old(trees)| && trees[t].Tree? && trees[t].oom == old(trees)[t].oom
      ensures PrivateRoot(trees[t], heap, true)
      ensures res.NoMem? || res.MustSplit? ==> Quiet(old(trees), old(heap), trees, heap, t)
      ensures res.MustSplit? ==> |heap[trees[t].root.value].items| == maxItems
      ensures res.MustSplit? ==> var n := old(trees)[t].root.value;
                                 old(heap)[n].leaf || MeetsFull(old(heap), n, it.key, maxItems)
      ensures !res.NoMem? && !res.MustSplit? ==>
                SetShown(old(trees), old(heap), trees, heap, t, it, prev)
      ensures failures == old(failures) + if res.NoMem? then 1 else 0
    {
      assert TreeOk(trees[t], heap, notes);
      RootHeld(trees, t);
      var n := trees[t].root.value;
      res, prev := NodeSet(n, it, hint, 0, Roots(trees));
      var tree := if res.Inserted? then trees[t].(count := trees[t].count + 1) else trees[t];
      SetCounted(trees, old(heap), old(notes), heap, notes, maxItems, t, n, it, res, prev, tree);
      trees := trees[t := tree];
    }

    /** Inserts or replaces an item of tree `t` and returns the item it replaced. When memory runs
        out the tree keeps its items and is flagged. */
    method Set(t: nat, it: Item, hint: array?<Octet>) returns (prev: Option<Item>)
      requires Valid() && t < |trees| && trees[t].Tree? && (hint != null ==> hint.Length == 8)
      modifies this`heap, this`notes, this`trees, hint, this`failures
      ensures Valid() && |trees| == |old(trees)| && trees[t].Tree?
      ensures OthersKept(old(trees), old(heap), trees, heap, t)
      ensures trees[t].oom ==> prev == None && Contents(t) == old(Contents(t)) && trees[t].count == old(trees)[t].count
      ensures !trees[t].oom ==> Contents(t) == Upsert(old(Contents(t)), it) && prev == Lookup(old(Contents(t)), it.key)
      ensures failures == old(failures) + if trees[t].oom then 1 else 0
    {
      prev := Set0(t, it, hint);
    }

    method Set0(t: nat, it: Item, hint: array?<Octet>) returns (prev: Option<Item>)
      requires Valid() && t < |trees| && trees[t].Tree? && (hint != null ==> hint.Length == 8)
      modifies this`heap, this`notes, this`trees, hint, this`failures
      ensures Valid() && |trees| == |old(trees)| && trees[t].Tree?
      ensures trees[t].oom ==> Quiet(old(trees), old(heap), trees, heap, t) && prev == None
      ensures !trees[t].oom ==> SetShown(old(trees), old(heap), trees, heap, t, it, prev)
      ensures failures == old(failures) + if trees[t].oom then 1 else 0
    {
      hide *;
      SetFlag(t, false);
      ghost var ts := trees;
      if trees[t].root.None? {
        prev := SetFirst(t, it);
        if trees[t].oom {
          QuietTrans(old(trees), old(heap), ts, old(heap), trees, heap, t);
        } else {
          SetAfterQuiet(old(trees), old(heap), ts, old(heap), trees, heap, t, it, prev, Inserted);
        }
        return;
      }
      var ok := CowRoot(t);
      QuietTrans(old(trees), old(heap), ts, old(heap), trees, heap, t);
      ghost var ts1, h1 := trees, heap;
      if ok {
        prev := SetInPrivate(t, it, hint);
        if trees[t].oom {
          QuietTrans(old(trees), old(heap), ts1, h1, trees, heap, t);
        } else {
          SetAfterQuiet(old(trees), old(heap), ts1, h1, trees, heap, t, it, prev, Inserted);
        }
      } else {
        prev := None;
        SetFlag(t, true);
        QuietTrans(old(trees), old(heap), ts1, h1, trees, heap, t);
      }
    }

    method SetFlag(t: nat, oom: bool)
      requires Valid() && t < |trees| && trees[t].Tree?
      modifies this`trees
      ensures Valid() && Quiet(old(trees), old(heap), trees, heap, t)
      ensures trees[t] == old(trees)[t].(oom := oom)
    {
      FlagStep(trees, heap, notes, maxItems, t, oom);
      trees := trees[t := trees[t].(oom := oom)];
    }

    method SetFirst(t: nat, it: Item) returns (prev: Option<Item>)
      requires Valid() && t < |trees| && trees[t].Tree? && trees[t].root.None? && !trees[t].oom
      modifies this`heap, this`notes, this`trees, this`failures
      ensures Valid() && |trees| == |old(trees)| && trees[t].Tree? && prev == None
      ensures trees[t].oom ==> Quiet(old(trees), old(heap), trees, heap, t)
      ensures !trees[t].oom ==> SetShown(old(trees), old(heap), trees, heap, t, it, prev)
      ensures failures == old(failures) + if trees[t].oom then 1 else 0
    {
      prev := None;
      assert TreeOk(trees[t], heap, notes);
      var ok := Malloc();
      if !ok {
        SetFlag(t, true);
        return;
      }
      var tree := trees[t].(root := Some(|heap|), count := trees[t].count + 1, height := trees[t].height + 1);
      FirstStep(trees, heap, notes, maxItems, t, it, tree);
      UpsertEmpty(it);
      heap, notes := heap + [Node(0, true, [it], [])], notes + [Note(1, [it])];
      trees := trees[t := tree];
    }

    /** Retries after splitting the root; a root just split never asks for another split. */
    method SetInPrivate(t: nat, it: Item, hint: array?<Octet>) returns (prev: Option<Item>)
      requires Valid() && t < |trees| && trees[t].Tree? && PrivateRoot(trees[t], heap, true) && !trees[t].oom
      requires hint != null ==> hint.Length == 8
      modifies this`heap, this`notes, this`trees, hint, this`failures
      ensures Valid() && |trees| == |old(trees)| && trees[t].Tree?
      ensures trees[t].oom ==> Quiet(old(trees), old(heap), trees, heap, t) && prev == None
      ensures !trees[t].oom ==> SetShown(old(trees), old(heap), trees, heap, t, it, prev)
      ensures failures == old(failures) + if trees[t].oom then 1 else 0
    {
      hide FamilyOk;
      var res := MustSplit;
      prev := None;
      FlagStep(trees, heap, notes, maxItems, t, false);
      while res.MustSplit?
        invariant Valid() && |trees| == |old(trees)| && trees[t].Tree? && !trees[t].oom
        invariant res.MustSplit? ==> PrivateRoot(trees[t], heap, true)
        invariant res.MustSplit? || res.NoMem? ==> Quiet(old(trees), old(heap), trees, heap, t)
        invariant !res.MustSplit? && !res.NoMem? ==> SetShown(old(trees), old(heap), trees, heap, t, it, prev)
        invariant failures == old(failures) + if res.NoMem? then 1 else 0
        decreases if !res.MustSplit? then 0 else 1 + RootSplits(trees[t], heap, it.key, maxItems)
      {
        ghost var ts, h := trees, heap;
        res, prev := SetAtRoot(t, it, hint);
        SetAfterQuiet(old(trees), old(heap), ts, h, trees, heap, t, it, prev, res);
        if res.MustSplit? {
          ghost var ts1, h1 := trees, heap;
          var ok := GrowRoot(t, it.key);
          QuietTrans(old(trees), old(heap), ts1, h1, trees, heap, t);
          if !ok {
            res := NoMem;
          }
        }
      }
      if res.NoMem? {
        ghost var ts := trees;
        SetFlag(t, true);
        QuietTrans(old(trees), old(heap), ts, heap, trees, heap, t);
        prev := None;
      }
    }

    // ----- deleting an item

    /** Takes the target of `act` out of tree `t` and returns it. When memory runs out the tree
        keeps its items and is flagged. */
    method Delete(t: nat, act: DelAct, key: Key, hint: array?<Octet>) returns (prev: Option<Item>)
      requires Valid() && t < |trees| && trees[t].Tree? && (hint != null ==> hint.Length == 8)
      modifies this`heap, this`notes, this`trees, hint, this`failures
      ensures Valid() && |trees| == |old(trees)| && trees[t].Tree?
      ensures trees[t].oom ==> Quiet(old(trees), old(heap), trees, heap, t) && prev == None
      ensures !trees[t].oom ==> DelShown(old(trees), old(heap), trees, heap, t, act, key, prev)
      ensures failures == old(failures) + if trees[t].oom then 1 else 0
    {
      SetFlag(t, false);
      if trees[t].root.None? {
        TakenEmpty(act, key);
        return None;
      }
      ghost var ts := trees;
      var ok := CowRoot(t);
      QuietTrans(old(trees), old(heap), ts, old(heap), trees, heap, t);
      ghost var ts1, h1 := trees, heap;
      var res;
      if ok {
        res, prev := DeleteAtRoot(t, act, key, hint);
      } else {
        res, prev := NoMem, None;
      }
      if res.NoMem? {
        ghost var ts2, h2 := trees, heap;
        SetFlag(t, true);
        if ok {
          QuietTrans(old(trees), old(heap), ts1, h1, ts2, h2, t);
        }
        QuietTrans(old(trees), old(heap), ts2, h2, trees, heap, t);
      } else {
        DelAfterQuiet(old(trees), old(heap), ts1, h1, trees, heap, t, act, key, prev);
      }
    }

    method DeleteAtRoot(t: nat, act: DelAct, key: Key, hint: array?<Octet>)
      returns (res: MutResult, prev: Option<Item>)
      requires Valid() && t < |trees| && trees[t].Tree? && PrivateRoot(trees[t], heap, true) && !trees[t].oom
      requires hint != null ==> hint.Length == 8
      modifies this`heap, this`notes, this`trees, hint, this`failures
      ensures Valid() && |trees| == |old(trees)| && trees[t].Tree? && !trees[t].oom
      ensures res.NoMem? ==> Quiet(old(trees), old(heap), trees, heap, t) && prev == None
      ensures !res.NoMem? ==> DelShown(old(trees), old(heap), trees, heap, t, act, key, prev)
      ensures failures == old(failures) + if res.NoMem? then 1 else 0
    {
      assert TreeOk(trees[t], heap, notes);
      var n := trees[t].root.value;
      res, prev := NodeDelete(n, act, key, hint, 0, Roots(trees));
      if !res.Deleted? {
        DelNothing(trees, old(heap), old(notes), heap, notes, maxItems, t, n, act, key, res);
        return;
      }
      var root := heap[n];
      var tree := AfterDelete(trees[t], root);
      ghost var h1 := heap;
      if |root.items| == 0 {
        heap := heap[n := Free];
      }
      DelCounted(trees, old(heap), old(notes), h1, notes, maxItems, t, n, act, key, prev, tree, heap);
      trees := trees[t := tree];
    }

    // ----- the fast paths

    /** Walks down the first or the last children of tree `t`, making each node private. */
    method DescendEdge(t: nat, front: bool) returns (ok: bool, node: Id, ghost path: seq<Id>)
      requires Valid() && t < |trees| && trees[t].Tree? && PrivateRoot(trees[t], heap, true)
      modifies this`heap, this`notes, this`failures
      ensures Valid() && Quiet(old(trees), old(heap), trees, heap, t)
      ensures ok ==> |heap| == |notes| && EdgePath(heap, notes, path, front) && trees[t].root == Some(path[0])
      ensures ok ==> node == path[|path| - 1] && heap[node].leaf
      ensures failures == old(failures) + if !ok then 1 else 0
    {
      hide EdgeStep, Ready, OthersKept, Sorted, RootOf, Coherent, Shaped, Roots, View, Reads;
      FlagStep(trees, heap, notes, maxItems, t, trees[t].oom);
      assert trees[t := trees[t].(oom := trees[t].oom)] == trees;
      node, ok, path := trees[t].root.value, true, [trees[t].root.value];
      PathStart(trees, heap, notes, maxItems, t, node, front);
      while ok && !heap[node].leaf
        invariant Valid() && Quiet(old(trees), old(heap), trees, heap, t) && node < |heap| && heap[node].Node?
        invariant ok ==> EdgePath(heap, notes, path, front) && trees[t].root == Some(path[0])
        invariant ok ==> node == path[|path| - 1]
        invariant failures == old(failures) + if ok then 0 else 1
        decreases ok, notes[node].level
      {
        PathEnd(trees, heap, notes, maxItems, t, path, front);
        ghost var h, a := heap, notes;
        var slot := EdgeSlot(heap[node], front);
        ok := CowChild(node, slot, Roots(trees));
        if ok {
          CowedFamily(trees, h, a, heap, notes, maxItems, t, node, slot);
          QuietTrans(old(trees), old(heap), trees, h, trees, heap, t);
          assert Coherent(h, a, maxItems, node, -1) && Coherent(heap, notes, maxItems, node, -1);
          var child := heap[node].children[slot];
          PathCowed(h, a, heap, notes, maxItems, path, front, node, child);
          node, path := child, path + [child];
        }
      }
    }

    /** Pops the first or the last item of tree `t`: from the edge leaf alone when it can spare one,
        through the general deletion otherwise. */
    method Pop(t: nat, front: bool) returns (prev: Option<Item>)
      requires Valid() && t < |trees| && trees[t].Tree?
      modifies this`heap, this`notes, this`trees, this`failures
      ensures Valid() && |trees| == |old(trees)| && trees[t].Tree?
      ensures trees[t].oom ==> Quiet(old(trees), old(heap), trees, heap, t) && prev == None
      ensures !trees[t].oom ==>
                DelShown(old(trees), old(heap), trees, heap, t, if front then PopFront else PopBack, [], prev)
      ensures failures == old(failures) + if trees[t].oom then 1 else 0
    {
      hide *;
      SetFlag(t, false);
      if trees[t].root.Some? {
        ghost var ts := trees;
        var ok := CowRoot(t);
        QuietTrans(old(trees), old(heap), ts, old(heap), trees, heap, t);
        var done := false;
        if ok {
          ghost var ts1, h1 := trees, heap;
          done, ok, prev := PopFromLeaf(t, front);
          if done {
            DelAfterQuiet(old(trees), old(heap), ts1, h1, trees, heap, t, if front then PopFront else PopBack, [], prev);
            return;
          }
          QuietTrans(old(trees), old(heap), ts1, h1, trees, heap, t);
        }
        if !ok {
          ghost var ts2 := trees;
          SetFlag(t, true);
          QuietTrans(old(trees), old(heap), ts2, heap, trees, heap, t);
          return None;
        }
      }
      ghost var ts3, h3 := trees, heap;
      prev := Delete(t, if front then PopFront else PopBack, [], null);
      if trees[t].oom {
        QuietTrans(old(trees), old(heap), ts3, h3, trees, heap, t);
      } else {
        DelAfterQuiet(old(trees), old(heap), ts3, h3, trees, heap, t, if front then PopFront else PopBack, [], prev);
      }
    }

    /** The fast path of `Pop`: `done` if the edge leaf gave the item up. */
    method PopFromLeaf(t: nat, front: bool) returns (done: bool, ok: bool, prev: Option<Item>)
      requires Valid() && t < |trees| && trees[t].Tree? && PrivateRoot(trees[t], heap, true) && !trees[t].oom
      modifies this`heap, this`notes, this`trees, this`failures
      ensures Valid() && |trees| == |old(trees)| && trees[t].Tree? && !trees[t].oom
      ensures done ==>
                DelShown(old(trees), old(heap), trees, heap, t, if front then PopFront else PopBack, [], prev)
      ensures (done ==> ok) && (!done ==> Quiet(old(trees), old(heap), trees, heap, t))
      ensures failures == old(failures) + if !ok then 1 else 0
    {
      hide Quiet, RootOf, View;
      done, prev := false, None;
      var node; ghost var path;
      ok, node, path := DescendEdge(t, front);
      if !ok {
        return;
      }
      PathEnd(trees, heap, notes, maxItems, t, path, front);
      var minItems := maxItems / 2;
      if |heap[node].items| > minItems {
        ghost var h, a := heap, notes;
        var i := if front then 0 else |heap[node].items| - 1;
        var res;
        res, prev := LeafDelete(node, if front then PopFront else PopBack, [], i, true, Roots(trees));
        assert TreeOk(trees[t], h, a);
        CountPositive(trees, h, a, maxItems, t, path, front);
        var count := trees[t].count - 1;
        var tree := trees[t].(count := count);
        done := true;
        notes := PopStep(trees, h, a, heap, notes, maxItems, t, path, front, prev, tree);
        trees := trees[t := tree];
        DelAfterQuiet(old(trees), old(heap), old(trees), h, trees, heap, t, if front then PopFront else PopBack, [], prev);
      }
    }

    /** Like `Set`, trying the last leaf first. */
    method Load(t: nat, it: Item) returns (prev: Option<Item>)
      requires Valid() && t < |trees| && trees[t].Tree?
      modifies this`heap, this`notes, this`trees, this`failures
      ensures Valid() && |trees| == |old(trees)| && trees[t].Tree?
      ensures trees[t].oom ==> Quiet(old(trees), old(heap), trees, heap, t) && prev == None
      ensures !trees[t].oom ==> SetShown(old(trees), old(heap), trees, heap, t, it, prev)
      ensures failures == old(failures) + if trees[t].oom then 1 else 0
    {
      hide *;
      SetFlag(t, false);
      if trees[t].root.Some? {
        ghost var ts := trees;
        var ok := CowRoot(t);
        QuietTrans(old(trees), old(heap), ts, old(heap), trees, heap, t);
        var done := false;
        if ok {
          ghost var ts1, h1 := trees, heap;
          done, ok := LoadIntoLeaf(t, it);
          if done {
            SetAfterQuiet(old(trees), old(heap), ts1, h1, trees, heap, t, it, None, Inserted);
            return None;
          }
          QuietTrans(old(trees), old(heap), ts1, h1, trees, heap, t);
        }
        if !ok {
          ghost var ts2 := trees;
          SetFlag(t, true);
          QuietTrans(old(trees), old(heap), ts2, heap, trees, heap, t);
          return None;
        }
      }
      ghost var ts3, h3 := trees, heap;
      prev := Set0(t, it, null);
      if trees[t].oom {
        QuietTrans(old(trees), old(heap), ts3, h3, trees, heap, t);
      } else {
        SetAfterQuiet(old(trees), old(heap), ts3, h3, trees, heap, t, it, prev, Inserted);
      }
    }

    /** The fast path of `Load`: `done` if the item went to the end of the last leaf. */
    method LoadIntoLeaf(t: nat, it: Item) returns (done: bool, ok: bool)
      requires Valid() && t < |trees| && trees[t].Tree? && PrivateRoot(trees[t], heap, true) && !trees[t].oom
      modifies this`heap, this`notes, this`trees, this`failures
      ensures Valid() && |trees| == |old(trees)| && trees[t].Tree? && !trees[t].oom
      ensures done ==> SetShown(old(trees), old(heap), trees, heap, t, it, None)
      ensures (done ==> ok) && (!done ==> Quiet(old(trees), old(heap), trees, heap, t))
      ensures failures == old(failures) + if !ok then 1 else 0
    {
      hide RootOf, Roots, PrivateRoot, Strcmp, View;
      done := false;
      var node; ghost var path;
      ok, node, path := DescendEdge(t, false);
      if !ok {
        return;
      }
      PathEnd(trees, heap, notes, maxItems, t, path, false);
      TotalOrder();
      if |heap[node].items| != maxItems && Strcmp(it.key, heap[node].items[|heap[node].items| - 1].key) > 0 {
        ghost var h, a := heap, notes;
        var leaf := heap[node].(items := heap[node].items + [it]);
        LeafAppendDone(heap, notes, maxItems, Roots(trees), node, leaf, it);
        heap, notes := heap[node := leaf], Noted(notes, node, leaf.items);
        var tree := trees[t].(count := trees[t].count + 1);
        notes := LoadStep(trees, h, a, heap, notes, maxItems, t, path, it, tree);
        trees := trees[t := tree];
        done := true;
        SetAfterQuiet(old(trees), old(heap), old(trees), h, trees, heap, t, it, None, Inserted);
      }
    }

    // ----- reading

    method Get(t: nat, key: Key, hint: array?<Octet>) returns (r: Option<Item>)
      requires Valid() && t < |trees| && trees[t].Tree? && (hint != null ==> hint.Length == 8)
      modifies hint
      ensures r == Lookup(Contents(t), key)
    {
      r := None;
      if trees[t].root.Some? {
        RootReadable(trees, heap, notes, maxItems, t);
        r := TreeReads.Get(heap, notes, maxItems, trees[t].root.value, key, hint);
      }
    }

    /** The first or the last item of tree `t`. */
    method Edge(t: nat, front: bool) returns (r: Option<Item>)
      requires Valid() && t < |trees| && trees[t].Tree?
      ensures r.None? <==> Contents(t) == []
      ensures r.Some? ==> r.value == Contents(t)[if front then 0 else |Contents(t)| - 1]
    {
      r := None;
      if trees[t].root.Some? {
        RootReadable(trees, heap, notes, maxItems, t);
        var it;
        if front {
          it := Min(heap, notes, maxItems, trees[t].root.value);
        } else {
          it := Max(heap, notes, maxItems, trees[t].root.value);
        }
        r := Some(it);
      }
    }

    /** Shows the callback the items at or above the pivot in order, until it declines. */
    method Ascend(t: nat, pivot: Option<Key>, keep: Callback, hint: array?<Octet>) returns (go: bool, seen: seq<Item>)
      requires Valid() && t < |trees| && trees[t].Tree? && (hint != null ==> hint.Length == 8)
      modifies hint
      ensures (go, seen) == Visit(if pivot.None? then Contents(t) else From(Contents(t), pivot.value), keep, [])
    {
      go, seen := true, [];
      if trees[t].root.Some? {
        RootReadable(trees, heap, notes, maxItems, t);
        var root := trees[t].root.value;
        match pivot {
          case None => go, seen := NodeScan(heap, notes, maxItems, root, keep, []);
          case Some(key) => go, seen := NodeAscend(heap, notes, maxItems, root, key, keep, [], hint, 0);
        }
      }
    }

    /** Shows the callback the items at or below the pivot in reverse order, until it declines. */
    method Descend(t: nat, pivot: Option<Key>, keep: Callback, hint: array?<Octet>) returns (go: bool, seen: seq<Item>)
      requires Valid() && t < |trees| && trees[t].Tree? && (hint != null ==> hint.Length == 8)
      modifies hint
      ensures (go, seen)
           == Visit(Reversed(if pivot.None? then Contents(t) else UpTo(Contents(t), pivot.value)), keep, [])
    {
      go, seen := true, [];
      if trees[t].root.Some? {
        RootReadable(trees, heap, notes, maxItems, t);
        var root := trees[t].root.value;
        match pivot {
          case None => go, seen := NodeReverse(heap, notes, maxItems, root, keep, []);
          case Some(key) => go, seen := NodeDescend(heap, notes, maxItems, root, key, keep, [], hint, 0);
        }
      }
    }
  }
}
