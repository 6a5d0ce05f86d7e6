/** The two-way iterator over one tree of a family: a stack of nodes and indices, allocated once
    for the height the tree had when the iterator was made. */
module Iterators {
  import opened Keys
  import opened SortedItems
  import opened NodeHeap
  import opened TreeReads
  import opened NodeSearch
  import opened IterPaths
  import opened ForestModel

  ghost function LevelOf(a: Notes, x: Id): nat { if x < |a| then a[x].level else 0 }

  class Iter {
    const forest: Forest
    const t: nat
    const stack: array<Frame>
    var item: Item
    var seeked: bool
    var atstart: bool
    var atend: bool
    var nstack: nat

    /** The tree is still there and no higher than the stack is long. */
    ghost predicate Ready()
      reads this, forest
    {
      && forest.Valid() && t < |forest.trees| && forest.trees[t].Tree?
      && forest.trees[t].height <= stack.Length && nstack <= stack.Length
    }

    ghost function Root(): Id
      requires Ready() && forest.trees[t].root.Some?
      reads this, forest
    {
      forest.trees[t].root.value
    }

    /** A seeked iterator that has not run off either end stands on an item. */
    ghost predicate Valid()
      reads this, forest, stack
    {
      Ready() && (seeked ==> forest.trees[t].root.Some? && (nstack > 0 ==> OnItem()))
    }

    ghost predicate OnItem()
      requires Ready() && forest.trees[t].root.Some?
      reads this, forest, stack
    {
      && 0 < nstack <= forest.trees[t].height
      && Stands(forest.heap, forest.notes, forest.maxItems, Root(), stack[..nstack])
      && Pos() < |forest.Contents(t)| && item == forest.Contents(t)[Pos()]
    }

    /** How many items of the tree come before the current one. */
    ghost function Pos(): nat
      requires nstack <= stack.Length
      reads this, forest, stack
    {
      Position(forest.heap, forest.notes, stack[..nstack])
    }

    constructor (forest: Forest, t: nat)
      requires forest.Valid() && t < |forest.trees| && forest.trees[t].Tree?
      ensures Valid() && !seeked && this.forest == forest && this.t == t
      ensures stack.Length == forest.trees[t].height && fresh(stack)
    {
      this.forest, this.t := forest, t;
      stack := new Frame[forest.trees[t].height](_ => Frame(0, 0));
      item, seeked, atstart, atend, nstack := Item([], []), false, false, false, 0;
    }

    // ----- pushing a path

    /** Pushes one frame; a chain always leaves room for the next. */
    method Push(node: Id, index: int, ghost top: Frame)
      requires Ready() && forest.trees[t].root.Some? && top.node == node
      requires Chain(forest.heap, forest.notes, forest.maxItems, Root(), stack[..nstack] + [top])
      modifies this`nstack, stack
      ensures Ready() && nstack == old(nstack) + 1 <= forest.trees[t].height
      ensures stack[..nstack] == old(stack[..nstack]) + [Frame(node, index)]
      ensures Chain(forest.heap, forest.notes, forest.maxItems, Root(), stack[..nstack])
    {
      ghost var h, a, mx, root := forest.heap, forest.notes, forest.maxItems, Root();
      ghost var fs := stack[..nstack];
      RootReadable(forest.trees, h, a, mx, t);
      ChainTop(h, a, mx, root, fs, top, index);
      ChainLength(h, a, mx, root, fs + [top]);
      assert (fs + [top])[nstack] == top;
      stack[nstack] := Frame(node, index);
      nstack := nstack + 1;
      assert stack[..nstack] == fs + [Frame(node, index)];
    }

    /** Copies out the item under the top frame. */
    method CopyItem(ghost gap: nat)
      requires Ready() && forest.trees[t].root.Some? && 0 < nstack <= forest.trees[t].height
      requires Stood(forest.heap, forest.notes, forest.maxItems, Root(), stack[..nstack], gap)
      modifies this`item
      ensures Valid() && OnItem() && Pos() == gap && gap < |forest.Contents(t)|
    {
      ghost var fs := stack[..nstack - 1];
      assert stack[..nstack] == fs + [stack[nstack - 1]];
      RootReadable(forest.trees, forest.heap, forest.notes, forest.maxItems, t);
      PositionItem(forest.heap, forest.notes, forest.maxItems, Root(), fs, stack[nstack - 1]);
      item := forest.heap[stack[nstack - 1].node].items[stack[nstack - 1].index];
    }

    /** Pushes the frame for `start` and every first child below it. */
    method PushLeft(start: Id, ghost gap: nat)
      requires Ready() && forest.trees[t].root.Some?
      requires Chain(forest.heap, forest.notes, forest.maxItems, Root(), stack[..nstack] + [Frame(start, 0)])
      requires |Before(forest.heap, forest.notes, stack[..nstack])| == gap
      modifies this`nstack, this`item, stack
      ensures Valid() && OnItem() && Pos() == gap
    {
      var h := forest.heap;
      ghost var a, mx, root := forest.notes, forest.maxItems, Root();
      ghost var fs := stack[..nstack];
      var x: Id := start;
      ChainTop(h, a, mx, root, fs, Frame(x, 0), 0);
      Push(x, 0, Frame(x, 0));
      while !h[x].leaf
        invariant Ready() && 0 < nstack <= forest.trees[t].height && stack[..nstack] == fs + [Frame(x, 0)]
        invariant Chain(h, a, mx, root, fs + [Frame(x, 0)]) && Readable(h, a, mx, x) && x < |a|
        invariant |Before(h, a, fs)| == gap
        decreases a[x].level
      {
        FirstChild(h, a, mx, root, fs, Frame(x, 0));
        ChainSnoc(h, a, mx, root, fs, Frame(x, 0), Frame(h[x].children[0], 0));
        fs := stack[..nstack];
        x := h[x].children[0];
        ChainTop(h, a, mx, root, fs, Frame(x, 0), 0);
        Push(x, 0, Frame(x, 0));
      }
      LeafFirst(h, a, mx, root, fs, Frame(x, 0));
      CopyItem(gap);
    }

    /** Pushes the frame for `start` and every last child below it. */
    method PushRight(start: Id, ghost gap: nat)
      requires Ready() && forest.trees[t].root.Some?
      requires Chain(forest.heap, forest.notes, forest.maxItems, Root(), stack[..nstack] + [Frame(start, 0)])
      requires start < |forest.notes|
      requires |Before(forest.heap, forest.notes, stack[..nstack])| + |forest.notes[start].cont| == gap
      modifies this`nstack, this`item, stack
      ensures Valid() && OnItem() && Pos() + 1 == gap
    {
      hide Chain;
      var h := forest.heap;
      ghost var a, mx, root := forest.notes, forest.maxItems, Root();
      ghost var fs := stack[..nstack];
      var x: Id := start;
      ChainTop(h, a, mx, root, fs, Frame(x, 0), 0);
      Push(x, |h[x].items|, Frame(x, 0));
      while !h[x].leaf
        invariant Ready() && 0 < nstack <= forest.trees[t].height && x < |a| && Readable(h, a, mx, x)
        invariant stack[..nstack] == fs + [Frame(x, |h[x].items|)]
        invariant Chain(h, a, mx, root, fs + [Frame(x, |h[x].items|)])
        invariant |Before(h, a, fs)| + |a[x].cont| == gap
        decreases a[x].level
      {
        ghost var f := Frame(x, |h[x].items|);
        LastChild(h, a, mx, root, fs, f);
        ChainSnoc(h, a, mx, root, fs, f, Frame(h[x].children[|h[x].items|], 0));
        fs := stack[..nstack];
        x := h[x].children[|h[x].items|];
        ChainTop(h, a, mx, root, fs, Frame(x, 0), 0);
        Push(x, |h[x].items|, Frame(x, 0));
      }
      LeafEnd(fs, x, gap);
    }

    /** Moves the top frame, past the end of its leaf, back onto the last item. */
    method LeafEnd(ghost fs: seq<Frame>, x: Id, ghost gap: nat)
      requires Ready() && forest.trees[t].root.Some? && 0 < nstack <= forest.trees[t].height
      requires Readable(forest.heap, forest.notes, forest.maxItems, x) && x < |forest.notes| && forest.heap[x].leaf
      requires stack[..nstack] == fs + [Frame(x, |forest.heap[x].items|)]
      requires Chain(forest.heap, forest.notes, forest.maxItems, Root(), stack[..nstack])
      requires |Before(forest.heap, forest.notes, fs)| + |forest.notes[x].cont| == gap
      modifies this`item, stack
      ensures Valid() && OnItem() && Pos() + 1 == gap && nstack == old(nstack)
    {
      hide Chain;
      ghost var f, f1 := Frame(x, |forest.heap[x].items|), Frame(x, |forest.heap[x].items| - 1);
      assert stack[..nstack][nstack - 1] == f;
      LeafLast(forest.heap, forest.notes, forest.maxItems, Root(), fs, f, f1);
      stack[nstack - 1] := Frame(stack[nstack - 1].node, stack[nstack - 1].index - 1);
      assert stack[..nstack] == fs + [f1];
      CopyItem(gap - 1);
    }

    // ----- the ends

    method First() returns (r: bool)
      requires Ready()
      modifies this`nstack, this`item, this`seeked, this`atstart, this`atend, stack
      ensures Valid() && !atstart && !atend && seeked == r
      ensures r <==> forest.Contents(t) != []
      ensures r ==> OnItem() && Pos() == 0
    {
      atend, atstart, seeked, nstack := false, false, false, 0;
      if forest.trees[t].root.None? {
        return false;
      }
      seeked := true;
      RootReadable(forest.trees, forest.heap, forest.notes, forest.maxItems, t);
      ChainRoot(forest.heap, forest.notes, forest.maxItems, Root());
      assert stack[..0] + [Frame(Root(), 0)] == [Frame(Root(), 0)];
      PushLeft(forest.trees[t].root.value, 0);
      r := true;
    }

    method Last() returns (r: bool)
      requires Ready()
      modifies this`nstack, this`item, this`seeked, this`atstart, this`atend, stack
      ensures Valid() && !atstart && !atend && seeked == r
      ensures r <==> forest.Contents(t) != []
      ensures r ==> OnItem() && Pos() + 1 == |forest.Contents(t)|
    {
      atend, atstart, seeked, nstack := false, false, false, 0;
      if forest.trees[t].root.None? {
        return false;
      }
      seeked := true;
      RootReadable(forest.trees, forest.heap, forest.notes, forest.maxItems, t);
      ChainRoot(forest.heap, forest.notes, forest.maxItems, Root());
      assert stack[..0] + [Frame(Root(), 0)] == [Frame(Root(), 0)];
      PushRight(forest.trees[t].root.value, |forest.Contents(t)|);
      r := true;
    }

    // ----- forwards

    /** From the position after `gap - 1` items to the one after `gap` items. */
    method Step(ghost gap: nat) returns (r: bool)
      requires Ready() && forest.trees[t].root.Some? && seeked && 0 < nstack <= forest.trees[t].height
      requires Poised(forest.heap, forest.notes, forest.maxItems, Root(), stack[..nstack], gap)
      modifies this`nstack, this`item, this`atend, stack
      ensures Valid() && (r <==> gap < |forest.Contents(t)|)
      ensures r ==> OnItem() && Pos() == gap && atend == old(atend)
      ensures !r ==> nstack == 0 && atend
    {
      hide Position, Before;
      var h := forest.heap;
      ghost var a, mx, root, st := forest.notes, forest.maxItems, Root(), stack[..nstack];
      var g := Frame(stack[nstack - 1].node, stack[nstack - 1].index + 1);
      StepOn(h, a, mx, root, st, gap, g, st[..|st| - 1] + [g]);
      stack[nstack - 1] := g;
      assert stack[..nstack] == st[..|st| - 1] + [g];
      if !h[g.node].leaf {
        PushLeft(h[g.node].children[g.index], gap);
        r := true;
      } else if g.index == |h[g.node].items| {
        r := ClimbForward(gap);
      } else {
        CopyItem(gap);
        r := true;
      }
    }

    /** Drops finished frames until one still has an item to show. */
    method ClimbForward(ghost gap: nat) returns (r: bool)
      requires Ready() && forest.trees[t].root.Some? && seeked && 0 < nstack <= forest.trees[t].height
      requires Finished(forest.heap, forest.notes, forest.maxItems, Root(), stack[..nstack], gap)
      modifies this`nstack, this`item, this`atend
      ensures Valid() && (r <==> gap < |forest.Contents(t)|)
      ensures r ==> OnItem() && Pos() == gap && atend == old(atend)
      ensures !r ==> nstack == 0 && atend
    {
      ghost var h, a, mx, root := forest.heap, forest.notes, forest.maxItems, Root();
      r := false;
      while !r
        invariant Ready() && 0 < nstack <= forest.trees[t].height && atend == old(atend)
        invariant r ==> Stood(h, a, mx, root, stack[..nstack], gap)
        invariant !r ==> Finished(h, a, mx, root, stack[..nstack], gap)
        decreases nstack, !r
      {
        r := DropForward(gap);
        if nstack == 0 {
          RootReadable(forest.trees, forest.heap, forest.notes, forest.maxItems, t);
          atend := true;
          return;
        }
      }
      CopyItem(gap);
    }

    method DropForward(ghost gap: nat) returns (more: bool)
      requires Ready() && forest.trees[t].root.Some? && 0 < nstack <= forest.trees[t].height
      requires Finished(forest.heap, forest.notes, forest.maxItems, Root(), stack[..nstack], gap)
      modifies this`nstack
      ensures nstack == old(nstack) - 1
      ensures Root() < |forest.notes|
      ensures nstack == 0 ==> !more && gap == |forest.notes[Root()].cont|
      ensures more ==> Stood(forest.heap, forest.notes, forest.maxItems, Root(), stack[..nstack], gap)
      ensures nstack > 0 && !more ==> Finished(forest.heap, forest.notes, forest.maxItems, Root(), stack[..nstack], gap)
    {
      hide Finished;
      var h := forest.heap;
      ghost var a, mx, root, st := forest.notes, forest.maxItems, Root(), stack[..nstack];
      RootReadable(forest.trees, h, a, mx, t);
      nstack, more := nstack - 1, false;
      ghost var st1 := stack[..nstack];
      assert st1 == st[..|st| - 1];
      ClimbForwardOn(h, a, mx, root, st, gap, st1);
      if nstack > 0 {
        var f := stack[nstack - 1];
        assert st1[|st1| - 1] == f;
        more := f.index < |h[f.node].items|;
      }
    }

    /** Steps to the in-order successor; an iterator not yet placed goes to the first item. */
    method Next() returns (r: bool)
      requires Valid() && (seeked ==> nstack > 0)
      modifies this`nstack, this`item, this`seeked, this`atstart, this`atend, stack
      ensures Valid()
      ensures r <==> (if old(seeked) then old(Pos()) + 1 else 0) < |forest.Contents(t)|
      ensures r ==> seeked && OnItem() && Pos() == if old(seeked) then old(Pos()) + 1 else 0
      ensures old(seeked) && !r ==> seeked && nstack == 0 && atend
      ensures !old(seeked) ==> seeked == r
    {
      if !seeked {
        r := First();
        return;
      }
      StoodPoised(forest.heap, forest.notes, forest.maxItems, Root(), stack[..nstack], Pos());
      r := Step(Pos() + 1);
    }

    // ----- backwards

    /** Steps to the in-order predecessor. */
    method Prev() returns (r: bool)
      requires Valid() && (seeked ==> nstack > 0)
      modifies this`nstack, this`item, this`atstart, stack
      ensures Valid() && (r <==> seeked && old(Pos()) > 0)
      ensures r ==> OnItem() && Pos() + 1 == old(Pos())
      ensures seeked && !r ==> nstack == 0 && atstart
      ensures !seeked ==> nstack == old(nstack) && item == old(item) && atstart == old(atstart)
    {
      if !seeked {
        return false;
      }
      r := Back(Pos());
    }

    /** From the position after `gap` items to the one before it. */
    method Back(ghost gap: nat) returns (r: bool)
      requires Ready() && forest.trees[t].root.Some? && seeked && 0 < nstack <= forest.trees[t].height
      requires Stood(forest.heap, forest.notes, forest.maxItems, Root(), stack[..nstack], gap)
      modifies this`nstack, this`item, this`atstart, stack
      ensures Valid() && (r <==> gap > 0)
      ensures r ==> OnItem() && Pos() + 1 == gap
      ensures !r ==> nstack == 0 && atstart
    {
      hide Position;
      var h := forest.heap;
      ghost var a, mx, root, st := forest.notes, forest.maxItems, Root(), stack[..nstack];
      var f1 := Frame(stack[nstack - 1].node, stack[nstack - 1].index - 1);
      BackOn(h, a, mx, root, st, gap, f1, st[..|st| - 1] + [f1]);
      if !h[f1.node].leaf {
        PushRight(h[f1.node].children[stack[nstack - 1].index], gap);
        return true;
      }
      stack[nstack - 1] := f1;
      assert stack[..nstack] == st[..|st| - 1] + [f1];
      if f1.index == -1 {
        r := ClimbBack(gap);
      } else {
        CopyItem(gap - 1);
        r := true;
      }
    }

    /** Drops frames with nothing before them until one still has an item to show. */
    method ClimbBack(ghost gap: nat) returns (r: bool)
      requires Ready() && forest.trees[t].root.Some? && seeked && 0 < nstack <= forest.trees[t].height
      requires Unstarted(forest.heap, forest.notes, forest.maxItems, Root(), stack[..nstack], gap)
      modifies this`nstack, this`item, this`atstart, stack
      ensures Valid() && (r <==> gap > 0)
      ensures r ==> OnItem() && Pos() + 1 == gap
      ensures !r ==> nstack == 0 && atstart
    {
      ghost var h, a, mx, root := forest.heap, forest.notes, forest.maxItems, Root();
      r := false;
      while !r
        invariant Ready() && 0 < nstack <= forest.trees[t].height
        invariant r ==> gap > 0 && Stood(h, a, mx, root, stack[..nstack], gap - 1)
        invariant !r ==> Unstarted(h, a, mx, root, stack[..nstack], gap)
        decreases nstack, !r
      {
        r := DropBack(gap);
        if nstack == 0 {
          atstart := true;
          return;
        }
      }
      CopyItem(gap - 1);
    }

    method DropBack(ghost gap: nat) returns (more: bool)
      requires Ready() && forest.trees[t].root.Some? && 0 < nstack <= forest.trees[t].height
      requires Unstarted(forest.heap, forest.notes, forest.maxItems, Root(), stack[..nstack], gap)
      modifies this`nstack, stack
      ensures nstack == old(nstack) - 1
      ensures nstack == 0 ==> !more && gap == 0
      ensures more ==> gap > 0 && Stood(forest.heap, forest.notes, forest.maxItems, Root(), stack[..nstack], gap - 1)
      ensures nstack > 0 && !more ==> Unstarted(forest.heap, forest.notes, forest.maxItems, Root(), stack[..nstack], gap)
    {
      hide Unstarted;
      ghost var h, a, mx, root, st := forest.heap, forest.notes, forest.maxItems, Root(), stack[..nstack];
      nstack, more := nstack - 1, false;
      ghost var st1 := stack[..nstack];
      assert st1 == st[..|st| - 1];
      if nstack == 0 {
        ClimbBackOn(h, a, mx, root, st, gap, st1, Frame(0, 0), []);
        return;
      }
      var f1 := Frame(stack[nstack - 1].node, stack[nstack - 1].index - 1);
      ClimbBackOn(h, a, mx, root, st, gap, st1, f1, st1[..|st1| - 1] + [f1]);
      stack[nstack - 1] := f1;
      assert stack[..nstack] == st1[..|st1| - 1] + [f1];
      more := f1.index > -1;
    }

    // ----- seeking

    /** Places the iterator on the least item at or above `key`. */
    method Seek(key: Key) returns (r: bool)
      requires Ready()
      modifies this`nstack, this`item, this`seeked, this`atstart, this`atend, stack
      ensures Valid() && (seeked <==> forest.Contents(t) != [])
      ensures r <==> Rank(forest.Contents(t), key) < |forest.Contents(t)|
      ensures r ==> OnItem() && Pos() == Rank(forest.Contents(t), key)
      ensures seeked && !r ==> nstack == 0 && atend
    {
      atend, atstart, seeked, nstack := false, false, false, 0;
      if forest.trees[t].root.None? {
        return false;
      }
      seeked := true;
      var h := forest.heap;
      ghost var a, mx, root := forest.notes, forest.maxItems, Root();
      RootReadable(forest.trees, h, a, mx, t);
      ChainRoot(h, a, mx, root);
      var x: Id := forest.trees[t].root.value;
      assert stack[..0] + [Frame(x, 0)] == [Frame(x, 0)];
      ghost var rank := Rank(forest.Contents(t), key);
      r := SeekFrom(x, key, rank);
    }

    /** The search has come to node `x`. */
    ghost predicate Seeking(x: Id, key: Key, rank: nat)
      reads this, forest, stack
    {
      && Ready() && seeked && !atend && !atstart && forest.trees[t].root.Some?
      && x < |forest.notes| && Readable(forest.heap, forest.notes, forest.maxItems, x)
      && Chain(forest.heap, forest.notes, forest.maxItems, Root(), stack[..nstack] + [Frame(x, 0)])
      && rank == |Before(forest.heap, forest.notes, stack[..nstack])| + Rank(forest.notes[x].cont, key)
    }

    /** The search has ended at item `rank` of the tree, or past the last. */
    ghost predicate SeekEnd(r: bool, rank: nat)
      reads this, forest, stack
    {
      && Valid() && seeked && (r <==> rank < |forest.Contents(t)|) && (r ==> OnItem() && Pos() == rank)
      && (!r ==> nstack == 0 && atend)
    }

    method SeekFrom(x0: Id, key: Key, ghost rank: nat) returns (r: bool)
      requires Seeking(x0, key, rank)
      modifies this`nstack, this`item, this`atend, stack
      ensures SeekEnd(r, rank)
    {
      hide Seeking, SeekEnd;
      var x, done := x0, false;
      r := false;
      while !done
        invariant if done then SeekEnd(r, rank) else Seeking(x, key, rank)
        decreases !done, LevelOf(forest.notes, x)
      {
        r, done, x := SeekStep(x, key, rank);
      }
    }

    /** One level of the search. */
    method SeekStep(x: Id, key: Key, ghost rank: nat) returns (r: bool, done: bool, next: Id)
      requires Seeking(x, key, rank)
      modifies this`nstack, this`item, this`atend, stack
      ensures if done then SeekEnd(r, rank)
              else Seeking(next, key, rank) && LevelOf(forest.notes, next) < LevelOf(forest.notes, x)
    {
      hide Chain, Before, Position, Rank, Sorted;
      r, done, next := false, false, x;
      var h := forest.heap;
      ghost var a, mx, root := forest.notes, forest.maxItems, Root();
      ghost var fs := stack[..nstack];
      ReadableFacts(h, a, mx, x);
      var i, found := Bsearch(h[x].items, key);
      Push(x, i, Frame(x, 0));
      SeekHere(h, a, mx, root, fs, Frame(x, i), key, found, rank);
      if found {
        CopyItem(rank);
        r, done := true, true;
      } else if h[x].leaf {
        r := SeekLeaf(fs, Frame(x, i), rank);
        done := true;
      } else {
        ChainSnoc(h, a, mx, root, fs, Frame(x, i), Frame(h[x].children[i], 0));
        next := h[x].children[i];
      }
    }

    /** A search that ended in the gap before `f.index` of a leaf: step back by one and advance. */
    method SeekLeaf(ghost fs: seq<Frame>, ghost f: Frame, ghost rank: nat) returns (r: bool)
      requires Ready() && forest.trees[t].root.Some? && seeked && 0 < nstack <= forest.trees[t].height
      requires stack[..nstack] == fs + [f]
      requires Chain(forest.heap, forest.notes, forest.maxItems, Root(), fs + [f])
      requires At(forest.heap, f.node).Node? && At(forest.heap, f.node).leaf
      requires 0 <= f.index <= |At(forest.heap, f.node).items|
      requires rank == |Before(forest.heap, forest.notes, fs)| + f.index
      modifies this`nstack, this`item, this`atend, stack
      ensures Valid() && (r <==> rank < |forest.Contents(t)|)
      ensures r ==> OnItem() && Pos() == rank
      ensures !r ==> nstack == 0 && atend
    {
      hide Before;
      assert stack[..nstack][nstack - 1] == f;
      ghost var f1 := Frame(f.node, f.index - 1);
      SeekPoised(forest.heap, forest.notes, forest.maxItems, Root(), fs, f, f1, rank);
      stack[nstack - 1] := Frame(stack[nstack - 1].node, stack[nstack - 1].index - 1);
      assert stack[..nstack] == fs + [f1];
      r := Step(rank);
    }
  }
}
