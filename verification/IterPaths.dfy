/** The stack of an iterator: a path from the root of a B-tree, read as a position in its items. */
module IterPaths {
  import opened Keys
  import opened SortedItems
  import opened NodeHeap
  import opened NodeReading
  import opened NodeWrites
  import opened NodeDeletes
  import opened Trees
  import opened TreeReads

  /** In the top frame `index` names the current item; below it, the child the path goes through. */
  datatype Frame = Frame(node: Id, index: int)

  ghost predicate Inner(h: Heap, f: Frame) {
    Branch(At(h, f.node)) && 0 <= f.index <= |At(h, f.node).items|
  }

  /** Each frame's node hangs off the child slot named by the frame below it. */
  ghost predicate Chain(h: Heap, a: Notes, mx: nat, root: Id, fs: seq<Frame>) {
    fs != [] ==>
      var k := |fs| - 1;
      && Readable(h, a, mx, fs[k].node) && fs[k].node < |a|
      && Chain(h, a, mx, root, fs[..k])
      && if k == 0 then fs[0].node == root
         else Inner(h, fs[k - 1]) && At(h, fs[k - 1].node).children[fs[k - 1].index] == fs[k].node
  }

  /** What comes before and after the child the last frame goes through. */
  ghost function Before(h: Heap, a: Notes, fs: seq<Frame>): seq<Item> {
    if fs == [] || !Inner(h, fs[|fs| - 1]) then []
    else Before(h, a, fs[..|fs| - 1]) + LeftOf(At(h, fs[|fs| - 1].node), a, fs[|fs| - 1].index)
  }

  ghost function After(h: Heap, a: Notes, fs: seq<Frame>): seq<Item> {
    if fs == [] || !Inner(h, fs[|fs| - 1]) then []
    else RightOf(At(h, fs[|fs| - 1].node), a, fs[|fs| - 1].index) + After(h, a, fs[..|fs| - 1])
  }

  lemma {:induction false} BeforeSnoc(h: Heap, a: Notes, fs: seq<Frame>, f: Frame)
    requires Inner(h, f)
    ensures Before(h, a, fs + [f]) == Before(h, a, fs) + LeftOf(At(h, f.node), a, f.index)
    ensures After(h, a, fs + [f]) == RightOf(At(h, f.node), a, f.index) + After(h, a, fs)
  {
    assert (fs + [f])[..|fs|] == fs;
  }

  lemma {:induction false} ChainSnoc(h: Heap, a: Notes, mx: nat, root: Id, fs: seq<Frame>, f: Frame, g: Frame)
    requires Chain(h, a, mx, root, fs + [f]) && Inner(h, f)
    requires At(h, f.node).children[f.index] == g.node
    ensures Chain(h, a, mx, root, fs + [f] + [g]) && g.node < |a| && a[g.node].level < a[f.node].level
  {
    var gs := fs + [f] + [g];
    assert gs[..|gs| - 1] == fs + [f];
    ReadableFacts(h, a, mx, f.node);
  }

  /** The index of the top frame does not matter to the chain. */
  lemma {:induction false} ChainTop(h: Heap, a: Notes, mx: nat, root: Id, fs: seq<Frame>, f: Frame, i: int)
    requires Chain(h, a, mx, root, fs + [f])
    ensures Chain(h, a, mx, root, fs + [Frame(f.node, i)]) && Chain(h, a, mx, root, fs)
    ensures fs != [] ==> Inner(h, fs[|fs| - 1]) && At(h, fs[|fs| - 1].node).children[fs[|fs| - 1].index] == f.node
    ensures f.node < |a| && Readable(h, a, mx, f.node)
    ensures fs == [] ==> f.node == root
  {
    var gs, hs := fs + [f], fs + [Frame(f.node, i)];
    assert gs[..|fs|] == fs && hs[..|fs|] == fs;
    assert gs[|fs|] == f && (fs != [] ==> gs[|fs| - 1] == fs[|fs| - 1]);
  }

  /** A chain cuts the tree's items around the items below its top node. */
  lemma {:induction false} ChainCut(h: Heap, a: Notes, mx: nat, root: Id, fs: seq<Frame>, f: Frame)
    requires Chain(h, a, mx, root, fs + [f]) && root < |a|
    ensures f.node < |a| && a[root].cont == Before(h, a, fs) + a[f.node].cont + After(h, a, fs)
    decreases |fs|
  {
    ChainTop(h, a, mx, root, fs, f, 0);
    if fs != [] {
      var k := |fs| - 1;
      var gs, g := fs[..k], fs[k];
      assert fs == gs + [g];
      ChainCut(h, a, mx, root, gs, g);
      ChainTop(h, a, mx, root, gs, g, 0);
      ReadableFacts(h, a, mx, g.node);
      var n := At(h, g.node);
      NodeCut(n, a, a[g.node].cont, g.index);
      Nested(Before(h, a, gs), LeftOf(n, a, g.index), a[f.node].cont, RightOf(n, a, g.index), After(h, a, gs));
    }
  }

  lemma Nested(a: seq<Item>, b: seq<Item>, c: seq<Item>, d: seq<Item>, e: seq<Item>)
    ensures a + (b + c + d) + e == (a + b) + c + (d + e)
  {
  }

  /** A chain is no longer than the tree is high. */
  lemma {:induction false} ChainLength(h: Heap, a: Notes, mx: nat, root: Id, fs: seq<Frame>)
    requires Chain(h, a, mx, root, fs) && fs != [] && root < |a|
    ensures fs[|fs| - 1].node < |a| && 1 <= a[fs[|fs| - 1].node].level
    ensures a[fs[|fs| - 1].node].level + |fs| <= a[root].level + 1
    decreases |fs|
  {
    var k := |fs| - 1;
    ReadableFacts(h, a, mx, fs[k].node);
    if k > 0 {
      ChainLength(h, a, mx, root, fs[..k]);
      ReadableFacts(h, a, mx, fs[k - 1].node);
    }
  }

  // ----- positions

  /** How many items come before the current item of top frame `f`. */
  ghost function Offset(h: Heap, a: Notes, f: Frame): nat {
    var n := At(h, f.node);
    if Inner(h, f) then |LeftOf(n, a, f.index)| + (if n.children[f.index] < |a| then |a[n.children[f.index]].cont| else 0)
    else if f.index >= 0 then f.index else 0
  }

  ghost predicate Stands(h: Heap, a: Notes, mx: nat, root: Id, fs: seq<Frame>) {
    fs != [] && Chain(h, a, mx, root, fs) && 0 <= fs[|fs| - 1].index < |At(h, fs[|fs| - 1].node).items|
  }

  ghost function Position(h: Heap, a: Notes, fs: seq<Frame>): nat {
    if fs == [] then 0 else |Before(h, a, fs[..|fs| - 1])| + Offset(h, a, fs[|fs| - 1])
  }

  lemma {:induction false} PositionOf(h: Heap, a: Notes, fs: seq<Frame>, f: Frame)
    ensures Position(h, a, fs + [f]) == |Before(h, a, fs)| + Offset(h, a, f)
  {
    assert (fs + [f])[..|fs|] == fs;
  }

  lemma OffsetItem(h: Heap, a: Notes, mx: nat, f: Frame)
    requires Readable(h, a, mx, f.node) && f.node < |a| && 0 <= f.index < |At(h, f.node).items|
    ensures Offset(h, a, f) < |a[f.node].cont| && a[f.node].cont[Offset(h, a, f)] == At(h, f.node).items[f.index]
  {
    ReadableFacts(h, a, mx, f.node);
    var n := At(h, f.node);
    if !n.leaf {
      ItemCut(n, a, a[f.node].cont, f.index);
    }
  }

  lemma IndexPast<T>(b: seq<T>, m: seq<T>, c: seq<T>, k: nat)
    requires k < |m|
    ensures |b| + k < |b + m + c| && (b + m + c)[|b| + k] == m[k]
  {
  }

  /** The item under the top frame is the one at its position. */
  lemma PositionItem(h: Heap, a: Notes, mx: nat, root: Id, fs: seq<Frame>, f: Frame)
    requires Stands(h, a, mx, root, fs + [f]) && root < |a|
    ensures Position(h, a, fs + [f]) < |a[root].cont|
    ensures a[root].cont[Position(h, a, fs + [f])] == At(h, f.node).items[f.index]
  {
    ChainCut(h, a, mx, root, fs, f);
    ChainTop(h, a, mx, root, fs, f, 0);
    PositionOf(h, a, fs, f);
    OffsetItem(h, a, mx, f);
    IndexPast(Before(h, a, fs), a[f.node].cont, After(h, a, fs), Offset(h, a, f));
  }

  lemma ChainRoot(h: Heap, a: Notes, mx: nat, root: Id)
    requires Readable(h, a, mx, root) && root < |a|
    ensures Chain(h, a, mx, root, [Frame(root, 0)]) && Before(h, a, []) == []
  {
  }

  // ----- moving on

  /** Below a branch item, the next position is the start of the next child. */
  lemma {:induction false} IntoNext(h: Heap, a: Notes, mx: nat, root: Id, fs: seq<Frame>, f: Frame, g: Frame)
    requires Stands(h, a, mx, root, fs + [f]) && !At(h, f.node).leaf
    requires g == Frame(f.node, f.index + 1)
    ensures Inner(h, g) && Chain(h, a, mx, root, fs + [g])
    ensures |Before(h, a, fs + [g])| == Position(h, a, fs + [f]) + 1
  {
    ChainTop(h, a, mx, root, fs, f, f.index + 1);
    ReadableFacts(h, a, mx, f.node);
    PositionOf(h, a, fs, f);
    BeforeSnoc(h, a, fs, g);
    LeftStep(At(h, f.node), a, f.index);
  }

  /** The first child starts where its node starts. */
  lemma {:induction false} FirstChild(h: Heap, a: Notes, mx: nat, root: Id, fs: seq<Frame>, f: Frame)
    requires Chain(h, a, mx, root, fs + [f]) && f.index == 0 && At(h, f.node).Node? && !At(h, f.node).leaf
    ensures Inner(h, f) && |Before(h, a, fs + [f])| == |Before(h, a, fs)|
  {
    ChainTop(h, a, mx, root, fs, f, 0);
    ReadableFacts(h, a, mx, f.node);
    BeforeSnoc(h, a, fs, f);
  }

  /** The last child ends where its node ends. */
  lemma {:induction false} LastChild(h: Heap, a: Notes, mx: nat, root: Id, fs: seq<Frame>, f: Frame)
    requires Chain(h, a, mx, root, fs + [f]) && At(h, f.node).Node? && !At(h, f.node).leaf
    requires f.index == |At(h, f.node).items|
    ensures Inner(h, f) && f.node < |a|
    ensures var c := At(h, f.node).children[f.index];
            c < |a| && |Before(h, a, fs + [f])| + |a[c].cont| == |Before(h, a, fs)| + |a[f.node].cont|
  {
    ChainTop(h, a, mx, root, fs, f, 0);
    ReadableFacts(h, a, mx, f.node);
    var n := At(h, f.node);
    NodeCut(n, a, a[f.node].cont, f.index);
    assert RightOf(n, a, f.index) == [];
    BeforeSnoc(h, a, fs, f);
  }

  /** Leaving a finished child upwards: either its parent's item is next, or the parent is finished. */
  lemma {:induction false} ClimbRight(h: Heap, a: Notes, mx: nat, root: Id, fs: seq<Frame>, f: Frame, g: Frame)
    requires Chain(h, a, mx, root, fs + [f] + [g])
    ensures Inner(h, f) && Chain(h, a, mx, root, fs + [f]) && f.node < |a| && g.node < |a|
    ensures f.index < |At(h, f.node).items| ==>
              Stands(h, a, mx, root, fs + [f])
              && Position(h, a, fs + [f]) == |Before(h, a, fs + [f])| + |a[g.node].cont|
    ensures f.index == |At(h, f.node).items| ==>
              |Before(h, a, fs)| + |a[f.node].cont| == |Before(h, a, fs + [f])| + |a[g.node].cont|
  {
    ChainTop(h, a, mx, root, fs + [f], g, 0);
    assert (fs + [f])[|fs|] == f;
    PositionOf(h, a, fs, f);
    BeforeSnoc(h, a, fs, f);
    ChainTop(h, a, mx, root, fs, f, 0);
    ReadableFacts(h, a, mx, f.node);
    if f.index == |At(h, f.node).items| {
      LastChild(h, a, mx, root, fs, f);
    }
  }

  /** Leaving a child before its first item: either the parent's previous item is next, or the
      parent has nothing before the child either. */
  lemma {:induction false} ClimbLeft(h: Heap, a: Notes, mx: nat, root: Id, fs: seq<Frame>, f: Frame, g: Frame, f1: Frame)
    requires Chain(h, a, mx, root, fs + [f] + [g]) && f1 == Frame(f.node, f.index - 1)
    ensures Inner(h, f) && Chain(h, a, mx, root, fs + [f1])
    ensures f1.index >= 0 ==>
              Stands(h, a, mx, root, fs + [f1]) && Position(h, a, fs + [f1]) + 1 == |Before(h, a, fs + [f])|
    ensures f1.index < 0 ==> |Before(h, a, fs)| == |Before(h, a, fs + [f])|
  {
    ChainTop(h, a, mx, root, fs + [f], g, 0);
    assert (fs + [f])[|fs|] == f;
    BeforeSnoc(h, a, fs, f);
    ChainTop(h, a, mx, root, fs, f, f.index - 1);
    ReadableFacts(h, a, mx, f.node);
    if f1.index >= 0 {
      PositionOf(h, a, fs, f1);
      LeftStep(At(h, f.node), a, f1.index);
    }
  }

  // ----- the same, for a whole stack

  /** Everything below the top node lies before position `gap`. */
  ghost predicate Finished(h: Heap, a: Notes, mx: nat, root: Id, st: seq<Frame>, gap: nat) {
    match |st|
    case 0 => false
    case _ =>
      var k := |st| - 1;
      && Chain(h, a, mx, root, st) && st[k].node < |a|
      && gap == |Before(h, a, st[..k])| + |a[st[k].node].cont|
  }

  /** Everything below the top node lies at or after position `gap`. */
  ghost predicate Unstarted(h: Heap, a: Notes, mx: nat, root: Id, st: seq<Frame>, gap: nat) {
    match |st|
    case 0 => false
    case _ => Chain(h, a, mx, root, st) && gap == |Before(h, a, st[..|st| - 1])|
  }

  /** `gap` items lie up to and including the current one. The top frame may also stand just
      before the first item of a leaf, as a failed search leaves it. */
  ghost predicate Poised(h: Heap, a: Notes, mx: nat, root: Id, st: seq<Frame>, gap: nat) {
    match |st|
    case 0 => false
    case _ =>
      var k := |st| - 1;
      var n := At(h, st[k].node);
      && Chain(h, a, mx, root, st) && n.Node? && -1 <= st[k].index < |n.items|
      && if n.leaf then gap == |Before(h, a, st[..k])| + st[k].index + 1
         else st[k].index >= 0 && gap == Position(h, a, st) + 1
  }

  ghost predicate Stood(h: Heap, a: Notes, mx: nat, root: Id, st: seq<Frame>, gap: nat) {
    match |st|
    case 0 => false
    case _ => Stands(h, a, mx, root, st) && Position(h, a, st) == gap
  }

  /** The first and the last position of a leaf. */
  lemma {:induction false} LeafFirst(h: Heap, a: Notes, mx: nat, root: Id, fs: seq<Frame>, f: Frame)
    requires Chain(h, a, mx, root, fs + [f]) && At(h, f.node).Node? && At(h, f.node).leaf && f.index == 0
    ensures Stood(h, a, mx, root, fs + [f], |Before(h, a, fs)|)
  {
    ChainTop(h, a, mx, root, fs, f, 0);
    ReadableFacts(h, a, mx, f.node);
    PositionOf(h, a, fs, f);
  }

  lemma {:induction false} LeafLast(h: Heap, a: Notes, mx: nat, root: Id, fs: seq<Frame>, f: Frame, f1: Frame)
    requires Chain(h, a, mx, root, fs + [f]) && At(h, f.node).Node? && At(h, f.node).leaf
    requires f1 == Frame(f.node, |At(h, f.node).items| - 1)
    ensures f.node < |a| && |a[f.node].cont| > 0
    ensures Stood(h, a, mx, root, fs + [f1], |Before(h, a, fs)| + |a[f.node].cont| - 1)
  {
    ChainTop(h, a, mx, root, fs, f, f1.index);
    ReadableFacts(h, a, mx, f.node);
    PositionOf(h, a, fs, f1);
  }

  lemma SplitTop(st: seq<Frame>)
    requires st != []
    ensures st == st[..|st| - 1] + [st[|st| - 1]]
  {
  }

  /** One position forward within the top node. */
  lemma {:induction false} StepOn(h: Heap, a: Notes, mx: nat, root: Id, st: seq<Frame>, gap: nat, g: Frame, st1: seq<Frame>)
    requires Poised(h, a, mx, root, st, gap) && st != []
    requires g == Frame(st[|st| - 1].node, st[|st| - 1].index + 1) && st1 == st[..|st| - 1] + [g]
    ensures g.node < |h| && h[g.node].Node?
    ensures h[g.node].leaf && g.index < |h[g.node].items| ==> Stood(h, a, mx, root, st1, gap)
    ensures h[g.node].leaf && g.index == |h[g.node].items| ==> Finished(h, a, mx, root, st1, gap)
    ensures !h[g.node].leaf ==>
              g.index < |h[g.node].children| && |Before(h, a, st1)| == gap
              && Chain(h, a, mx, root, st1 + [Frame(h[g.node].children[g.index], 0)])
  {
    var fs, f := st[..|st| - 1], st[|st| - 1];
    SplitTop(st);
    ChainTop(h, a, mx, root, fs, f, g.index);
    ReadableFacts(h, a, mx, g.node);
    PositionOf(h, a, fs, g);
    assert st1[..|fs|] == fs;
    if !h[g.node].leaf {
      IntoNext(h, a, mx, root, fs, f, g);
      ChainSnoc(h, a, mx, root, fs, g, Frame(h[g.node].children[g.index], 0));
    }
  }

  lemma ClimbForwardOn(h: Heap, a: Notes, mx: nat, root: Id, st: seq<Frame>, gap: nat, st1: seq<Frame>)
    requires Finished(h, a, mx, root, st, gap) && root < |a| && st != [] && st1 == st[..|st| - 1]
    ensures st1 == [] ==> gap == |a[root].cont|
    ensures st1 != [] ==>
              var f := st1[|st1| - 1];
              f.node < |h| && h[f.node].Node?
              && if f.index < |h[f.node].items| then Stood(h, a, mx, root, st1, gap)
                 else Finished(h, a, mx, root, st1, gap)
  {
    var g := st[|st| - 1];
    SplitTop(st);
    if st1 == [] {
      ChainTop(h, a, mx, root, [], g, 0);
    } else {
      var fs, f := st1[..|st1| - 1], st1[|st1| - 1];
      SplitTop(st1);
      ClimbRight(h, a, mx, root, fs, f, g);
    }
  }

  /** One position back within the top node. */
  lemma BackOn(h: Heap, a: Notes, mx: nat, root: Id, st: seq<Frame>, gap: nat, f1: Frame, st1: seq<Frame>)
    requires Stood(h, a, mx, root, st, gap) && st != []
    requires f1 == Frame(st[|st| - 1].node, st[|st| - 1].index - 1) && st1 == st[..|st| - 1] + [f1]
    ensures f1.node < |h| && h[f1.node].Node?
    ensures h[f1.node].leaf && f1.index >= 0 ==> gap > 0 && Stood(h, a, mx, root, st1, gap - 1)
    ensures h[f1.node].leaf && f1.index < 0 ==> f1.index == -1 && Unstarted(h, a, mx, root, st1, gap)
    ensures !h[f1.node].leaf ==>
              var c := ChildAt(h[f1.node], f1.index + 1);
              f1.index + 1 < |h[f1.node].children| && c < |a|
              && Chain(h, a, mx, root, st + [Frame(c, 0)]) && |Before(h, a, st)| + |a[c].cont| == gap
  {
    var fs, f := st[..|st| - 1], st[|st| - 1];
    SplitTop(st);
    ChainTop(h, a, mx, root, fs, f, f1.index);
    ReadableFacts(h, a, mx, f.node);
    PositionOf(h, a, fs, f1);
    assert st1[..|fs|] == fs;
    if !h[f.node].leaf {
      BeforeSnoc(h, a, fs, f);
      ChainSnoc(h, a, mx, root, fs, f, Frame(h[f.node].children[f.index], 0));
    }
  }

  lemma ClimbBackOn(h: Heap, a: Notes, mx: nat, root: Id, st: seq<Frame>, gap: nat, st1: seq<Frame>, f1: Frame,
                    st2: seq<Frame>)
    requires Unstarted(h, a, mx, root, st, gap) && st != [] && st1 == st[..|st| - 1]
    requires st1 != [] ==>
               f1 == Frame(st1[|st1| - 1].node, st1[|st1| - 1].index - 1) && st2 == st1[..|st1| - 1] + [f1]
    ensures st1 == [] ==> gap == 0
    ensures st1 != [] ==>
              if f1.index >= 0 then gap > 0 && Stood(h, a, mx, root, st2, gap - 1)
              else Unstarted(h, a, mx, root, st2, gap)
  {
    var g := st[|st| - 1];
    SplitTop(st);
    if st1 != [] {
      var fs, f := st1[..|st1| - 1], st1[|st1| - 1];
      SplitTop(st1);
      ClimbLeft(h, a, mx, root, fs, f, g, f1);
      assert st2[..|fs|] == fs;
    }
  }

  // ----- seeking

  /** Where `key` belongs below one node, once the node has been searched. */
  lemma {:induction false} SeekNode(h: Heap, a: Notes, mx: nat, x: Id, key: Key, i: nat, found: bool)
    requires Readable(h, a, mx, x) && x < |a| && SearchedAt(At(h, x).items, key, i, found)
    ensures found ==> Rank(a[x].cont, key) == Offset(h, a, Frame(x, i))
    ensures !found && At(h, x).leaf ==> Rank(a[x].cont, key) == i
    ensures !found && !At(h, x).leaf ==>
              Inner(h, Frame(x, i)) && At(h, x).children[i] < |a|
              && Rank(a[x].cont, key) == |LeftOf(At(h, x), a, i)| + Rank(a[At(h, x).children[i]].cont, key)
  {
    ReadableFacts(h, a, mx, x);
    var n, cont := At(h, x), a[x].cont;
    if n.leaf {
      SearchIsRank(n.items, key, i, found);
    } else if found {
      ItemCut(n, a, cont, i);
      FoundBetween(cont, LeftOf(n, a, i) + a[n.children[i]].cont, n.items[i],
                   a[n.children[i + 1]].cont + RightOf(n, a, i + 1));
    } else {
      GapSides(n, a, cont, i, key);
      NodeCut(n, a, cont, i);
      RankMiddle(LeftOf(n, a, i), a[n.children[i]].cont, RightOf(n, a, i), key);
    }
  }

  /** The same in terms of the chain. */
  lemma {:induction false} SeekHere(h: Heap, a: Notes, mx: nat, root: Id, fs: seq<Frame>, f: Frame, key: Key, found: bool, rank: nat)
    requires Chain(h, a, mx, root, fs + [f]) && f.node < |a| && f.index >= 0
    requires SearchedAt(At(h, f.node).items, key, f.index, found)
    requires rank == |Before(h, a, fs)| + Rank(a[f.node].cont, key)
    ensures found ==> Stood(h, a, mx, root, fs + [f], rank)
    ensures !found && At(h, f.node).leaf ==> rank == |Before(h, a, fs)| + f.index
    ensures !found && !At(h, f.node).leaf ==>
              Inner(h, f) && At(h, f.node).children[f.index] < |a|
              && rank == |Before(h, a, fs + [f])| + Rank(a[At(h, f.node).children[f.index]].cont, key)
  {
    ChainTop(h, a, mx, root, fs, f, 0);
    PositionOf(h, a, fs, f);
    SeekNode(h, a, mx, f.node, key, f.index, found);
    if !found && !At(h, f.node).leaf {
      BeforeSnoc(h, a, fs, f);
    }
  }

  /** A search that ends in a leaf leaves the top frame one short. */
  lemma {:induction false} SeekPoised(h: Heap, a: Notes, mx: nat, root: Id, fs: seq<Frame>, f: Frame, f1: Frame, rank: nat)
    requires Chain(h, a, mx, root, fs + [f]) && At(h, f.node).Node? && At(h, f.node).leaf
    requires 0 <= f.index <= |At(h, f.node).items| && f1 == Frame(f.node, f.index - 1)
    requires rank == |Before(h, a, fs)| + f.index
    ensures Poised(h, a, mx, root, fs + [f1], rank)
  {
    ChainTop(h, a, mx, root, fs, f, f1.index);
    assert (fs + [f1])[..|fs|] == fs;
  }

  lemma StoodPoised(h: Heap, a: Notes, mx: nat, root: Id, st: seq<Frame>, gap: nat)
    requires Stood(h, a, mx, root, st, gap)
    ensures Poised(h, a, mx, root, st, gap + 1)
  {
    var fs, f := st[..|st| - 1], st[|st| - 1];
    SplitTop(st);
    PositionOf(h, a, fs, f);
    ChainTop(h, a, mx, root, fs, f, 0);
    ReadableFacts(h, a, mx, f.node);
  }
}
