/** Search order along a path of a red-black tree. */
module RbOrder {
  import opened Keys
  import opened SortedItems
  import opened RbShapes
  import opened RbBalance

  /** The key belongs below the end of the path. */
  ghost predicate Gap(c: Path, key: Key) { Below(Before(c), key) && Above(key, After(c)) }

  /** The whole tree, cut at the item of the branch at the end of the path. */
  lemma {:induction false} CutBranch(c: Path, t: Shape)
    requires t.Br?
    ensures Whole(c, t) == (Before(c) + Items(t.left)) + [t.it] + (Items(t.right) + After(c))
    ensures Before(c + [FrameOf(t, R)]) == Before(c) + Items(t.left) + [t.it]
    ensures After(c + [FrameOf(t, R)]) == After(c)
    ensures Before(c + [FrameOf(t, L)]) == Before(c)
    ensures After(c + [FrameOf(t, L)]) == [t.it] + (Items(t.right) + After(c))
  {
    SplitPath(c, FrameOf(t, L));
    SplitPath(c, FrameOf(t, R));
    var b, l, r, a := Before(c), Items(t.left), Items(t.right), After(c);
    assert b + (l + [t.it] + r) + a == (b + l) + [t.it] + (r + a);
    assert b + (l + [t.it]) == b + l + [t.it];
    assert [] + a == a && b + [] == b && [t.it] + r + a == [t.it] + (r + a);
  }

  /** Comparing with the branch's key tells on which side the search goes on. */
  lemma Turn(c: Path, t: Shape, key: Key, d: Dir)
    requires t.Br? && Sorted(Whole(c, t)) && Gap(c, key)
    requires if d == L then Less(key, t.it.key) else Less(t.it.key, key)
    ensures Gap(c + [FrameOf(t, d)], key)
  {
    if d == L { TurnLeft(c, t, key); } else { TurnRight(c, t, key); }
  }

  lemma TurnLeft(c: Path, t: Shape, key: Key)
    requires t.Br? && Sorted(Whole(c, t)) && Gap(c, key) && Less(key, t.it.key)
    ensures Gap(c + [FrameOf(t, L)], key)
  {
    CutBranch(c, t);
    CutSides(Before(c) + Items(t.left), t.it, Items(t.right) + After(c));
    AboveCut(t.it, Items(t.right) + After(c), key);
  }

  lemma TurnRight(c: Path, t: Shape, key: Key)
    requires t.Br? && Sorted(Whole(c, t)) && Gap(c, key) && Less(t.it.key, key)
    ensures Gap(c + [FrameOf(t, R)], key)
  {
    CutBranch(c, t);
    CutSides(Before(c) + Items(t.left), t.it, Items(t.right) + After(c));
    BelowCut(Before(c) + Items(t.left), t.it, key);
  }

  /** The search has hit the key. */
  lemma {:induction false} Hit(c: Path, t: Shape)
    requires t.Br? && Sorted(Whole(c, t))
    ensures Lookup(Whole(c, t), t.it.key) == Some(t.it)
    ensures Has(Whole(c, t), t.it.key) && Rank(Whole(c, t), t.it.key) == |Before(c)| + |Items(t.left)|
  {
    CutBranch(c, t);
    CutSides(Before(c) + Items(t.left), t.it, Items(t.right) + After(c));
    RankHere(Before(c) + Items(t.left), t.it, Items(t.right) + After(c));
  }

  /** The search has run into the sentinel. */
  lemma {:induction false} DeadEnd(c: Path, key: Key)
    requires Gap(c, key)
    ensures !Has(Whole(c, Leaf), key) && Lookup(Whole(c, Leaf), key) == None
    ensures Rank(Whole(c, Leaf), key) == |Before(c)|
  {
    RankMiddle(Before(c), [], After(c), key);
  }

  /** The way a search goes. */
  function Descent(t: Shape, key: Key): Path {
    if t.Leaf? || Strcmp(key, t.it.key) == 0 then []
    else
      var d := if Strcmp(key, t.it.key) < 0 then L else R;
      [FrameOf(t, d)] + Descent(Side(t, d), key)
  }

  /** There is only one way to a gap or a key. */
  lemma {:induction false} DescentIs(c: Path, t: Shape, key: Key)
    requires Gap(c, key)
    ensures Descent(Plug(c, t), key) == c + Descent(t, key)
    decreases |c|
  {
    if c == [] {
      assert c + Descent(t, key) == Descent(t, key);
    } else {
      var c0, f := c[..|c| - 1], c[|c| - 1];
      assert c == c0 + [f];
      GapAbove(c0, f, key);
      DescentIs(c0, Fill(f, t), key);
      assert Descent(Fill(f, t), key) == [f] + Descent(t, key);
      assert c0 + ([f] + Descent(t, key)) == c + Descent(t, key);
    }
  }

  lemma {:induction false} GapAbove(c: Path, f: Frame, key: Key)
    requires Gap(c + [f], key)
    ensures Gap(c, key) && (if f.dir == L then Strcmp(key, f.it.key) < 0 else Strcmp(key, f.it.key) > 0)
  {
    SplitPath(c, f);
    var b, a := Before(c + [f]), After(c + [f]);
    if f.dir == R {
      assert b == Before(c) + (Items(f.other) + [f.it]) && a == [] + After(c) == After(c);
      assert b[|b| - 1] == f.it;
      StrcmpFlip(key, f.it.key);
      assert forall i :: 0 <= i < |Before(c)| ==> b[i] == Before(c)[i];
    } else {
      assert b == Before(c) + [] == Before(c) && a == [f.it] + Items(f.other) + After(c);
      assert a[0] == f.it;
      assert forall i :: 0 <= i < |After(c)| ==> a[1 + |Items(f.other)| + i] == After(c)[i];
    }
  }

  /** A new node at a dead end. */
  lemma Inserted(c: Path, z: Shape, it: Item)
    requires z.Br? && z.left.Leaf? && z.right.Leaf? && z.it == it && Gap(c, it.key)
    ensures Whole(c, z) == Upsert(Whole(c, Leaf), it)
  {
    UpsertMiddle(Before(c), [], After(c), it);
    assert Items(z) == [it] && Upsert([], it) == [it];
  }

  /** Giving the node another value replaces its item. */
  lemma Revalued(c: Path, t: Shape, t1: Shape, w: seq<Item>)
    requires t.Br? && t1.Br? && t1.left == t.left && t1.right == t.right && t1.it.key == t.it.key
    requires w == Whole(c, t) && Sorted(w)
    ensures Whole(c, t1) == Upsert(w, t1.it)
  {
    CutBranch(c, t);
    CutBranch(c, t1);
    UpsertCut(Before(c) + Items(t.left), t.it, Items(t.right) + After(c), t1.it);
  }

  // ----- the leftmost way down, and what deletion leaves

  ghost predicate AllLeft(ls: Path) { forall i :: 0 <= i < |ls| ==> ls[i].dir == L }

  /** Going down left children only, nothing comes before. */
  lemma {:induction false} LeftBefore(c: Path, ls: Path)
    requires AllLeft(ls)
    ensures Before(c + ls) == Before(c)
    decreases |ls|
  {
    if ls == [] {
      assert c + ls == c;
    } else {
      var ls0, g := ls[..|ls| - 1], ls[|ls| - 1];
      assert c + ls == (c + ls0) + [g];
      SplitPath(c + ls0, g);
      LeftBefore(c, ls0);
    }
  }

  /** What comes after a path does not depend on the item of a node left on the right. */
  lemma {:induction false} AfterItem(c: Path, f: Frame, ls: Path, it: Item)
    requires f.dir == R
    ensures After(c + [f.(it := it)] + ls) == After(c + [f] + ls)
    decreases |ls|
  {
    var f1 := f.(it := it);
    if ls == [] {
      assert c + [f] + ls == c + [f] && c + [f1] + ls == c + [f1];
      SplitPath(c, f);
      SplitPath(c, f1);
    } else {
      var ls0, g := ls[..|ls| - 1], ls[|ls| - 1];
      assert c + [f] + ls == (c + [f] + ls0) + [g] && c + [f1] + ls == (c + [f1] + ls0) + [g];
      SplitPath(c + [f] + ls0, g);
      SplitPath(c + [f1] + ls0, g);
      AfterItem(c, f, ls0, it);
    }
  }

  /** Splicing out a node with at most one child removes its item. */
  lemma {:induction false} SplicedWhole(c: Path, y: Shape, x: Shape, w: seq<Item>, i: nat)
    requires y.Br? && (y.left.Leaf? || y.right.Leaf?) && x == if y.left.Br? then y.left else y.right
    requires w == Whole(c, y) && i == |Before(c)| + |Items(y.left)| < |w|
    ensures Whole(c, x) == RemoveAt(w, i)
  {
    var l, r := Before(c) + Items(y.left), Items(y.right) + After(c);
    calc {
      RemoveAt(w, i);
      { CutBranch(c, y); assert i == |l|; }
      RemoveAt(l + [y.it] + r, |l|);
      { RemoveCut(l, y.it, r); }
      l + r;
      { OneChild(c, y, x); }
      Whole(c, x);
    }
  }

  lemma {:induction false} OneChild(c: Path, y: Shape, x: Shape)
    requires y.Br? && (y.left.Leaf? || y.right.Leaf?) && x == if y.left.Br? then y.left else y.right
    ensures Before(c) + Items(y.left) + (Items(y.right) + After(c)) == Whole(c, x)
  {
    var b, a := Before(c), After(c);
    if y.left.Br? {
      assert b + Items(x) + ([] + a) == b + Items(x) + a;
    } else {
      assert (b + []) + (Items(x) + a) == b + Items(x) + a;
    }
  }

  /** Splicing out the successor, whose item moves into `z`, removes the item of `z`. */
  lemma SwappedWhole(c: Path, z: Shape, f: Frame, f1: Frame, ls: Path, y: Shape) returns (i: nat)
    requires z.Br? && y.Br? && y.left.Leaf? && AllLeft(ls) && f == FrameOf(z, R) && f1 == f.(it := y.it)
    requires Whole(c + [f] + ls, y) == Whole(c, z)
    ensures i == |Before(c)| + |Items(z.left)| < |Whole(c, z)|
    ensures Whole(c + [f1] + ls, y.right) == RemoveAt(Whole(c, z), i)
  {
    var l, a := Before(c) + Items(z.left), After(c + [f] + ls);
    var r := Items(y.right);
    i := |l|;
    assert Items(y) == [] + [y.it] + r;
    calc {
      Whole(c + [f1] + ls, y.right);
      { SpineWhole(c, f1, ls, y.right); AfterItem(c, f, ls, y.it); }
      (l + [y.it]) + r + a;
      { SwapParts(l, z.it, y.it, r, a); }
      RemoveAt((l + [z.it]) + ([] + [y.it] + r) + a, i);
      { SpineWhole(c, f, ls, y); }
      RemoveAt(Whole(c, z), i);
    }
    SpineWhole(c, f, ls, y);
  }

  lemma {:induction false} SpineWhole(c: Path, f: Frame, ls: Path, t: Shape)
    requires f.dir == R && AllLeft(ls)
    ensures Whole(c + [f] + ls, t) == (Before(c) + Items(f.other) + [f.it]) + Items(t) + After(c + [f] + ls)
  {
    SpineBefore(c, f, ls);
  }

  lemma {:induction false} SpineBefore(c: Path, f: Frame, ls: Path)
    requires f.dir == R && AllLeft(ls)
    ensures Before(c + [f] + ls) == Before(c) + Items(f.other) + [f.it]
  {
    SplitPath(c, f);
    LeftBefore(c + [f], ls);
    assert Before(c) + (Items(f.other) + [f.it]) == Before(c) + Items(f.other) + [f.it];
  }

  lemma SwapParts(l: seq<Item>, z: Item, y: Item, r: seq<Item>, a: seq<Item>)
    ensures |l| < |(l + [z]) + ([] + [y] + r) + a|
    ensures RemoveAt((l + [z]) + ([] + [y] + r) + a, |l|) == (l + [y]) + r + a
  {
    RemoveCut(l, z, [y] + r + a);
    assert (l + [z]) + ([] + [y] + r) + a == l + [z] + ([y] + r + a);
  }

  // ----- positions

  /** How many items come before that of the branch at the end of the path. */
  function Pos(c: Path, t: Shape): nat
    requires t.Br?
  {
    |Before(c)| + |Items(t.left)|
  }

  lemma PosItem(c: Path, t: Shape)
    requires t.Br?
    ensures Pos(c, t) < |Whole(c, t)| && Whole(c, t)[Pos(c, t)] == t.it
  {
    CutBranch(c, t);
  }

  /** The leftmost node below the right child comes next. */
  lemma PosNextBelow(c: Path, t: Shape, f: Frame, ls: Path, t1: Shape)
    requires t.Br? && f == FrameOf(t, R) && AllLeft(ls) && t1.Br? && t1.left.Leaf?
    ensures Pos(c + [f] + ls, t1) == Pos(c, t) + 1
  {
    SpineBefore(c, f, ls);
  }

  /** A node above a finished right subtree is finished as well; above a finished left subtree comes next. */
  lemma {:induction false} PosAbove(c: Path, f: Frame, u: Shape, n: nat)
    requires n == |Before(c + [f])| + |Items(u)|
    ensures Fill(f, u).Br?
    ensures f.dir == R ==> n == |Before(c)| + |Items(Fill(f, u))|
    ensures f.dir == L ==> n == Pos(c, Fill(f, u))
  {
    SplitPath(c, f);
  }

  // ----- the first key at or above a bound

  ghost predicate NotBelow(s: seq<Item>, k: Key) { forall i :: 0 <= i < |s| ==> !Less(s[i].key, k) }

  /** The first item at or above the bound is below the end of the path, or comes right after it. */
  ghost predicate Bracket(c: Path, key: Key) { Below(Before(c), key) && NotBelow(After(c), key) }

  lemma NotBelowCut(it: Item, r: seq<Item>, key: Key)
    requires Above(it.key, r) && !Less(it.key, key)
    ensures NotBelow([it] + r, key)
  {
    forall i | 0 <= i < |r|
      ensures !Less(r[i].key, key)
    {
      if Less(r[i].key, key) { LessTransitive(it.key, r[i].key, key); }
    }
  }

  lemma BracketTurn(c: Path, t: Shape, key: Key, d: Dir)
    requires t.Br? && Sorted(Whole(c, t)) && Bracket(c, key) && (d == R <==> Less(t.it.key, key))
    ensures Bracket(c + [FrameOf(t, d)], key)
  {
    CutBranch(c, t);
    CutSides(Before(c) + Items(t.left), t.it, Items(t.right) + After(c));
    if d == L {
      NotBelowCut(t.it, Items(t.right) + After(c), key);
    } else {
      BelowCut(Before(c) + Items(t.left), t.it, key);
    }
  }

  lemma {:induction false} BracketRank(c: Path, key: Key)
    requires Bracket(c, key)
    ensures Rank(Whole(c, Leaf), key) == |Before(c)|
  {
    RankUnique(Whole(c, Leaf), key, |Before(c)|);
  }
}
