/** What single writes and rotations do to the tree that memory spells out. */
module RbMemory {
  import opened SortedItems
  import opened RbShapes
  import opened RbBalance

  /** Replacing the subtree at the end of a path. */
  lemma {:induction false} Replaced(h: Mem, h1: Mem, nil: Node, root: Node, c: Path, t: Shape, t1: Shape)
    requires At(h, nil, root, c, t) && Rep(h1, nil, ParentOf(nil, c), t1)
    requires Ptr(nil, t1) == Ptr(nil, t) && Ids(t1) <= Ids(t) && Same(h, h1, PathIds(c))
    ensures At(h1, nil, root, c, t1)
  {
    PathApart(h, nil, root, c, Ptr(nil, t), Ids(t));
    PathKept(h, h1, nil, root, c, Ptr(nil, t), Ids(t), Ids(t1));
  }

  /** A write to one node's colour, item or timestamp. */
  lemma NodeRewritten(h: Mem, h1: Mem, nil: Node, root: Node, c: Path, t: Shape, color: Color, it: Item, ts: nat)
    requires At(h, nil, root, c, t) && t.Br? && t.node in h
    requires h1 == h[t.node := h[t.node].(color := color, it := it, ts := ts)]
    ensures At(h1, nil, root, c, t.(color := color, it := it, ts := ts)) && t.node != nil
  {
    var t1 := t.(color := color, it := it, ts := ts);
    RepKept(h, h1, nil, t.node, t.left);
    RepKept(h, h1, nil, t.node, t.right);
    assert Rep(h1, nil, ParentOf(nil, c), t1);
    PathApart(h, nil, root, c, t.node, Ids(t));
    Replaced(h, h1, nil, root, c, t, t1);
  }

  lemma {:induction false} Painted(h: Mem, h1: Mem, nil: Node, root: Node, c: Path, t: Shape, color: Color)
    requires At(h, nil, root, c, t) && t.Br? && t.node in h
    requires h1 == h[t.node := h[t.node].(color := color)]
    ensures At(h1, nil, root, c, Paint(t, color)) && Ids(Paint(t, color)) == Ids(t) && t.node != nil
  {
    assert h[t.node].it == t.it && h[t.node].ts == t.ts;
    NodeRewritten(h, h1, nil, root, c, t, color, t.it, t.ts);
  }

  lemma {:induction false} Reparented(h: Mem, h1: Mem, nil: Node, par: Node, par1: Node, t: Shape)
    requires Rep(h, nil, par, t)
    requires t.Br? ==> t.node in h1 && h1[t.node] == h[t.node].(parent := par1) && Same(h, h1, Ids(t) - {t.node})
    ensures Rep(h1, nil, par1, t)
  {
    if t.Br? {
      RepKept(h, h1, nil, t.node, t.left);
      RepKept(h, h1, nil, t.node, t.right);
    }
  }

  // ----- linking another subtree in at the end of a path

  /** Memory after the pointer at the end of `c` was redirected to `p`. */
  ghost predicate Relinked(h: Mem, h1: Mem, root: Node, root1: Node, c: Path, p: Node) {
    match |c|
    case 0 => root1 == p
    case _ =>
      var f := c[|c| - 1];
      root1 == root && f.node in h && f.node in h1 && h1[f.node] == h[f.node].WithChild(f.dir, p)
  }

  lemma {:induction false} Linked(h: Mem, h1: Mem, nil: Node, root: Node, root1: Node, c: Path, t: Shape, t1: Shape)
    requires At(h, nil, root, c, t) && Rep(h1, nil, ParentOf(nil, c), t1)
    requires Relinked(h, h1, root, root1, c, Ptr(nil, t1)) && PathIds(c) !! Ids(t1)
    requires Same(h, h1, PathIds(c) - {ParentOf(nil, c)})
    ensures At(h1, nil, root1, c, t1)
  {
    var p, p1, s, s1 := Ptr(nil, t), Ptr(nil, t1), Ids(t), Ids(t1);
    assert PathRep(h, nil, root, c, p, s);
    if c != [] {
      var c0, f := c[..|c| - 1], c[|c| - 1];
      assert c == c0 + [f];
      var o := Ids(f.other);
      assert FrameRep(h, nil, ParentOf(nil, c0), f, p, s);
      PathApart(h, nil, root, c0, f.node, s + {f.node} + o);
      RepKept(h, h1, nil, f.node, f.other);
      PathKept(h, h1, nil, root, c0, f.node, s + {f.node} + o, s1 + {f.node} + o);
      assert FrameRep(h1, nil, ParentOf(nil, c0), f, p1, s1);
    }
  }

  /** A fresh red node takes the place of the sentinel. */
  lemma AttachedAt(h: Mem, h1: Mem, nil: Node, root: Node, root1: Node, c: Path, z: Node, it: Item, ts: nat)
    requires At(h, nil, root, c, Leaf) && z !in h && z != nil
    requires z in h1 && h1[z] == Rec(Red, it, ts, nil, nil, ParentOf(nil, c))
    requires Relinked(h, h1, root, root1, c, z)
    requires forall n :: n in h && (c != [] ==> n != ParentOf(nil, c)) ==> n in h1 && h1[n] == h[n]
    ensures At(h1, nil, root1, c, Br(z, Red, it, ts, Leaf, Leaf))
  {
    var t1 := Br(z, Red, it, ts, Leaf, Leaf);
    PathApart(h, nil, root, c, nil, Ids(Leaf));
    assert Ids(t1) == {z};
    Linked(h, h1, nil, root, root1, c, Leaf, t1);
  }

  // ----- rotation

  ghost predicate RotatedMem(h: Mem, h1: Mem, nil: Node, d: Dir, c: Path, x: Node, y: Node, b: Shape) {
    && h1.Keys == h.Keys && x in h && y in h
    && h1[x] == h[x].WithChild(Flip(d), Ptr(nil, b)).(parent := y)
    && h1[y] == h[y].WithChild(d, x).(parent := h[x].parent)
    && (b.Br? ==> b.node in h && h1[b.node] == h[b.node].(parent := x))
    && forall n :: n in h && n != x && n != y && n != ParentOf(nil, c) && (b.Br? ==> n != b.node) ==> h1[n] == h[n]
  }

  /** The fields of a branch seen from side `d`. */
  function MkRec(nil: Node, par: Node, d: Dir, color: Color, it: Item, ts: nat, a: Shape, b: Shape): Rec {
    Rec(color, it, ts, Ptr(nil, if d == L then a else b), Ptr(nil, if d == L then b else a), par)
  }

  lemma MkRep(h: Mem, nil: Node, par: Node, d: Dir, n: Node, color: Color, it: Item, ts: nat, a: Shape, b: Shape)
    ensures Rep(h, nil, par, Mk(d, n, color, it, ts, a, b)) <==>
              n != nil && n in h && h[n] == MkRec(nil, par, d, color, it, ts, a, b)
              && n !in Ids(a) && n !in Ids(b) && Ids(a) !! Ids(b) && Rep(h, nil, n, a) && Rep(h, nil, n, b)
    ensures Ids(Mk(d, n, color, it, ts, a, b)) == Ids(a) + {n} + Ids(b)
  {
  }

  lemma {:induction false} RotatedRep(h: Mem, h1: Mem, nil: Node, d: Dir, c: Path, x: Frame, y: Frame, a: Shape, b: Shape, e: Shape)
    requires Rep(h, nil, ParentOf(nil, c), Unrotated(d, x, y, a, b, e)) && RotatedMem(h, h1, nil, d, c, x.node, y.node, b)
    requires c != [] ==> ParentOf(nil, c) !in Ids(Unrotated(d, x, y, a, b, e))
    ensures Rep(h1, nil, ParentOf(nil, c), Rotated(d, x, y, a, b, e))
    ensures Ids(Rotated(d, x, y, a, b, e)) == Ids(Unrotated(d, x, y, a, b, e))
  {
    hide Ids;
    var par := ParentOf(nil, c);
    var ty, tx := Mk(d, y.node, y.color, y.it, y.ts, b, e), Mk(d, x.node, x.color, x.it, x.ts, a, b);
    MkRep(h, nil, par, d, x.node, x.color, x.it, x.ts, a, ty);
    MkRep(h, nil, x.node, d, y.node, y.color, y.it, y.ts, b, e);
    RotatedParts(h, h1, nil, d, c, x.node, y.node, a, b, e);
    MkRep(h1, nil, y.node, d, x.node, x.color, x.it, x.ts, a, b);
    MkRep(h1, nil, par, d, y.node, y.color, y.it, y.ts, tx, e);
  }

  /** The three subtrees a rotation moves around. */
  lemma {:induction false} RotatedParts(h: Mem, h1: Mem, nil: Node, d: Dir, c: Path, x: Node, y: Node, a: Shape, b: Shape, e: Shape)
    requires RotatedMem(h, h1, nil, d, c, x, y, b)
    requires Rep(h, nil, x, a) && Rep(h, nil, y, b) && Rep(h, nil, y, e)
    requires Ids(a) !! Ids(b) !! Ids(e) && {x, y} !! (Ids(a) + Ids(b) + Ids(e))
    requires ParentOf(nil, c) == nil || ParentOf(nil, c) !in Ids(a) + Ids(b) + Ids(e)
    ensures Rep(h1, nil, x, a) && Rep(h1, nil, x, b) && Rep(h1, nil, y, e)
  {
    RepLive(h, nil, x, a);
    RepLive(h, nil, y, b);
    RepLive(h, nil, y, e);
    RepKept(h, h1, nil, x, a);
    RepKept(h, h1, nil, y, e);
    Reparented(h, h1, nil, y, x, b);
  }

  lemma RotatedAt(h: Mem, h1: Mem, nil: Node, root: Node, root1: Node, d: Dir, c: Path, x: Frame, y: Frame,
                  a: Shape, b: Shape, e: Shape)
    requires At(h, nil, root, c, Unrotated(d, x, y, a, b, e)) && RotatedMem(h, h1, nil, d, c, x.node, y.node, b)
    requires Relinked(h, h1, root, root1, c, y.node)
    ensures At(h1, nil, root1, c, Rotated(d, x, y, a, b, e))
    ensures Ids(Rotated(d, x, y, a, b, e)) == Ids(Unrotated(d, x, y, a, b, e))
  {
    hide PathRep, Fits, Relinked;
    var t := Unrotated(d, x, y, a, b, e);
    PathApart(h, nil, root, c, x.node, Ids(t));
    ParentOnPath(nil, c);
    RotatedRep(h, h1, nil, d, c, x, y, a, b, e);
    assert {x.node, y.node} <= Ids(t) && (b.Br? ==> b.node in Ids(t));
    Linked(h, h1, nil, root, root1, c, t, Rotated(d, x, y, a, b, e));
  }

  lemma {:induction false} RootOnPath(h: Mem, nil: Node, root: Node, c: Path, p: Node, s: set<Node>)
    requires PathRep(h, nil, root, c, p, s) && c != []
    ensures root in PathIds(c)
    decreases |c|
  {
    var c0, f := c[..|c| - 1], c[|c| - 1];
    assert PathRep(h, nil, root, c0, f.node, s + {f.node} + Ids(f.other));
    if c0 != [] {
      RootOnPath(h, nil, root, c0, f.node, s + {f.node} + Ids(f.other));
    }
  }

  lemma ParentOnPath(nil: Node, c: Path)
    ensures c != [] ==> ParentOf(nil, c) in PathIds(c)
  {
  }

  // ----- the writes of a rotation, in the order of the code

  ghost function Adopted(h: Mem, nil: Node, m: Node, par: Node): Mem {
    if m == nil || m !in h then h else h[m := h[m].(parent := par)]
  }

  ghost function Redirected(h: Mem, nil: Node, p: Node, d: Dir, y: Node): (h1: Mem)
    ensures h1.Keys == h.Keys
  {
    if p == nil || p !in h then h else h[p := h[p].WithChild(d, y)]
  }

  ghost function RotateMem(h: Mem, nil: Node, d: Dir, x: Node, y: Node, m: Node, p: Node, pd: Dir): Mem
    requires x in h && y in h
  {
    var h1 := h[x := h[x].WithChild(Flip(d), m)];
    var h2 := Adopted(h1, nil, m, x);
    var h3 := h2[y := h2[y].(parent := p)];
    var h4 := Redirected(h3, nil, p, pd, y);
    var h5 := h4[y := h4[y].WithChild(d, x)];
    h5[x := h5[x].(parent := y)]
  }

  lemma RotateMemOk(h: Mem, nil: Node, root: Node, d: Dir, c: Path, x: Frame, y: Frame, a: Shape, b: Shape, e: Shape, h1: Mem)
    requires At(h, nil, root, c, Unrotated(d, x, y, a, b, e)) && x.node in h && y.node in h
    requires h1 == RotateMem(h, nil, d, x.node, y.node, Ptr(nil, b), ParentOf(nil, c), if c == [] then L else c[|c| - 1].dir)
    ensures RotatedMem(h, h1, nil, d, c, x.node, y.node, b)
    ensures nil in h ==> h1[nil] == h[nil]
    ensures c != [] ==> Relinked(h, h1, root, root, c, y.node)
  {
    RotationFacts(h, nil, root, d, c, x, y, a, b, e);
  }

  lemma RotateDone(h: Mem, h1: Mem, nil: Node, root: Node, root1: Node, d: Dir, c: Path, x: Frame, y: Frame,
                   a: Shape, b: Shape, e: Shape)
    requires At(h, nil, root, c, Unrotated(d, x, y, a, b, e)) && x.node in h && y.node in h
    requires h1 == RotateMem(h, nil, d, x.node, y.node, Ptr(nil, b), ParentOf(nil, c), if c == [] then L else c[|c| - 1].dir)
    requires root1 == if ParentOf(nil, c) == nil then y.node else root
    ensures At(h1, nil, root1, c, Rotated(d, x, y, a, b, e)) && h1.Keys == h.Keys && (nil in h ==> h1[nil] == h[nil])
    ensures Ids(Rotated(d, x, y, a, b, e)) == Ids(Unrotated(d, x, y, a, b, e))
  {
    RotationFacts(h, nil, root, d, c, x, y, a, b, e);
    RotateMemOk(h, nil, root, d, c, x, y, a, b, e, h1);
    RotatedAt(h, h1, nil, root, root1, d, c, x, y, a, b, e);
  }

  /** What a rotation finds in memory. */
  lemma RotationFacts(h: Mem, nil: Node, root: Node, d: Dir, c: Path, x: Frame, y: Frame, a: Shape, b: Shape, e: Shape)
    requires At(h, nil, root, c, Unrotated(d, x, y, a, b, e))
    ensures x.node in h && y.node in h && x.node != nil && y.node != nil && x.node != y.node
    ensures h[x.node] == MkRec(nil, ParentOf(nil, c), d, x.color, x.it, x.ts, a, Mk(d, y.node, y.color, y.it, y.ts, b, e))
    ensures h[y.node] == MkRec(nil, x.node, d, y.color, y.it, y.ts, b, e)
    ensures b.Br? ==> b.node in h && b.node != nil && b.node != x.node && b.node != y.node && h[b.node].parent == y.node
    ensures c != [] ==>
              var f := c[|c| - 1];
              f.node in h && f.node != nil && f.node != x.node && f.node != y.node && (b.Br? ==> f.node != b.node)
              && h[f.node].Child(f.dir) == x.node && h[f.node].Child(Flip(f.dir)) != x.node
  {
    var par := ParentOf(nil, c);
    var ty := Mk(d, y.node, y.color, y.it, y.ts, b, e);
    MkRep(h, nil, par, d, x.node, x.color, x.it, x.ts, a, ty);
    MkRep(h, nil, x.node, d, y.node, y.color, y.it, y.ts, b, e);
    if c != [] {
      var f := c[|c| - 1];
      assert PathRep(h, nil, root, c, x.node, Ids(Unrotated(d, x, y, a, b, e)));
      assert FrameRep(h, nil, ParentOf(nil, c[..|c| - 1]), f, x.node, Ids(Unrotated(d, x, y, a, b, e)));
    }
  }

  // ----- the writes of an insertion

  ghost function AttachMem(h: Mem, nil: Node, z: Node, r: Rec, y: Node, d: Dir): Mem {
    var h1 := h[z := r];
    var h2 := Redirected(h1[z := h1[z].(parent := y)], nil, y, d, z);
    h2[z := h2[z].(color := Red, left := nil, right := nil)]
  }

  lemma {:induction false} AttachMemOk(h: Mem, h1: Mem, nil: Node, root: Node, root1: Node, c: Path, z: Node, r: Rec, d: Dir)
    requires At(h, nil, root, c, Leaf) && z !in h && z != nil && nil in h
    requires h1 == AttachMem(h, nil, z, r, ParentOf(nil, c), d) && (c != [] ==> d == c[|c| - 1].dir)
    requires root1 == if ParentOf(nil, c) == nil then z else root
    ensures At(h1, nil, root1, c, Br(z, Red, r.it, r.ts, Leaf, Leaf))
    ensures h1.Keys == h.Keys + {z} && h1[nil] == h[nil]
    ensures PathIds(c) + Ids(Br(z, Red, r.it, r.ts, Leaf, Leaf)) == PathIds(c) + Ids(Leaf) + {z}
  {
    PathApart(h, nil, root, c, nil, Ids(Leaf));
    ParentOnPath(nil, c);
    assert Ids(Br(z, Red, r.it, r.ts, Leaf, Leaf)) == {z};
    AttachedAt(h, h1, nil, root, root1, c, z, r.it, r.ts);
  }

  // ----- the writes of a deletion

  /** Memory once `x` has taken the place of `y` below `par`. */
  ghost function SpliceMem(h: Mem, nil: Node, y: Node, x: Node, par: Node, d: Dir): Mem
    requires x in h
  {
    Redirected(h[x := h[x].(parent := par)], nil, par, d, x) - {y}
  }

  /** Splicing only touches links. */
  lemma SpliceItem(h: Mem, nil: Node, y: Node, x: Node, par: Node, d: Dir, n: Node)
    requires x in h && n in h && n != y
    ensures var h1 := SpliceMem(h, nil, y, x, par, d); n in h1 && h1[n].it == h[n].it
  {
  }

  lemma {:induction false} SplicedApart(h: Mem, nil: Node, root: Node, c: Path, y: Shape, x: Shape)
    requires At(h, nil, root, c, y) && nil in h && y.Br? && (y.left.Leaf? || y.right.Leaf?)
    requires x == (if y.left.Br? then y.left else y.right)
    ensures Ids(y) == Ids(x) + {y.node} && y.node !in Ids(x) && Rep(h, nil, y.node, x) && y.node != nil
    ensures PathIds(c) !! Ids(y) && nil !in PathIds(c) && nil !in Ids(x) && Ids(x) <= h.Keys
    ensures c != [] ==> ParentOf(nil, c) in PathIds(c)
  {
    PathApart(h, nil, root, c, y.node, Ids(y));
    ParentOnPath(nil, c);
    RepLive(h, nil, y.node, x);
  }

  lemma {:induction false} SplicedAt(h: Mem, h1: Mem, nil: Node, root: Node, root1: Node, c: Path, y: Shape, x: Shape, d: Dir)
    requires At(h, nil, root, c, y) && nil in h && y.Br? && (y.left.Leaf? || y.right.Leaf?)
    requires x == (if y.left.Br? then y.left else y.right) && Ptr(nil, x) in h
    requires h1 == SpliceMem(h, nil, y.node, Ptr(nil, x), ParentOf(nil, c), d) && (c != [] ==> d == c[|c| - 1].dir)
    requires root1 == if ParentOf(nil, c) == nil then Ptr(nil, x) else root
    requires h.Keys == PathIds(c) + Ids(y) + {nil}
    ensures At(h1, nil, root1, c, x) && h1.Keys == h.Keys - {y.node} && h1.Keys == PathIds(c) + Ids(x) + {nil}
    ensures nil in h1 && h1[nil].color == h[nil].color && (x.Leaf? ==> h1[nil].parent == ParentOf(nil, c))
  {
    var par := ParentOf(nil, c);
    SplicedApart(h, nil, root, c, y, x);
    SpliceLinks(h, h1, nil, root, root1, c, y.node, x, par, d);
    SpliceKeys(h, h1, nil, y.node, Ptr(nil, x), par, d);
    Linked(h, h1, nil, root, root1, c, y, x);
  }

  lemma {:induction false} SpliceLinks(h: Mem, h1: Mem, nil: Node, root: Node, root1: Node, c: Path, y: Node, x: Shape, par: Node, d: Dir)
    requires nil in h && Ptr(nil, x) in h && par == ParentOf(nil, c) && (c != [] ==> d == c[|c| - 1].dir)
    requires h1 == SpliceMem(h, nil, y, Ptr(nil, x), par, d) && Rep(h, nil, y, x)
    requires root1 == if par == nil then Ptr(nil, x) else root
    requires y !in PathIds(c) && PathIds(c) !! Ids(x) && nil !in PathIds(c) + Ids(x) && y !in Ids(x)
    requires (c != [] ==> par in PathIds(c)) && PathIds(c) <= h.Keys
    ensures Rep(h1, nil, par, x) && Relinked(h, h1, root, root1, c, Ptr(nil, x)) && Same(h, h1, PathIds(c) - {par})
  {
    Reparented(h, h1, nil, y, par, x);
  }

  lemma SpliceKeys(h: Mem, h1: Mem, nil: Node, y: Node, x: Node, par: Node, d: Dir)
    requires nil in h && x in h && y != nil && h1 == SpliceMem(h, nil, y, x, par, d)
    ensures h1.Keys == h.Keys - {y}
    ensures nil in h1 && h1[nil].color == h[nil].color && (x == nil ==> h1[nil].parent == par)
  {
  }

  /** A node on the path takes over another item. */
  lemma {:induction false} PathItem(h: Mem, h1: Mem, nil: Node, root: Node, c: Path, f: Frame, ls: Path, it: Item,
                                    p: Node, s: set<Node>)
    requires PathRep(h, nil, root, c + [f] + ls, p, s) && f.node in h && h1 == h[f.node := h[f.node].(it := it)]
    ensures PathRep(h1, nil, root, c + [f.(it := it)] + ls, p, s) && f.node in PathIds(c + [f] + ls)
    decreases |ls|
  {
    var f1 := f.(it := it);
    if ls == [] {
      assert c + [f] + ls == c + [f] && c + [f1] + ls == c + [f1];
      SplitPath(c, f);
      SplitPath(c, f1);
      assert FrameRep(h, nil, ParentOf(nil, c), f, p, s);
      PathApart(h, nil, root, c, f.node, s + {f.node} + Ids(f.other));
      RepKept(h, h1, nil, f.node, f.other);
      PathKept(h, h1, nil, root, c, f.node, s + {f.node} + Ids(f.other), s + {f.node} + Ids(f.other));
    } else {
      var ls0, g := ls[..|ls| - 1], ls[|ls| - 1];
      assert c + [f] + ls == (c + [f] + ls0) + [g] && c + [f1] + ls == (c + [f1] + ls0) + [g];
      SplitPath(c + [f] + ls0, g);
      SplitPath(c + [f1] + ls0, g);
      var s1 := s + {g.node} + Ids(g.other);
      assert FrameRep(h, nil, ParentOf(nil, c + [f] + ls0), g, p, s);
      PathItem(h, h1, nil, root, c, f, ls0, it, g.node, s1);
      PathApart(h, nil, root, c + [f] + ls0, g.node, s1);
      RepKept(h, h1, nil, g.node, g.other);
      assert ParentOf(nil, c + [f1] + ls0) == ParentOf(nil, c + [f] + ls0);
    }
  }

  lemma {:induction false} PathItemIds(c: Path, f: Frame, ls: Path, it: Item)
    ensures PathIds(c + [f.(it := it)] + ls) == PathIds(c + [f] + ls)
    ensures |c + [f.(it := it)] + ls| == |c + [f] + ls|
    decreases |ls|
  {
    var f1 := f.(it := it);
    if ls == [] {
      assert c + [f] + ls == c + [f] && c + [f1] + ls == c + [f1];
      SplitPath(c, f);
      SplitPath(c, f1);
    } else {
      var ls0, g := ls[..|ls| - 1], ls[|ls| - 1];
      assert c + [f] + ls == (c + [f] + ls0) + [g] && c + [f1] + ls == (c + [f1] + ls0) + [g];
      SplitPath(c + [f] + ls0, g);
      SplitPath(c + [f1] + ls0, g);
      PathItemIds(c, f, ls0, it);
    }
  }

  lemma {:induction false} ItemTakenAt(h: Mem, h1: Mem, nil: Node, root: Node, c: Path, f: Frame, ls: Path, it: Item, t: Shape)
    requires At(h, nil, root, c + [f] + ls, t) && f.node in h && h1 == h[f.node := h[f.node].(it := it)]
    ensures At(h1, nil, root, c + [f.(it := it)] + ls, t) && PathIds(c + [f.(it := it)] + ls) == PathIds(c + [f] + ls)
    ensures f.node != nil && ParentOf(nil, c + [f.(it := it)] + ls) == ParentOf(nil, c + [f] + ls)
  {
    var cc := c + [f] + ls;
    PathItem(h, h1, nil, root, c, f, ls, it, Ptr(nil, t), Ids(t));
    PathItemIds(c, f, ls, it);
    PathApart(h, nil, root, cc, Ptr(nil, t), Ids(t));
    RepKept(h, h1, nil, ParentOf(nil, cc), t);
    if ls == [] {
      assert cc == c + [f] && c + [f.(it := it)] + ls == c + [f.(it := it)];
    }
  }

  /** The same for a memory that holds nothing but the tree. */
  lemma {:induction false} ItemTakenOn(h: Mem, h1: Mem, nil: Node, root: Node, p: Path, p1: Path, c: Path, f: Frame, ls: Path,
                                       it: Item, t: Shape)
    requires p == c + [f] + ls && p1 == c + [f.(it := it)] + ls && At(h, nil, root, p, t) && nil in h
    requires f.node in h && h1 == h[f.node := h[f.node].(it := it)] && h.Keys == PathIds(p) + Ids(t) + {nil}
    ensures At(h1, nil, root, p1, t) && h1.Keys == h.Keys == PathIds(p1) + Ids(t) + {nil} && h1[nil] == h[nil]
    ensures ParentOf(nil, p1) == ParentOf(nil, p)
  {
    ItemTakenAt(h, h1, nil, root, c, f, ls, it, t);
  }

  /** The node at the end of the path gets another value and timestamp. */
  lemma {:induction false} NodeRewrittenOn(h: Mem, h1: Mem, nil: Node, root: Node, c: Path, t: Shape, t1: Shape)
    requires At(h, nil, root, c, t) && t.Br? && t.node in h && nil in h && h.Keys == PathIds(c) + Ids(t) + {nil}
    requires t1.Br? && t1 == t.(it := t1.it, ts := t1.ts) && h1 == h[t.node := h[t.node].(it := t1.it, ts := t1.ts)]
    requires h[t.node].color == t.color
    ensures At(h1, nil, root, c, t1) && h1.Keys == h.Keys == PathIds(c) + Ids(t1) + {nil} && h1[nil] == h[nil]
  {
    NodeRewritten(h, h1, nil, root, c, t, t.color, t1.it, t1.ts);
    assert Ids(t1) == Ids(t);
  }
}
