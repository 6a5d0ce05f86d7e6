/** Colours and black heights, for a tree in one piece and for a subtree in its context. */
module RbBalance {
  import opened SortedItems
  import opened RbShapes

  /** How much black a node of this colour adds. */
  function Step(color: Color): nat { if color == Black then 1 else 0 }

  /** Every way down passes `k` black nodes. */
  ghost predicate Bh(t: Shape, k: nat) {
    match t
    case Leaf => k == 0
    case Br(_, color, _, _, l, r) => Step(color) <= k && Bh(l, k - Step(color)) && Bh(r, k - Step(color))
  }

  function BlackHeight(t: Shape): nat {
    if t.Leaf? then 0 else BlackHeight(t.left) + Step(t.color)
  }

  /** No red node has a red child. */
  ghost predicate NoRedRed(t: Shape) {
    match t
    case Leaf => true
    case Br(_, color, _, _, l, r) =>
      && (color == Red ==> ColorOf(l) == Black && ColorOf(r) == Black)
      && NoRedRed(l) && NoRedRed(r)
  }

  ghost predicate RedBlack(t: Shape) {
    ColorOf(t) == Black && NoRedRed(t) && Bh(t, BlackHeight(t))
  }

  function HoleColor(c: Path): Color { if c == [] then Black else c[|c| - 1].color }

  /** A red node hangs below a black one; the root is not red. */
  predicate RedAllowed(c: Path) { c != [] && HoleColor(c) == Black }

  /** The context is in order and waits for a subtree of black height `k`. */
  ghost predicate Ctx(c: Path, k: nat)
    decreases |c|
  {
    match |c|
    case 0 => true
    case _ =>
      var c0, f := c[..|c| - 1], c[|c| - 1];
      && Bh(f.other, k) && NoRedRed(f.other)
      && (f.color == Red ==> ColorOf(f.other) == Black && RedAllowed(c0))
      && Ctx(c0, k + Step(f.color))
  }

  ghost predicate Fits(c: Path, t: Shape, k: nat) {
    Ctx(c, k) && Bh(t, k) && NoRedRed(t) && (ColorOf(t) == Red ==> RedAllowed(c))
  }

  lemma {:induction false} BhIsBlackHeight(t: Shape, k: nat)
    requires Bh(t, k)
    ensures BlackHeight(t) == k
  {
    if t.Br? { BhIsBlackHeight(t.left, k - Step(t.color)); }
  }

  lemma {:induction false} CtxSplit(c: Path, f: Frame, k: nat)
    ensures Ctx(c + [f], k) <==>
              Bh(f.other, k) && NoRedRed(f.other)
              && (f.color == Red ==> ColorOf(f.other) == Black && RedAllowed(c)) && Ctx(c, k + Step(f.color))
    ensures HoleColor(c + [f]) == f.color
  {
    SplitPath(c, f);
  }

  lemma FitsDown(c: Path, f: Frame, u: Shape, k: nat)
    requires Fits(c, Fill(f, u), k)
    ensures Step(f.color) <= k && Fits(c + [f], u, k - Step(f.color))
  {
    CtxSplit(c, f, k - Step(f.color));
  }

  lemma FitsUp(c: Path, f: Frame, u: Shape, k: nat)
    requires Fits(c + [f], u, k)
    ensures Fits(c, Fill(f, u), k + Step(f.color))
  {
    CtxSplit(c, f, k);
  }

  lemma {:induction false} FitsTop(c: Path, t: Shape, k: nat)
    requires Fits(c, t, k)
    ensures RedBlack(Plug(c, t))
    decreases |c|
  {
    if c == [] {
      BhIsBlackHeight(t, k);
    } else {
      var c0, f := c[..|c| - 1], c[|c| - 1];
      assert c == c0 + [f];
      FitsUp(c0, f, t, k);
      FitsTop(c0, Fill(f, t), k + Step(f.color));
    }
  }

  lemma FitsAlone(t: Shape)
    requires RedBlack(t)
    ensures Fits([], t, BlackHeight(t))
  {
  }

  // ----- rotation

  /** `x` with its child `y` away from side `d`, before and after rotating towards `d`. */
  function Unrotated(d: Dir, x: Frame, y: Frame, a: Shape, b: Shape, e: Shape): Shape {
    Mk(d, x.node, x.color, x.it, x.ts, a, Mk(d, y.node, y.color, y.it, y.ts, b, e))
  }

  function Rotated(d: Dir, x: Frame, y: Frame, a: Shape, b: Shape, e: Shape): Shape {
    Mk(d, y.node, y.color, y.it, y.ts, Mk(d, x.node, x.color, x.it, x.ts, a, b), e)
  }

  /** Rotation keeps the order of the items. */
  lemma RotateItems(d: Dir, x: Frame, y: Frame, a: Shape, b: Shape, e: Shape)
    ensures Items(Unrotated(d, x, y, a, b, e)) == Items(Rotated(d, x, y, a, b, e))
  {
    var ia, ib, ie := Items(a), Items(b), Items(e);
    if d == L {
      assert ia + [x.it] + (ib + [y.it] + ie) == (ia + [x.it] + ib) + [y.it] + ie;
    } else {
      assert (ie + [y.it] + ib) + [x.it] + ia == ie + [y.it] + (ib + [x.it] + ia);
    }
  }

  /** The branch `t` as a step down on side `d`, and what lies there. */
  function FrameOf(t: Shape, d: Dir): Frame
    requires t.Br?
  {
    Frame(t.node, t.color, t.it, t.ts, d, if d == L then t.right else t.left)
  }

  function Side(t: Shape, d: Dir): Shape
    requires t.Br?
  {
    if d == L then t.left else t.right
  }

  /** Rotations inside a context keep the order too. */
  lemma RotateWhole(c: Path, d: Dir, x: Frame, y: Frame, a: Shape, b: Shape, e: Shape)
    ensures Whole(c, Unrotated(d, x, y, a, b, e)) == Whole(c, Rotated(d, x, y, a, b, e))
  {
    RotateItems(d, x, y, a, b, e);
  }

  // ----- insertion

  /** A red subtree that may hang below a red node or be the root. */
  ghost predicate RedFits(c: Path, t: Shape, k: nat) {
    Ctx(c, k) && Bh(t, k) && NoRedRed(t) && ColorOf(t) == Red
  }

  lemma FreshRed(c: Path, z: Shape, k: nat)
    requires Fits(c, Leaf, k) && z.Br? && z.color == Red && z.left.Leaf? && z.right.Leaf?
    ensures RedFits(c, z, k)
  {
  }

  function Recolored(g: Frame, p: Frame, t: Shape): Shape {
    Fill(g.(color := Red, other := Paint(g.other, Black)), Fill(p.(color := Black), t))
  }

  /** Red uncle: the redness moves up two levels. */
  lemma InsertRecolor(c: Path, g: Frame, p: Frame, t: Shape, k: nat)
    requires RedFits(c + [g] + [p], t, k) && p.color == Red && ColorOf(g.other) == Red
    ensures g.color == Black
    ensures RedFits(c, Recolored(g, p, t), k + 1)
    ensures Whole(c, Recolored(g, p, t)) == Whole(c + [g] + [p], t)
  {
    CtxSplit(c + [g], p, k);
    CtxSplit(c, g, k);
    WholeUp(c + [g], p, t);
    WholeUp(c, g, Fill(p, t));
    SameItems(g, g.(color := Red, other := Paint(g.other, Black)), Fill(p, t), Fill(p.(color := Black), t));
  }

  lemma SameItems(f: Frame, f1: Frame, t: Shape, t1: Shape)
    requires f1.it == f.it && f1.dir == f.dir && Items(f1.other) == Items(f.other) && Items(t1) == Items(t)
    ensures Items(Fill(f1, t1)) == Items(Fill(f, t))
  {
  }

  /** The inner grandchild `t` takes the place of its parent `p`, which becomes its child. */
  function InnerFrame(g: Frame, t: Shape): Frame
    requires t.Br?
  {
    FrameOf(t, g.dir)
  }

  function InnerChild(g: Frame, p: Frame, t: Shape): Shape
    requires t.Br?
  {
    Mk(g.dir, p.node, p.color, p.it, p.ts, p.other, Side(t, g.dir))
  }

  /** Black uncle, inner grandchild: the first rotation makes it an outer one. */
  lemma InsertInner(c: Path, g: Frame, p: Frame, t: Shape, k: nat)
    requires RedFits(c + [g] + [p], t, k) && p.color == Red && p.dir == Flip(g.dir)
    ensures RedFits(c + [g] + [InnerFrame(g, t)], InnerChild(g, p, t), k)
    ensures Whole(c + [g] + [InnerFrame(g, t)], InnerChild(g, p, t)) == Whole(c + [g] + [p], t)
  {
    var d, z := g.dir, InnerFrame(g, t);
    CtxSplit(c + [g], p, k);
    CtxSplit(c + [g], z, k);
    WholeUp(c + [g], p, t);
    RotateWhole(c + [g], d, p, z, p.other, Side(t, d), z.other);
    WholeUp(c + [g], z, InnerChild(g, p, t));
  }

  function OuterFrame(g: Frame, p: Frame): Frame {
    p.(color := Black, other := Mk(g.dir, g.node, Red, g.it, g.ts, p.other, g.other))
  }

  /** Black uncle, outer grandchild: the second rotation ends it. */
  lemma InsertOuter(c: Path, g: Frame, p: Frame, t: Shape, k: nat)
    requires RedFits(c + [g] + [p], t, k) && p.color == Red && p.dir == g.dir && ColorOf(g.other) == Black
    ensures g.color == Black && Fits(c + [OuterFrame(g, p)], t, k)
  {
    CtxSplit(c + [g], p, k);
    CtxSplit(c, g, k);
    CtxSplit(c, OuterFrame(g, p), k);
  }

  lemma OuterWhole(c: Path, g: Frame, p: Frame, t: Shape)
    requires p.dir == g.dir
    ensures Whole(c + [OuterFrame(g, p)], t) == Whole(c + [g] + [p], t)
  {
    calc {
      Whole(c + [g] + [p], t);
      { WholeUp(c + [g], p, t); WholeUp(c, g, Fill(p, t)); }
      Whole(c, Fill(g, Fill(p, t)));
      { SameItems(g, g.(color := Red), Fill(p, t), Fill(p.(color := Black), t)); }
      Whole(c, Fill(g.(color := Red), Fill(p.(color := Black), t)));
      { RotateWhole(c, Flip(g.dir), g.(color := Red), p.(color := Black), g.other, p.other, t); }
      Whole(c, Fill(OuterFrame(g, p), t));
      { WholeUp(c, OuterFrame(g, p), t); }
      Whole(c + [OuterFrame(g, p)], t);
    }
  }

  /** A red parent is not the root: the path has a black grandparent too. */
  lemma RedParent(c: Path, t: Shape, k: nat) returns (c0: Path, g: Frame, p: Frame)
    requires RedFits(c, t, k) && HoleColor(c) == Red
    ensures c == c0 + [g] + [p] && p.color == Red && g.color == Black && |c0| + 2 == |c|
  {
    var m := |c|;
    p := c[m - 1];
    assert c == c[..m - 1] + [p];
    CtxSplit(c[..m - 1], p, k);
    assert RedAllowed(c[..m - 1]);
    g := c[..m - 1][m - 2];
    c0 := c[..m - 2];
    assert c[..m - 1] == c0 + [g];
  }

  lemma {:induction false} Settled(c: Path, t: Shape, k: nat)
    requires t.Br? && (RedFits(c, t, k) || Fits(c, t, k)) && HoleColor(c) == Black
    ensures Plug(c, t).Br? && RedBlack(Paint(Plug(c, t), Black)) && Items(Paint(Plug(c, t), Black)) == Items(Plug(c, t))
  {
    if c != [] {
      FitsTop(c, t, k);
      PlugBranch(c, t);
    } else {
      BhIsBlackHeight(Paint(t, Black), if t.color == Red then k + 1 else k);
    }
  }

  lemma {:induction false} PlugBranch(c: Path, t: Shape)
    requires t.Br?
    ensures Plug(c, t).Br?
    decreases |c|
  {
    if c != [] { PlugBranch(c[..|c| - 1], Fill(c[|c| - 1], t)); }
  }

  // ----- deletion

  /** A subtree one black short of what its context expects; a red root counts as if it were black. */
  ghost predicate ShortFits(c: Path, t: Shape, k: nat) {
    match t
    case Leaf => Ctx(c, k + 1) && k == 0
    case Br(_, _, _, _, _, _) => Ctx(c, k + 1) && Bh(t, k) && NoRedRed(Paint(t, Black))
  }

  /** Black paint on a red root, or reaching the root, settles the account. */
  lemma ShortSettled(c: Path, t: Shape, k: nat)
    requires ShortFits(c, t, k) && (ColorOf(t) == Red || c == [])
    ensures Fits(c, Paint(t, Black), if ColorOf(t) == Red then k + 1 else k)
  {
  }

  /** The end of the loop: the black paint makes the whole tree red-black. */
  lemma {:induction false} ShortDone(c: Path, t: Shape, k: nat)
    requires (ShortFits(c, t, k) && (ColorOf(t) == Red || c == [])) || (c == [] && Fits(c, t, k))
    ensures RedBlack(Plug(c, Paint(t, Black))) && Items(Plug(c, Paint(t, Black))) == Whole(c, t)
  {
    if ShortFits(c, t, k) {
      ShortSettled(c, t, k);
      FitsTop(c, Paint(t, Black), if ColorOf(t) == Red then k + 1 else k);
    } else {
      FitsTop(c, t, k);
    }
    WholeIsPlug(c, Paint(t, Black));
  }

  /** A subtree that a node of colour `color` was taken out above: short of black if that was black. */
  ghost predicate Owing(color: Color, c: Path, t: Shape, k: nat) {
    match color
    case Red => Fits(c, t, k)
    case Black => ShortFits(c, t, k)
  }

  /** Splicing out a node with at most one child: a black one leaves its child short. */
  lemma SplicedBalance(c: Path, y: Shape, x: Shape, k: nat) returns (k1: nat)
    requires Fits(c, y, k) && y.Br? && (y.left.Leaf? || y.right.Leaf?)
    requires x == if y.left.Br? then y.left else y.right
    ensures Owing(y.color, c, x, k1)
  {
    k1 := k - Step(y.color);
    assert Bh(y.left, k - Step(y.color)) && Bh(y.right, k - Step(y.color)) && NoRedRed(x);
    if x.Br? {
      assert NoRedRed(x.left) && NoRedRed(x.right);
    }
  }

  /** Balance does not look at items. */
  lemma {:induction false} CtxItem(c: Path, f: Frame, ls: Path, it: Item, k: nat)
    ensures Ctx(c + [f.(it := it)] + ls, k) == Ctx(c + [f] + ls, k)
    ensures HoleColor(c + [f.(it := it)] + ls) == HoleColor(c + [f] + ls)
    decreases |ls|
  {
    var f1 := f.(it := it);
    if ls == [] {
      assert c + [f] + ls == c + [f] && c + [f1] + ls == c + [f1];
      CtxSplit(c, f, k);
      CtxSplit(c, f1, k);
    } else {
      var ls0, g := ls[..|ls| - 1], ls[|ls| - 1];
      assert c + [f] + ls == (c + [f] + ls0) + [g] && c + [f1] + ls == (c + [f1] + ls0) + [g];
      CtxItem(c, f, ls0, it, k + Step(g.color));
      CtxSplit(c + [f] + ls0, g, k);
      CtxSplit(c + [f1] + ls0, g, k);
    }
  }

  lemma SwappedFits(color: Color, c: Path, f: Frame, ls: Path, it: Item, u: Shape, k: nat)
    requires Owing(color, c + [f] + ls, u, k)
    ensures Owing(color, c + [f.(it := it)] + ls, u, k)
  {
    CtxItem(c, f, ls, it, k);
    CtxItem(c, f, ls, it, k + 1);
    assert |c + [f] + ls| == |c + [f.(it := it)] + ls|;
  }

  /** The sibling of a short subtree is a real node. */
  lemma SiblingThere(c: Path, p: Frame, t: Shape, k: nat)
    requires ShortFits(c + [p], t, k)
    ensures p.other.Br?
    ensures ColorOf(p.other) == Red ==> p.color == Black && p.other.left.Br? && p.other.right.Br?
  {
    CtxSplit(c, p, k + 1);
  }

  /** Red sibling: it comes up, black, and the parent goes down, red. */
  function SiblingUp(p: Frame): Frame
    requires p.other.Br?
  {
    FrameOf(p.other, p.dir).(color := Black)
  }

  function ParentDown(p: Frame): Frame
    requires p.other.Br?
  {
    p.(color := Red, other := Side(p.other, p.dir))
  }

  lemma DeleteRed(c: Path, p: Frame, t: Shape, k: nat)
    requires p.other.Br? && p.other.color == Red && ShortFits(c + [p], t, k)
    ensures ParentDown(p).other.Br? && ParentDown(p).other.color == Black
    ensures ShortFits(c + [SiblingUp(p)] + [ParentDown(p)], t, k)
  {
    CtxSplit(c, p, k + 1);
    CtxSplit(c + [SiblingUp(p)], ParentDown(p), k + 1);
    CtxSplit(c, SiblingUp(p), k + 1);
  }

  lemma DeleteRedWhole(c: Path, p: Frame, t: Shape)
    requires p.other.Br?
    ensures Whole(c + [SiblingUp(p)] + [ParentDown(p)], t) == Whole(c + [p], t)
  {
    var d, w, w0 := p.dir, SiblingUp(p), FrameOf(p.other, p.dir);
    calc {
      Whole(c + [p], t);
      { WholeUp(c, p, t); }
      Whole(c, Unrotated(d, p, w0, t, Side(p.other, d), w0.other));
      { RotateWhole(c, d, p, w0, t, Side(p.other, d), w0.other); }
      Whole(c, Rotated(d, p, w0, t, Side(p.other, d), w0.other));
      { SameItems(w0, w, Mk(d, p.node, p.color, p.it, p.ts, t, Side(p.other, d)), Fill(ParentDown(p), t)); }
      Whole(c, Fill(w, Fill(ParentDown(p), t)));
      { WholeUp(c, w, Fill(ParentDown(p), t)); }
      Whole(c + [w], Fill(ParentDown(p), t));
      { WholeUp(c + [w], ParentDown(p), t); }
      Whole(c + [w] + [ParentDown(p)], t);
    }
  }

  function ShortUp(p: Frame, t: Shape): Shape { Fill(p.(other := Paint(p.other, Red)), t) }

  /** Black sibling with black children: red paint on the sibling moves the shortage up. */
  lemma DeleteBlack(c: Path, p: Frame, t: Shape, k: nat) returns (t1: Shape, k1: nat)
    requires ShortFits(c + [p], t, k) && p.other.Br? && ColorOf(t) == Black && p.other.color == Black
    requires ColorOf(p.other.left) == Black && ColorOf(p.other.right) == Black
    ensures ShortFits(c, t1, k1) && Whole(c, t1) == Whole(c + [p], t)
    ensures t1 == ShortUp(p, t) && t1.Br? && t1.color == p.color && t1.node == p.node
  {
    hide Before, After;
    t1, k1 := ShortUp(p, t), k + Step(p.color);
    CtxSplit(c, p, k + 1);
    assert t == Paint(t, Black);
    assert NoRedRed(Paint(p.other, Red));
    assert Bh(Paint(p.other, Red), k);
    WholeUp(c, p, t);
    SameItems(p, p.(other := Paint(p.other, Red)), t, t);
  }

  /** The sibling `w` after its red child on side `d` has come up, black, and it has gone down, red. */
  function NearUp(w: Shape, d: Dir): Shape
    requires w.Br? && Side(w, d).Br?
  {
    var b := Side(w, d);
    Mk(d, b.node, Black, b.it, b.ts, Side(b, d), Mk(d, w.node, Red, w.it, w.ts, Side(b, Flip(d)), Side(w, Flip(d))))
  }

  /** Black sibling whose near child alone is red: a rotation makes the far child red. */
  lemma DeleteNear(c: Path, p: Frame, t: Shape, k: nat)
    requires p.other.Br? && p.other.color == Black && ColorOf(Side(p.other, p.dir)) == Red
    requires ColorOf(Side(p.other, Flip(p.dir))) == Black && ShortFits(c + [p], t, k)
    ensures ShortFits(c + [p.(other := NearUp(p.other, p.dir))], t, k)
  {
    CtxSplit(c, p, k + 1);
    CtxSplit(c, p.(other := NearUp(p.other, p.dir)), k + 1);
  }

  lemma {:induction false} NearItems(w: Shape, d: Dir)
    requires w.Br? && Side(w, d).Br?
    ensures Items(NearUp(w, d)) == Items(w)
  {
    var b := FrameOf(Side(w, d), d);
    RotateItems(Flip(d), FrameOf(w, d), b, Side(w, Flip(d)), b.other, Side(Side(w, d), d));
  }

  lemma DeleteNearWhole(c: Path, p: Frame, t: Shape)
    requires p.other.Br? && Side(p.other, p.dir).Br?
    ensures Whole(c + [p.(other := NearUp(p.other, p.dir))], t) == Whole(c + [p], t)
  {
    var p1 := p.(other := NearUp(p.other, p.dir));
    NearItems(p.other, p.dir);
    WholeUp(c, p, t);
    WholeUp(c, p1, t);
    SameItems(p, p1, t, t);
  }

  /** The sibling in the parent's place and colour, the parent black above the short subtree. */
  function FarUp(p: Frame, t: Shape): Shape
    requires p.other.Br?
  {
    var d, w := p.dir, p.other;
    Mk(d, w.node, p.color, w.it, w.ts, Mk(d, p.node, Black, p.it, p.ts, t, Side(w, d)), Paint(Side(w, Flip(d)), Black))
  }

  /** Black sibling whose far child is red: the last rotation. */
  lemma DeleteFar(c: Path, p: Frame, t: Shape, k: nat)
    requires p.other.Br? && p.other.color == Black && ColorOf(Side(p.other, Flip(p.dir))) == Red
    requires ShortFits(c + [p], t, k) && ColorOf(t) == Black
    ensures Fits(c, FarUp(p, t), k + 1 + Step(p.color))
  {
    CtxSplit(c, p, k + 1);
    assert t == Paint(t, Black);
  }

  lemma DeleteFarWhole(c: Path, p: Frame, t: Shape)
    requires p.other.Br?
    ensures Whole(c, FarUp(p, t)) == Whole(c + [p], t)
  {
    var d, w := p.dir, FrameOf(p.other, p.dir);
    WholeUp(c, p, t);
    RotateWhole(c, d, p, w, t, Side(p.other, d), w.other);
    FarItems(p, t);
  }

  /** With the last rotation the whole tree is in order again. */
  lemma {:induction false} DeleteSettled(c: Path, p: Frame, t: Shape, k: nat)
    requires p.other.Br? && p.other.color == Black && ColorOf(Side(p.other, Flip(p.dir))) == Red
    requires ShortFits(c + [p], t, k) && ColorOf(t) == Black
    ensures var t1 := Plug(c, FarUp(p, t));
            t1.Br? && Fits([], t1, BlackHeight(t1)) && Whole([], t1) == Whole(c + [p], t)
  {
    var t1 := Plug(c, FarUp(p, t));
    DeleteFar(c, p, t, k);
    DeleteFarWhole(c, p, t);
    WholeIsPlug(c, FarUp(p, t));
    WholeIsPlug([], t1);
    FitsTop(c, FarUp(p, t), k + 1 + Step(p.color));
    PlugBranch(c, FarUp(p, t));
    FitsAlone(t1);
  }

  lemma FarItems(p: Frame, t: Shape)
    requires p.other.Br?
    ensures Items(FarUp(p, t))
         == Items(Rotated(p.dir, p, FrameOf(p.other, p.dir), t, Side(p.other, p.dir), Side(p.other, Flip(p.dir))))
  {
  }

  // ----- the loops as functions of the tree

  /** What is made of a tree with a red subtree `t` at the end of `c`, after an insertion. */
  ghost function InsertFixed(c: Path, t: Shape): Shape
    requires t.Br?
    decreases |c|
  {
    if |c| < 2 || c[|c| - 1].color == Black then Paint(Plug(c, t), Black)
    else
      var c0, g, p := c[..|c| - 2], c[|c| - 2], c[|c| - 1];
      if ColorOf(g.other) == Red then InsertFixed(c0, Recolored(g, p, t))
      else if p.dir == g.dir then Paint(Plug(c0 + [OuterFrame(g, p)], t), Black)
      else Paint(Plug(c0 + [OuterFrame(g, InnerFrame(g, t))], InnerChild(g, p, t)), Black)
  }

  lemma {:induction false} FixedStep(c: Path, g: Frame, p: Frame, t: Shape)
    requires t.Br? && p.color == Red
    ensures InsertFixed(c + [g] + [p], t) ==
            if ColorOf(g.other) == Red then InsertFixed(c, Recolored(g, p, t))
            else if p.dir == g.dir then InsertFixed(c + [OuterFrame(g, p)], t)
            else InsertFixed(c + [OuterFrame(g, InnerFrame(g, t))], InnerChild(g, p, t))
  {
    var e := c + [g] + [p];
    assert e[..|e| - 2] == c && e[|e| - 2] == g && e[|e| - 1] == p;
    FixedDone(c + [OuterFrame(g, p)], t);
    FixedDone(c + [OuterFrame(g, InnerFrame(g, t))], InnerChild(g, p, t));
  }

  lemma {:induction false} FixedDone(c: Path, t: Shape)
    requires t.Br? && HoleColor(c) == Black
    ensures InsertFixed(c, t) == Paint(Plug(c, t), Black)
  {
  }

  /** What is made of a tree whose subtree `t` at the end of `c` is one black node short. */
  ghost function DeleteFixed(c: Path, t: Shape): Shape
    decreases if c == [] || ColorOf(t) == Red then 0 else |c|, 0
  {
    if c == [] || ColorOf(t) == Red then Plug(c, Paint(t, Black))
    else
      var c0, p := c[..|c| - 1], c[|c| - 1];
      if p.other.Leaf? then Plug(c, t)
      else if p.other.color == Red then BlackSibling(c0 + [SiblingUp(p)], ParentDown(p), t)
      else BlackSibling(c0, p, t)
  }

  /** The same where the sibling is black. */
  ghost function BlackSibling(c: Path, p: Frame, t: Shape): Shape
    decreases if p.color == Red then 0 else |c|, 1
  {
    if p.other.Leaf? then Plug(c + [p], t)
    else
      var near, far := Side(p.other, p.dir), Side(p.other, Flip(p.dir));
      if ColorOf(near) == Black && ColorOf(far) == Black then DeleteFixed(c, ShortUp(p, t))
      else if ColorOf(far) == Black then Paint(Plug(c, FarUp(p.(other := NearUp(p.other, p.dir)), t)), Black)
      else Paint(Plug(c, FarUp(p, t)), Black)
  }

  lemma {:induction false} DeleteStep(c: Path, p: Frame, t: Shape)
    requires p.other.Br? && ColorOf(t) == Black
    ensures DeleteFixed(c + [p], t) ==
            if p.other.color == Red then BlackSibling(c + [SiblingUp(p)], ParentDown(p), t) else BlackSibling(c, p, t)
  {
    SplitPath(c, p);
  }

  lemma {:induction false} BlackStep(c: Path, p: Frame, t: Shape)
    requires p.other.Br? && p.other.color == Black
    ensures BlackSibling(c, p, t) ==
            var near, far := Side(p.other, p.dir), Side(p.other, Flip(p.dir));
            if ColorOf(near) == Black && ColorOf(far) == Black then DeleteFixed(c, ShortUp(p, t))
            else if ColorOf(far) == Black then DeleteFixed([], Plug(c, FarUp(p.(other := NearUp(p.other, p.dir)), t)))
            else DeleteFixed([], Plug(c, FarUp(p, t)))
  {
  }

  lemma {:induction false} DeleteDone(c: Path, t: Shape)
    requires c == [] || ColorOf(t) == Red
    ensures DeleteFixed(c, t) == Plug(c, Paint(t, Black))
  {
  }

  /** What remains when a node of the given colour has gone from above `u`. */
  ghost function Out(color: Color, c: Path, u: Shape): Shape {
    if color == Black then DeleteFixed(c, u) else Plug(c, u)
  }

  /** The way down left children to the least node, and that node. */
  ghost function LeftSpine(t: Shape): Path {
    if t.Leaf? || t.left.Leaf? then [] else [FrameOf(t, L)] + LeftSpine(t.left)
  }

  ghost function LeastBelow(t: Shape): Shape {
    if t.Leaf? || t.left.Leaf? then t else LeastBelow(t.left)
  }

  /** What is made of a tree whose branch `t` at the end of `c` loses its item: the branch leaves, or the
      one with the next item does, which then moves up. */
  ghost function RemovedAt(c: Path, t: Shape): Shape {
    if t.Leaf? then Plug(c, t)
    else if t.left.Leaf? || t.right.Leaf? then Out(t.color, c, if t.left.Br? then t.left else t.right)
    else
      var m := LeastBelow(t.right);
      if m.Leaf? then Plug(c, t) else Out(m.color, c + [FrameOf(t, R).(it := m.it)] + LeftSpine(t.right), m.right)
  }

  lemma {:induction false} SpineStep(ls: Path, t: Shape)
    requires t.Br? && t.left.Br?
    ensures ls + LeftSpine(t) == (ls + [FrameOf(t, L)]) + LeftSpine(t.left) && LeastBelow(t) == LeastBelow(t.left)
  {
  }

  // ----- height

  function Pow2(e: nat): (p: nat)
    ensures p > 0
  {
    if e == 0 then 1 else 2 * Pow2(e - 1)
  }

  function Depth(t: Shape): nat {
    if t.Leaf? then 0
    else 1 + if Depth(t.left) > Depth(t.right) then Depth(t.left) else Depth(t.right)
  }

  lemma {:induction false} DepthBound(t: Shape, k: nat)
    requires Bh(t, k) && NoRedRed(t)
    ensures Depth(t) <= 2 * k + if ColorOf(t) == Red then 1 else 0
    ensures Pow2(k) <= |Items(t)| + 1
  {
    if t.Br? {
      DepthBound(t.left, k - Step(t.color));
      DepthBound(t.right, k - Step(t.color));
    }
  }

  lemma {:induction false} PowSum(a: nat, b: nat)
    ensures Pow2(a + b) == Pow2(a) * Pow2(b)
  {
    if a > 0 {
      PowSum(a - 1, b);
      assert Pow2(a + b) == 2 * Pow2(a - 1 + b);
      assert 2 * (Pow2(a - 1) * Pow2(b)) == (2 * Pow2(a - 1)) * Pow2(b);
    }
  }

  lemma {:induction false} PowMonotone(a: nat, b: nat)
    requires a <= b
    ensures Pow2(a) <= Pow2(b)
  {
    if a < b { PowMonotone(a, b - 1); }
  }

  lemma SquareMonotone(a: nat, b: nat)
    requires a <= b
    ensures a * a <= b * b
  {
  }

  /** The height of a red-black tree with `n` items is at most `2 * log2(n + 1)`. */
  lemma {:induction false} Logarithmic(t: Shape)
    requires RedBlack(t)
    ensures Pow2(Depth(t)) <= (|Items(t)| + 1) * (|Items(t)| + 1)
  {
    var k := BlackHeight(t);
    DepthBound(t, k);
    PowMonotone(Depth(t), k + k);
    PowSum(k, k);
    SquareMonotone(Pow2(k), |Items(t)| + 1);
  }
}
