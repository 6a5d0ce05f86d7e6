/** Every case of the two repair loops once, on a small tree that has it. */
module RbSamples {
  import opened Keys
  import opened SortedItems
  import opened RbShapes
  import opened RbBalance
  import opened RbOrder
  import opened RbStamps
  import opened RbEngine

  function It(k: Byte): Item { Item([k], []) }

  function Bk(n: Node, k: Byte, l: Shape, r: Shape): Shape { Br(n, Black, It(k), 0, l, r) }

  function Rd(n: Node, k: Byte, l: Shape, r: Shape): Shape { Br(n, Red, It(k), 0, l, r) }

  lemma {:induction false} OneByte(x: Byte, y: Byte)
    ensures Strcmp([x], [y]) == x - y
  {
    if x == y { StrcmpZero([x], [y]); }
  }

  // ----- insertion

  /** A red uncle: the colours change and no node moves. */
  lemma {:induction false} RedUncle(a: Node, b: Node, c: Node, d: Node)
    ensures InsertedWith(Bk(b, 2, Rd(a, 1, Leaf, Leaf), Rd(c, 3, Leaf, Leaf)), d, It(4), 0)
         == Bk(b, 2, Bk(a, 1, Leaf, Leaf), Bk(c, 3, Leaf, Rd(d, 4, Leaf, Leaf)))
  {
    var t, z := Bk(b, 2, Rd(a, 1, Leaf, Leaf), Rd(c, 3, Leaf, Leaf)), Rd(d, 4, Leaf, Leaf);
    var g, p := FrameOf(t, R), FrameOf(t.right, R);
    OneByte(4, 2);
    OneByte(4, 3);
    assert Descent(t.right, [4]) == [p];
    assert Descent(t, [4]) == [] + [g] + [p];
    FixedStep([], g, p, z);
    FixedDone([], Recolored(g, p, z));
  }

  /** No uncle, the new key at the far end: one rotation. */
  lemma {:induction false} OuterChild(a: Node, b: Node, c: Node)
    ensures InsertedWith(Bk(a, 1, Leaf, Rd(b, 2, Leaf, Leaf)), c, It(3), 0)
         == Bk(b, 2, Rd(a, 1, Leaf, Leaf), Rd(c, 3, Leaf, Leaf))
  {
    var t, z := Bk(a, 1, Leaf, Rd(b, 2, Leaf, Leaf)), Rd(c, 3, Leaf, Leaf);
    var g, p := FrameOf(t, R), FrameOf(t.right, R);
    OneByte(3, 1);
    OneByte(3, 2);
    assert Descent(t.right, [3]) == [p];
    assert Descent(t, [3]) == [] + [g] + [p];
    FixedStep([], g, p, z);
    FixedDone([] + [OuterFrame(g, p)], z);
  }

  /** No uncle, the new key in the middle: two rotations. */
  lemma {:induction false} InnerGrandchild(a: Node, b: Node, c: Node)
    ensures InsertedWith(Bk(a, 1, Leaf, Rd(c, 3, Leaf, Leaf)), b, It(2), 0)
         == Bk(b, 2, Rd(a, 1, Leaf, Leaf), Rd(c, 3, Leaf, Leaf))
  {
    var t, z := Bk(a, 1, Leaf, Rd(c, 3, Leaf, Leaf)), Rd(b, 2, Leaf, Leaf);
    var g, p := FrameOf(t, R), FrameOf(t.right, L);
    OneByte(2, 1);
    OneByte(2, 3);
    assert Descent(t.right, [2]) == [p];
    assert Descent(t, [2]) == [] + [g] + [p];
    FixedStep([], g, p, z);
    FixedDone([] + [OuterFrame(g, InnerFrame(g, z))], InnerChild(g, p, z));
  }

  // ----- deletion

  /** What the deletion of a black first child without children comes to. */
  lemma {:induction false} FirstGone(t: Shape)
    requires t.Br? && t.it.key == [2] && t.left.Br? && t.left.it.key == [1] && t.left.color == Black
    requires t.left.left.Leaf? && t.left.right.Leaf?
    ensures RemovedFrom(t, [1]) == DeleteFixed([] + [FrameOf(t, L)], Leaf)
  {
    OneByte(1, 2);
    OneByte(1, 1);
    assert Descent(t.left, [1]) == [];
    assert Descent(t, [1]) == [] + [FrameOf(t, L)];
    assert Search(t.left, [1]) == t.left;
    assert Search(t, [1]) == t.left;
  }

  /** Both nephews missing: the sibling turns red. */
  lemma {:induction false} NoNephews(a: Node, b: Node, c: Node)
    ensures RemovedFrom(Bk(b, 2, Bk(a, 1, Leaf, Leaf), Bk(c, 3, Leaf, Leaf)), [1]) == Bk(b, 2, Leaf, Rd(c, 3, Leaf, Leaf))
  {
    var t := Bk(b, 2, Bk(a, 1, Leaf, Leaf), Bk(c, 3, Leaf, Leaf));
    FirstGone(t);
    DeleteStep([], FrameOf(t, L), Leaf);
    BlackStep([], FrameOf(t, L), Leaf);
    DeleteDone([], ShortUp(FrameOf(t, L), Leaf));
  }

  /** The far nephew red: the sibling comes up. */
  lemma {:induction false} FarNephew(a: Node, b: Node, c: Node, d: Node)
    ensures RemovedFrom(Bk(b, 2, Bk(a, 1, Leaf, Leaf), Bk(c, 3, Leaf, Rd(d, 4, Leaf, Leaf))), [1])
         == Bk(c, 3, Bk(b, 2, Leaf, Leaf), Bk(d, 4, Leaf, Leaf))
  {
    var t := Bk(b, 2, Bk(a, 1, Leaf, Leaf), Bk(c, 3, Leaf, Rd(d, 4, Leaf, Leaf)));
    FirstGone(t);
    DeleteStep([], FrameOf(t, L), Leaf);
    BlackStep([], FrameOf(t, L), Leaf);
    DeleteDone([], Plug([], FarUp(FrameOf(t, L), Leaf)));
  }

  /** The near nephew alone red: it comes up. */
  lemma {:induction false} NearNephew(a: Node, b: Node, c: Node, d: Node)
    ensures RemovedFrom(Bk(b, 2, Bk(a, 1, Leaf, Leaf), Bk(d, 4, Rd(c, 3, Leaf, Leaf), Leaf)), [1])
         == Bk(c, 3, Bk(b, 2, Leaf, Leaf), Bk(d, 4, Leaf, Leaf))
  {
    var t := Bk(b, 2, Bk(a, 1, Leaf, Leaf), Bk(d, 4, Rd(c, 3, Leaf, Leaf), Leaf));
    var p := FrameOf(t, L);
    FirstGone(t);
    DeleteStep([], p, Leaf);
    BlackStep([], p, Leaf);
    DeleteDone([], Plug([], FarUp(p.(other := NearUp(p.other, L)), Leaf)));
  }

  /** A red sibling: it comes up, and its near child ends up red below the old parent. */
  lemma {:induction false} RedSibling(a: Node, b: Node, c: Node, d: Node, e: Node)
    ensures RemovedFrom(Bk(b, 2, Bk(a, 1, Leaf, Leaf), Rd(d, 4, Bk(c, 3, Leaf, Leaf), Bk(e, 5, Leaf, Leaf))), [1])
         == Bk(d, 4, Bk(b, 2, Leaf, Rd(c, 3, Leaf, Leaf)), Bk(e, 5, Leaf, Leaf))
  {
    var t := Bk(b, 2, Bk(a, 1, Leaf, Leaf), Rd(d, 4, Bk(c, 3, Leaf, Leaf), Bk(e, 5, Leaf, Leaf)));
    var p := FrameOf(t, L);
    FirstGone(t);
    DeleteStep([], p, Leaf);
    BlackStep([] + [SiblingUp(p)], ParentDown(p), Leaf);
    DeleteDone([] + [SiblingUp(p)], ShortUp(ParentDown(p), Leaf));
    SplitPath([], SiblingUp(p));
  }

  /** Two children: the node of the next key leaves, its item moves up, and the timestamp does not. */
  lemma {:induction false} TwoBelow(b: Node, c: Node, l: Shape, ts: nat, ts1: nat)
    requires l.Br?
    ensures RemovedFrom(Br(b, Black, It(2), ts, l, Br(c, Red, It(3), ts1, Leaf, Leaf)), [2])
         == Br(b, Black, It(3), ts, l, Leaf)
  {
    var t := Br(b, Black, It(2), ts, l, Br(c, Red, It(3), ts1, Leaf, Leaf));
    OneByte(2, 2);
    assert Descent(t, [2]) == [] && Search(t, [2]) == t;
    assert LeftSpine(t.right) == [] && LeastBelow(t.right) == t.right;
    var f := FrameOf(t, R).(it := It(3));
    assert [] + [f] + [] == [f];
    assert RemovedAt([], t) == Out(Red, [f], Leaf) == Plug([f], Leaf);
    assert [f][..0] == [] && Plug([], Fill(f, Leaf)) == Fill(f, Leaf);
    assert Plug([f], Leaf) == Fill(f, Leaf);
    assert Fill(f, Leaf) == Br(b, Black, It(3), ts, l, Leaf);
    assert RemovedFrom(t, [2]) == RemovedAt([], t);
  }
}
