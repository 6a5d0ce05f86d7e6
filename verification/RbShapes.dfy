/** The memory of a red-black tree and the tree it spells out: nodes with parent links and a
    shared sentinel, seen from any node as a subtree in a context. */
module RbShapes {
  import opened Keys
  import opened SortedItems

  datatype Color = Red | Black
  datatype Dir = L | R

  function Flip(d: Dir): Dir { if d == L then R else L }

  /** Pointers may still be uninitialised (`null`); `timestamp` is only ever copied and compared. */
  class Node {
    var color: Color
    var left: Node?
    var right: Node?
    var parent: Node?
    var key: Key
    var value: Value
    var timestamp: nat

    /** Fresh memory holds anything but pointers to other nodes. */
    constructor () {
      color, left, right, parent := *, null, null, null;
      key, value, timestamp := *, *, *;
    }
  }

  /** The fields of one node. */
  datatype Rec = Rec(color: Color, it: Item, ts: nat, left: Node?, right: Node?, parent: Node?)
  {
    function Child(d: Dir): Node? { if d == L then left else right }
    function WithChild(d: Dir, p: Node?): Rec { if d == L then this.(left := p) else this.(right := p) }
  }
  type Mem = map<Node, Rec>

  datatype Shape = Leaf | Br(node: Node, color: Color, it: Item, ts: nat, left: Shape, right: Shape)

  /** A node on the way down: the path leaves it on side `dir`, its other child is `other`. */
  datatype Frame = Frame(node: Node, color: Color, it: Item, ts: nat, dir: Dir, other: Shape)
  type Path = seq<Frame>

  /** The branch with child `a` on side `d` and child `b` on the other. */
  function Mk(d: Dir, n: Node, color: Color, it: Item, ts: nat, a: Shape, b: Shape): Shape {
    if d == L then Br(n, color, it, ts, a, b) else Br(n, color, it, ts, b, a)
  }

  function Fill(f: Frame, t: Shape): Shape { Mk(f.dir, f.node, f.color, f.it, f.ts, t, f.other) }

  function Plug(c: Path, t: Shape): Shape
    decreases |c|
  {
    if c == [] then t else Plug(c[..|c| - 1], Fill(c[|c| - 1], t))
  }

  function Ptr(nil: Node, t: Shape): Node { if t.Leaf? then nil else t.node }

  function ColorOf(t: Shape): Color { if t.Leaf? then Black else t.color }

  function Paint(t: Shape, color: Color): Shape { if t.Leaf? then t else t.(color := color) }

  // ----- contents

  function Items(t: Shape): seq<Item> {
    if t.Leaf? then [] else Items(t.left) + [t.it] + Items(t.right)
  }

  /** What the tree holds before and after the end of a path. */
  function Before(c: Path): seq<Item> {
    if c == [] then []
    else
      var f := c[|c| - 1];
      Before(c[..|c| - 1]) + if f.dir == R then Items(f.other) + [f.it] else []
  }

  function After(c: Path): seq<Item> {
    if c == [] then []
    else
      var f := c[|c| - 1];
      (if f.dir == L then [f.it] + Items(f.other) else []) + After(c[..|c| - 1])
  }

  function Whole(c: Path, t: Shape): seq<Item> { Before(c) + Items(t) + After(c) }

  lemma SplitPath(c: Path, f: Frame)
    ensures (c + [f])[..|c|] == c && (c + [f])[|c|] == f
  {
  }

  lemma WholeUp(c: Path, f: Frame, t: Shape)
    ensures Whole(c + [f], t) == Whole(c, Fill(f, t))
  {
    SplitPath(c, f);
    var b, a, o, i := Before(c), After(c), Items(f.other), [f.it];
    if f.dir == R {
      assert b + (o + i) + Items(t) + ([] + a) == b + (o + i + Items(t)) + a;
    } else {
      assert (b + []) + Items(t) + (i + o + a) == b + (Items(t) + i + o) + a;
    }
  }

  lemma {:induction false} WholeIsPlug(c: Path, t: Shape)
    ensures Whole(c, t) == Items(Plug(c, t))
    decreases |c|
  {
    if c == [] {
      assert [] + Items(t) + [] == Items(t);
    } else {
      var c0, f := c[..|c| - 1], c[|c| - 1];
      assert c == c0 + [f];
      WholeUp(c0, f, t);
      WholeIsPlug(c0, Fill(f, t));
    }
  }

  // ----- memory

  ghost function Ids(t: Shape): set<Node> {
    if t.Leaf? then {} else Ids(t.left) + {t.node} + Ids(t.right)
  }

  /** Memory spells out `t` below a node whose parent pointer is `par`; no node occurs twice. */
  ghost predicate Rep(h: Mem, nil: Node, par: Node, t: Shape) {
    match t
    case Leaf => true
    case Br(n, color, it, ts, l, r) =>
      && n != nil && n in h && h[n] == Rec(color, it, ts, Ptr(nil, l), Ptr(nil, r), par)
      && n !in Ids(l) && n !in Ids(r) && Ids(l) !! Ids(r)
      && Rep(h, nil, n, l) && Rep(h, nil, n, r)
  }

  function ParentOf(nil: Node, c: Path): Node { if c == [] then nil else c[|c| - 1].node }

  ghost function PathIds(c: Path): set<Node> {
    if c == [] then {} else PathIds(c[..|c| - 1]) + {c[|c| - 1].node} + Ids(c[|c| - 1].other)
  }

  /** One node of the path, `p` being the pointer that leads on. */
  ghost predicate FrameRep(h: Mem, nil: Node, par: Node, f: Frame, p: Node, s: set<Node>) {
    && f.node != nil && f.node in h && f.node !in s && f.node !in Ids(f.other) && Ids(f.other) !! s
    && h[f.node] == Rec(f.color, f.it, f.ts, if f.dir == L then p else Ptr(nil, f.other),
                        if f.dir == L then Ptr(nil, f.other) else p, par)
    && Rep(h, nil, f.node, f.other)
  }

  /** Memory spells out the path from the root pointer to `p`; its nodes are distinct, and apart
      from the nodes `s` below its end. */
  ghost predicate PathRep(h: Mem, nil: Node, root: Node, c: Path, p: Node, s: set<Node>)
    decreases |c|
  {
    match |c|
    case 0 => root == p
    case _ =>
      var c0, f := c[..|c| - 1], c[|c| - 1];
      && FrameRep(h, nil, ParentOf(nil, c0), f, p, s)
      && PathRep(h, nil, root, c0, f.node, s + {f.node} + Ids(f.other))
  }

  /** Subtree `t` at the end of path `c`. */
  ghost predicate At(h: Mem, nil: Node, root: Node, c: Path, t: Shape) {
    PathRep(h, nil, root, c, Ptr(nil, t), Ids(t)) && Rep(h, nil, ParentOf(nil, c), t)
  }

  ghost predicate Same(h: Mem, h1: Mem, s: set<Node>) {
    forall n :: n in s && n in h ==> n in h1 && h1[n] == h[n]
  }

  lemma {:induction false} RepKept(h: Mem, h1: Mem, nil: Node, par: Node, t: Shape)
    requires Rep(h, nil, par, t) && Same(h, h1, Ids(t))
    ensures Rep(h1, nil, par, t)
  {
    if t.Br? {
      assert t.node in Ids(t);
      RepKept(h, h1, nil, t.node, t.left);
      RepKept(h, h1, nil, t.node, t.right);
    }
  }

  lemma {:induction false} RepLive(h: Mem, nil: Node, par: Node, t: Shape)
    requires Rep(h, nil, par, t)
    ensures Ids(t) <= h.Keys && nil !in Ids(t)
  {
    if t.Br? {
      RepLive(h, nil, t.node, t.left);
      RepLive(h, nil, t.node, t.right);
    }
  }

  lemma {:induction false} PathKept(h: Mem, h1: Mem, nil: Node, root: Node, c: Path, p: Node, s: set<Node>, s1: set<Node>)
    requires PathRep(h, nil, root, c, p, s) && Same(h, h1, PathIds(c)) && PathIds(c) !! s1
    ensures PathRep(h1, nil, root, c, p, s1)
    decreases |c|
  {
    if c != [] {
      var c0, f := c[..|c| - 1], c[|c| - 1];
      RepKept(h, h1, nil, f.node, f.other);
      PathApart(h, nil, root, c0, f.node, s + {f.node} + Ids(f.other));
      assert PathRep(h, nil, root, c0, f.node, s + {f.node} + Ids(f.other));
      PathKept(h, h1, nil, root, c0, f.node, s + {f.node} + Ids(f.other), s1 + {f.node} + Ids(f.other));
    }
  }

  lemma {:induction false} PathApart(h: Mem, nil: Node, root: Node, c: Path, p: Node, s: set<Node>)
    requires PathRep(h, nil, root, c, p, s)
    ensures PathIds(c) !! s && PathIds(c) <= h.Keys && nil !in PathIds(c)
    decreases |c|
  {
    if c != [] {
      var c0, f := c[..|c| - 1], c[|c| - 1];
      RepLive(h, nil, f.node, f.other);
      PathApart(h, nil, root, c0, f.node, s + {f.node} + Ids(f.other));
    }
  }

  // ----- moving along the tree

  lemma GoDown(h: Mem, nil: Node, root: Node, c: Path, t: Shape, d: Dir, f: Frame, u: Shape)
    requires At(h, nil, root, c, t) && t.Br? && u == (if d == L then t.left else t.right)
    requires f == Frame(t.node, t.color, t.it, t.ts, d, if d == L then t.right else t.left)
    ensures At(h, nil, root, c + [f], u) && Fill(f, u) == t
  {
    SplitPath(c, f);
    assert Ids(u) + {f.node} + Ids(f.other) == Ids(t);
    assert Rep(h, nil, f.node, u) && Rep(h, nil, f.node, f.other);
    assert FrameRep(h, nil, ParentOf(nil, c), f, Ptr(nil, u), Ids(u));
  }

  lemma {:induction false} GoUp(h: Mem, nil: Node, root: Node, c: Path, f: Frame, u: Shape)
    requires At(h, nil, root, c + [f], u)
    ensures At(h, nil, root, c, Fill(f, u)) && FrameRep(h, nil, ParentOf(nil, c), f, Ptr(nil, u), Ids(u))
  {
    SplitPath(c, f);
    var t := Fill(f, u);
    assert PathRep(h, nil, root, c + [f], Ptr(nil, u), Ids(u));
    assert FrameRep(h, nil, ParentOf(nil, c), f, Ptr(nil, u), Ids(u));
    assert Ids(u) + {f.node} + Ids(f.other) == Ids(t);
    assert Rep(h, nil, ParentOf(nil, c), t);
  }

  lemma {:induction false} GoTop(h: Mem, nil: Node, root: Node, c: Path, t: Shape)
    requires At(h, nil, root, c, t)
    ensures At(h, nil, root, [], Plug(c, t))
    decreases |c|
  {
    if c != [] {
      var c0, f := c[..|c| - 1], c[|c| - 1];
      assert c == c0 + [f];
      GoUp(h, nil, root, c0, f, t);
      GoTop(h, nil, root, c0, Fill(f, t));
    }
  }
}
