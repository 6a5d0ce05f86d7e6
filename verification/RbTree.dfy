/** The red-black tree engine: nodes with parent pointers and one shared, mutable sentinel. */
module RbTreeModel {
  import opened Keys
  import opened SortedItems
  import opened RbShapes
  import opened RbBalance
  import opened RbMemory
  import opened RbOrder
  import opened RbStamps

  ghost function RecOf(n: Node): Rec
    reads n
  {
    Rec(n.color, Item(n.key, n.value), n.timestamp, n.left, n.right, n.parent)
  }

  class RbTree {
    var root: Node
    const nil: Node
    ghost var mem: Mem
    ghost var shape: Shape

    ghost predicate Mirrored()
      reads this, mem.Keys
    {
      forall n {:trigger n in mem} :: n in mem ==> mem[n] == RecOf(n)
    }

    /** Memory holds the tree whose subtree at the end of `c` is `t`, the black sentinel, and
        nothing else. */
    ghost predicate On(c: Path, t: Shape)
      reads this, mem.Keys
    {
      && Mirrored() && nil in mem && mem[nil].color == Black
      && mem.Keys == PathIds(c) + Ids(t) + {nil}
      && At(mem, nil, root, c, t)
    }

    /** A red-black tree of the shape `t`. */
    ghost predicate Balanced(t: Shape)
      reads this, mem.Keys
    {
      match t
      case Leaf => On([], t) && RedBlack(t)
      case Br(_, _, _, _, _, _) => On([], t) && RedBlack(t)
    }

    /** The subtree `u` with top `x` is what is left at the end of the path after a node was spliced out. */
    ghost predicate Spliced(x: Node, c: Path, u: Shape)
      reads this, mem.Keys
    {
      match u
      case Leaf => On(c, u) && x == nil && mem[nil].parent == ParentOf(nil, c)
      case Br(n, _, _, _, _, _) => On(c, u) && x == n
    }

    /** A sorted red-black tree. */
    ghost predicate Valid()
      reads this, mem.Keys
    {
      On([], shape) && RedBlack(shape) && Sorted(Items(shape))
    }

    /** The sentinel's colour is set; its timestamp is what the memory happened to hold. */
    constructor (leftover: nat)
      ensures Valid() && shape == Leaf && fresh(mem.Keys) && nil.timestamp == leftover
    {
      var n := new Node();
      n.color, n.timestamp := Black, leftover;
      nil, root := n, n;
      mem, shape := map[n := Rec(n.color, Item(n.key, n.value), n.timestamp, n.left, n.right, n.parent)], Leaf;
    }

    // ----- writes to single fields

    method SetLeft(n: Node, p: Node)
      requires Mirrored() && n in mem
      modifies this`mem, n`left
      ensures Mirrored() && mem == old(mem)[n := old(mem)[n].(left := p)]
    {
      n.left := p;
      mem := mem[n := mem[n].(left := p)];
    }

    method SetRight(n: Node, p: Node)
      requires Mirrored() && n in mem
      modifies this`mem, n`right
      ensures Mirrored() && mem == old(mem)[n := old(mem)[n].(right := p)]
    {
      n.right := p;
      mem := mem[n := mem[n].(right := p)];
    }

    method SetParent(n: Node, p: Node)
      requires Mirrored() && n in mem
      modifies this`mem, n`parent
      ensures Mirrored() && mem == old(mem)[n := old(mem)[n].(parent := p)]
    {
      n.parent := p;
      mem := mem[n := mem[n].(parent := p)];
    }

    method WriteColor(n: Node, color: Color)
      requires Mirrored() && n in mem
      modifies this`mem, n`color
      ensures Mirrored() && mem == old(mem)[n := old(mem)[n].(color := color)]
    {
      n.color := color;
      mem := mem[n := mem[n].(color := color)];
    }

    method WriteItem(n: Node, key: Key, value: Value)
      requires Mirrored() && n in mem
      modifies this`mem, n`key, n`value
      ensures Mirrored() && mem == old(mem)[n := old(mem)[n].(it := Item(key, value))]
    {
      n.key, n.value := key, value;
      mem := mem[n := mem[n].(it := Item(key, value))];
    }

    method WriteValue(n: Node, value: Value, timestamp: nat)
      requires Mirrored() && n in mem
      modifies this`mem, n`value, n`timestamp
      ensures Mirrored() && mem == old(mem)[n := old(mem)[n].(it := Item(old(mem)[n].it.key, value), ts := timestamp)]
    {
      n.value, n.timestamp := value, timestamp;
      mem := mem[n := mem[n].(it := Item(n.key, value), ts := timestamp)];
    }

    /** A node that has left the tree takes the other item. */
    method WriteOutside(n: Node, key: Key, value: Value)
      requires Mirrored() && n !in mem
      modifies n`key, n`value
      ensures Mirrored() && n.key == key && n.value == value
    {
      n.key, n.value := key, value;
    }

    /** A node of the caller becomes a node of the tree. */
    ghost method Own(n: Node)
      requires Mirrored()
      modifies this`mem
      ensures Mirrored() && mem == old(mem)[n := RecOf(n)]
    {
      mem := mem[n := RecOf(n)];
    }

    /** A child, unless it is the sentinel, learns its parent. */
    method Adopt(m: Node, par: Node)
      requires Mirrored() && (m != nil ==> m in mem)
      modifies this`mem, m`parent
      ensures Mirrored() && mem == Adopted(old(mem), nil, m, par)
    {
      if m != nil {
        SetParent(m, par);
      }
    }

    /** Whatever pointed at `x` now points at `y`. */
    method Redirect(p: Node, x: Node, y: Node, ghost d: Dir)
      requires Mirrored() && (p != nil ==> p in mem && mem[p].Child(d) == x && mem[p].Child(Flip(d)) != x)
      modifies this`root, this`mem, p`left, p`right
      ensures Mirrored() && mem == Redirected(old(mem), nil, p, d, y)
      ensures root == if p == nil then y else old(root)
    {
      if p == nil {
        root := y;
      } else if x == p.left {
        SetLeft(p, y);
      } else {
        SetRight(p, y);
      }
    }

    // ----- rotations

    method LeftRotate(x: Node, ghost c: Path, ghost fx: Frame, ghost fy: Frame, ghost a: Shape, ghost b: Shape, ghost e: Shape)
      requires On(c, Unrotated(L, fx, fy, a, b, e)) && x == fx.node
      modifies this`root, this`mem, mem.Keys`color, mem.Keys`left, mem.Keys`right, mem.Keys`parent
      ensures On(c, Rotated(L, fx, fy, a, b, e)) && mem.Keys == old(mem.Keys) && mem[nil] == old(mem)[nil]
    {
      RotationFacts(mem, nil, root, L, c, fx, fy, a, b, e);
      ghost var h, r := mem, root;
      var y: Node, m: Node, p: Node := x.right, x.right.left, x.parent;
      LeftLinks(x, y, m, p, if c == [] then L else c[|c| - 1].dir);
      RotateDone(h, mem, nil, r, root, L, c, fx, fy, a, b, e);
    }

    method LeftLinks(x: Node, y: Node, m: Node, p: Node, ghost pd: Dir)
      requires Mirrored() && nil in mem && x in mem && y in mem && (m != nil ==> m in mem)
      requires p != nil ==> p != x && p != y && p in mem && mem[p].Child(pd) == x && mem[p].Child(Flip(pd)) != x
      modifies this`root, this`mem, mem.Keys`color, mem.Keys`left, mem.Keys`right, mem.Keys`parent
      ensures Mirrored() && mem == RotateMem(old(mem), nil, L, x, y, m, p, pd)
      ensures root == if p == nil then y else old(root)
    {
      hide At, PathIds, Ids, ParentOf, Mirrored;
      SetRight(x, m);
      Adopt(m, x);
      SetParent(y, p);
      Redirect(p, x, y, pd);
      SetLeft(y, x);
      SetParent(x, y);
    }

    method RightRotate(x: Node, ghost c: Path, ghost fx: Frame, ghost fy: Frame, ghost a: Shape, ghost b: Shape, ghost e: Shape)
      requires On(c, Unrotated(R, fx, fy, a, b, e)) && x == fx.node
      modifies this`root, this`mem, mem.Keys`color, mem.Keys`left, mem.Keys`right, mem.Keys`parent
      ensures On(c, Rotated(R, fx, fy, a, b, e)) && mem.Keys == old(mem.Keys) && mem[nil] == old(mem)[nil]
    {
      RotationFacts(mem, nil, root, R, c, fx, fy, a, b, e);
      ghost var h, r := mem, root;
      var y: Node, m: Node, p: Node := x.left, x.left.right, x.parent;
      RightLinks(x, y, m, p, if c == [] then L else c[|c| - 1].dir);
      RotateDone(h, mem, nil, r, root, R, c, fx, fy, a, b, e);
    }

    method RightLinks(x: Node, y: Node, m: Node, p: Node, ghost pd: Dir)
      requires Mirrored() && nil in mem && x in mem && y in mem && (m != nil ==> m in mem)
      requires p != nil ==> p != x && p != y && p in mem && mem[p].Child(pd) == x && mem[p].Child(Flip(pd)) != x
      modifies this`root, this`mem, mem.Keys`color, mem.Keys`left, mem.Keys`right, mem.Keys`parent
      ensures Mirrored() && mem == RotateMem(old(mem), nil, R, x, y, m, p, pd)
      ensures root == if p == nil then y else old(root)
    {
      hide At, PathIds, Ids, ParentOf, Mirrored;
      SetLeft(x, m);
      Adopt(m, x);
      SetParent(y, p);
      Redirect(p, x, y, pd);
      SetRight(y, x);
      SetParent(x, y);
    }

    /** Rotation towards side `d`; the two fix-up loops treat their mirror images alike. */
    method Rotate(d: Dir, x: Node, ghost c: Path, ghost fx: Frame, ghost fy: Frame, ghost a: Shape, ghost b: Shape,
                  ghost e: Shape)
      requires On(c, Unrotated(d, fx, fy, a, b, e)) && x == fx.node
      modifies this`root, this`mem, mem.Keys`color, mem.Keys`left, mem.Keys`right, mem.Keys`parent
      ensures On(c, Rotated(d, fx, fy, a, b, e)) && mem.Keys == old(mem.Keys) && mem[nil] == old(mem)[nil]
    {
      if d == L {
        LeftRotate(x, c, fx, fy, a, b, e);
      } else {
        RightRotate(x, c, fx, fy, a, b, e);
      }
    }

    // ----- colours

    method SetColor(n: Node, color: Color, ghost c: Path, ghost t: Shape)
      requires On(c, t) && t.Br? && n == t.node
      modifies this`mem, n`color
      ensures On(c, Paint(t, color)) && mem.Keys == old(mem.Keys) && mem[nil] == old(mem)[nil]
    {
      hide At;
      ghost var h := mem;
      assert n in mem;
      WriteColor(n, color);
      Painted(h, mem, nil, root, c, t, color);
    }

    // ----- looking around

    /** `t` sits at the end of `c` in a red-black tree that reads `w`. */
    ghost predicate Seat(c: Path, t: Shape, k: nat, w: seq<Item>)
      reads this, mem.Keys
    {
      match t
      case Leaf => On(c, t) && Fits(c, t, k) && Whole(c, t) == w
      case Br(_, _, _, _, _, _) => On(c, t) && Fits(c, t, k) && Whole(c, t) == w
    }

    lemma OnUp(c: Path, f: Frame, u: Shape)
      requires On(c + [f], u)
      ensures On(c, Fill(f, u))
    {
      GoUp(mem, nil, root, c, f, u);
      SplitPath(c, f);
      assert Ids(Fill(f, u)) == Ids(u) + {f.node} + Ids(f.other);
    }

    lemma OnDown(c: Path, f: Frame, u: Shape)
      requires On(c, Fill(f, u))
      ensures On(c + [f], u)
    {
      GoDown(mem, nil, root, c, Fill(f, u), f.dir, f, u);
      SplitPath(c, f);
      assert Ids(Fill(f, u)) == Ids(u) + {f.node} + Ids(f.other);
    }

    lemma {:induction false} OnTop(c: Path, t: Shape)
      requires On(c, t)
      ensures On([], Plug(c, t))
      decreases |c|
    {
      if c != [] {
        var c0, f := c[..|c| - 1], c[|c| - 1];
        assert c == c0 + [f];
        OnUp(c0, f, t);
        OnTop(c0, Fill(f, t));
      }
    }

    /** What the code reads at the end of a path. */
    lemma Here(c: Path, t: Shape)
      requires On(c, t)
      ensures Ptr(nil, t) in mem && mem[Ptr(nil, t)].color == ColorOf(t)
      ensures t.Br? ==> t.node != nil
      ensures t.Br? ==> mem[t.node] == Rec(t.color, t.it, t.ts, Ptr(nil, t.left), Ptr(nil, t.right), ParentOf(nil, c))
      ensures ParentOf(nil, c) in mem && mem[ParentOf(nil, c)].color == HoleColor(c)
      ensures c == [] ==> root == Ptr(nil, t)
      ensures c != [] ==>
                var f := c[|c| - 1];
                f.node != nil && mem[f.node].Child(f.dir) == Ptr(nil, t) && mem[f.node].Child(Flip(f.dir)) == Ptr(nil, f.other)
                && (t.Br? || f.other.Br? ==> Ptr(nil, f.other) != Ptr(nil, t))
    {
      if c != [] {
        assert PathRep(mem, nil, root, c, Ptr(nil, t), Ids(t));
        assert FrameRep(mem, nil, ParentOf(nil, c[..|c| - 1]), c[|c| - 1], Ptr(nil, t), Ids(t));
        RepLive(mem, nil, c[|c| - 1].node, c[|c| - 1].other);
        RepLive(mem, nil, ParentOf(nil, c), t);
      }
    }

    // ----- insertion

    /** Red uncle: recolour and go on from the grandparent. */
    method InsertRecolorUp(z: Node, d: Dir, ghost c: Path, ghost g: Frame, ghost p: Frame, ghost t: Shape)
      returns (z1: Node)
      requires On(c + [g] + [p], t) && t.Br? && z == t.node && d == g.dir && g.other.Br?
      modifies this`mem, mem.Keys`color, mem.Keys`left, mem.Keys`right, mem.Keys`parent
      ensures On(c, Recolored(g, p, t)) && z1 == g.node && mem.Keys == old(mem.Keys)
    {
      Here(c + [g] + [p], t);
      SplitPath(c + [g], p);
      var zp: Node := z.parent;
      OnUp(c + [g], p, t);
      SetColor(zp, Black, c + [g], Fill(p, t));
      ghost var pb := Fill(p.(color := Black), t);
      Here(c + [g], pb);
      SplitPath(c, g);
      z1 := zp.parent;
      OnUp(c, g, pb);
      ghost var gy := g.(dir := Flip(d), other := pb);
      OnDown(c, gy, g.other);
      SetColor(if d == L then z1.right else z1.left, Black, c + [gy], g.other);
      OnUp(c, gy, Paint(g.other, Black));
      SetColor(z1, Red, c, Fill(gy, Paint(g.other, Black)));
    }

    /** Black uncle, inner grandchild: the first rotation. */
    method InsertRotateIn(z: Node, d: Dir, ghost c: Path, ghost g: Frame, ghost p: Frame, ghost t: Shape) returns (z1: Node)
      requires On(c + [g] + [p], t) && t.Br? && z == t.node && d == g.dir && p.dir == Flip(d)
      modifies this`root, this`mem, mem.Keys`color, mem.Keys`left, mem.Keys`right, mem.Keys`parent
      ensures On(c + [g] + [InnerFrame(g, t)], InnerChild(g, p, t)) && z1 == p.node && mem.Keys == old(mem.Keys)
    {
      Here(c + [g] + [p], t);
      SplitPath(c + [g], p);
      z1 := z.parent;
      OnUp(c + [g], p, t);
      ghost var f := InnerFrame(g, t);
      Rotate(d, z1, c + [g], p, f, p.other, Side(t, d), f.other);
      OnDown(c + [g], f, InnerChild(g, p, t));
    }

    /** Black uncle, outer grandchild: recolour and rotate at the grandparent. */
    method InsertRotateOut(z: Node, d: Dir, ghost c: Path, ghost g: Frame, ghost p: Frame, ghost t: Shape)
      requires On(c + [g] + [p], t) && t.Br? && z == t.node && d == g.dir && p.dir == d
      modifies this`root, this`mem, mem.Keys`color, mem.Keys`left, mem.Keys`right, mem.Keys`parent
      ensures On(c + [OuterFrame(g, p)], t) && mem.Keys == old(mem.Keys)
    {
      Here(c + [g] + [p], t);
      SplitPath(c + [g], p);
      var zp: Node := z.parent;
      OnUp(c + [g], p, t);
      SetColor(zp, Black, c + [g], Fill(p, t));
      ghost var pb := Fill(p.(color := Black), t);
      Here(c + [g], pb);
      SplitPath(c, g);
      var zg: Node := zp.parent;
      OnUp(c, g, pb);
      SetColor(zg, Red, c, Fill(g, pb));
      Rotate(Flip(d), zg, c, g.(color := Red), p.(color := Black), g.other, p.other, t);
      OnDown(c, OuterFrame(g, p), t);
    }

    /** Parent, grandparent and uncle of `z`, and the side of the grandparent the parent is on. */
    method Relatives(z: Node, ghost c: Path, ghost g: Frame, ghost p: Frame, ghost t: Shape)
      returns (zp: Node, zg: Node, d: Dir, y: Node)
      requires On(c + [g] + [p], t) && t.Br? && z == t.node
      ensures zp == p.node && zg == g.node && d == g.dir && y == Ptr(nil, g.other)
      ensures y in mem && y.color == ColorOf(g.other)
      ensures (if d == L then zp.right else zp.left) == z <==> p.dir == Flip(d)
    {
      hide Ids;
      Here(c + [g] + [p], t);
      SplitPath(c + [g], p);
      OnUp(c + [g], p, t);
      Here(c + [g], Fill(p, t));
      SplitPath(c, g);
      zp := z.parent;
      zg := zp.parent;
      d := if zp == zg.left then L else R;
      y := if d == L then zg.right else zg.left;
      OnUp(c, g, Fill(p, t));
      OnDown(c, g.(dir := Flip(d), other := Fill(p, t)), g.other);
      Here(c + [g.(dir := Flip(d), other := Fill(p, t))], g.other);
    }

    /** One round of the loop, `z` and its parent both being red. */
    method InsertRound(z: Node, ghost c: Path, ghost t: Shape, ghost k: nat)
      returns (z1: Node, ghost c1: Path, ghost t1: Shape, ghost k1: nat)
      requires On(c, t) && RedFits(c, t, k) && z == t.node && HoleColor(c) == Red
      modifies this`root, this`mem, mem.Keys`color, mem.Keys`left, mem.Keys`right, mem.Keys`parent
      ensures On(c1, t1) && t1.Br? && z1 == t1.node && mem.Keys == old(mem.Keys) && Whole(c1, t1) == Whole(c, t)
      ensures RedFits(c1, t1, k1) || (Fits(c1, t1, k1) && HoleColor(c1) == Black)
      ensures |c1| < |c| && InsertFixed(c1, t1) == InsertFixed(c, t)
    {
      hide At, PathIds, Ids, ParentOf, Mirrored, InsertFixed;
      ghost var p, g, c0;
      c0, g, p := RedParent(c, t, k);
      FixedStep(c0, g, p, t);
      var zp, zg, d, y := Relatives(z, c0, g, p, t);
      if y.color == Red {
        z1 := InsertRecolorUp(z, d, c0, g, p, t);
        InsertRecolor(c0, g, p, t, k);
        c1, t1, k1 := c0, Recolored(g, p, t), k + 1;
      } else if z == if d == L then zp.right else zp.left {
        InsertInner(c0, g, p, t, k);
        z1 := InsertRotateIn(z, d, c0, g, p, t);
        t1, k1 := InnerChild(g, p, t), k;
        c1 := InsertEnd(z1, d, c0, g, InnerFrame(g, t), t1, k);
      } else {
        z1, t1, k1 := z, t, k;
        c1 := InsertEnd(z, d, c0, g, p, t, k);
      }
    }

    method InsertEnd(z: Node, d: Dir, ghost c: Path, ghost g: Frame, ghost p: Frame, ghost t: Shape, ghost k: nat)
      returns (ghost c1: Path)
      requires On(c + [g] + [p], t) && t.Br? && z == t.node && d == g.dir && p.dir == d
      requires RedFits(c + [g] + [p], t, k) && p.color == Red && ColorOf(g.other) == Black
      modifies this`root, this`mem, mem.Keys`color, mem.Keys`left, mem.Keys`right, mem.Keys`parent
      ensures On(c1, t) && Fits(c1, t, k) && HoleColor(c1) == Black && |c1| == |c| + 1 && mem.Keys == old(mem.Keys)
      ensures Whole(c1, t) == Whole(c + [g] + [p], t) && c1 == c + [OuterFrame(g, p)]
    {
      InsertRotateOut(z, d, c, g, p, t);
      InsertOuter(c, g, p, t, k);
      OuterWhole(c, g, p, t);
      c1 := c + [OuterFrame(g, p)];
    }

    method InsertFixup(start: Node, ghost c0: Path, ghost t0: Shape, ghost k0: nat)
      requires On(c0, t0) && RedFits(c0, t0, k0) && start == t0.node
      modifies this`root, this`mem, this`shape, mem.Keys`color, mem.Keys`left, mem.Keys`right, mem.Keys`parent
      ensures Balanced(shape) && Items(shape) == Whole(c0, t0) && mem.Keys == old(mem.Keys)
      ensures shape == InsertFixed(c0, t0)
    {
      hide ColorOf, Whole, At, InsertFixed;
      var z := start;
      ghost var c, t, k := c0, t0, k0;
      Here(c, t);
      while z.parent.color == Red
        invariant On(c, t) && t.Br? && z == t.node && Whole(c, t) == Whole(c0, t0) && mem.Keys == old(mem.Keys)
        invariant RedFits(c, t, k) || (Fits(c, t, k) && HoleColor(c) == Black)
        invariant InsertFixed(c, t) == InsertFixed(c0, t0)
        invariant z.parent != null && z.parent.color == HoleColor(c)
        decreases |c|
      {
        z, c, t, k := InsertRound(z, c, t, k);
        Here(c, t);
      }
      Settled(c, t, k);
      FixedDone(c, t);
      WholeIsPlug(c, t);
      BlackRoot(c, t);
    }

    method BlackRoot(ghost c: Path, ghost t: Shape)
      requires On(c, t) && Plug(c, t).Br?
      modifies this`mem, this`shape, mem.Keys`color, mem.Keys`left, mem.Keys`right, mem.Keys`parent
      ensures On([], shape) && shape == Paint(Plug(c, t), Black) && mem.Keys == old(mem.Keys)
    {
      hide Ids;
      OnTop(c, t);
      Here([], Plug(c, t));
      shape := Paint(Plug(c, t), Black);
      SetColor(root, Black, [], Plug(c, t));
    }

    /** The last node of the search path, or the root pointer, learns of `z`. */
    method Link(y: Node, z: Node, ghost d: Dir)
      requires Mirrored() && z in mem && (y != nil ==> y in mem && (Less(z.key, y.key) <==> d == L))
      modifies this`root, this`mem, y`left, y`right
      ensures Mirrored() && mem == Redirected(old(mem), nil, y, d, z)
      ensures root == if y == nil then z else old(root)
    {
      if y == nil {
        root := z;
      } else if Strcmp(z.key, y.key) < 0 {
        SetLeft(y, z);
      } else {
        SetRight(y, z);
      }
    }

    /** Links the fresh node `z` in below `y`, the last node of the search path. */
    method Attach(z: Node, y: Node, ghost c: Path, ghost d: Dir)
      requires On(c, Leaf) && z !in mem && y == ParentOf(nil, c)
      requires c != [] ==> d == c[|c| - 1].dir && (d == L <==> Less(z.key, c[|c| - 1].it.key))
      modifies this`root, this`mem, mem.Keys`color, mem.Keys`left, mem.Keys`right, mem.Keys`parent, z`color, z`left, z`right, z`parent
      ensures On(c, Br(z, Red, old(Item(z.key, z.value)), old(z.timestamp), Leaf, Leaf))
      ensures mem.Keys == old(mem.Keys) + {z}
    {
      hide Mirrored;
      Here(c, Leaf);
      ghost var h, r, rec := mem, root, RecOf(z);
      AttachWrites(z, y, d);
      AttachMemOk(h, mem, nil, r, root, c, z, rec, d);
    }

    method AttachWrites(z: Node, y: Node, ghost d: Dir)
      requires Mirrored() && nil in mem && z !in mem && y in mem
      requires y != nil ==> (Less(z.key, mem[y].it.key) <==> d == L)
      modifies this`root, this`mem, mem.Keys`color, mem.Keys`left, mem.Keys`right, mem.Keys`parent, z`color, z`left, z`right, z`parent
      ensures Mirrored() && mem == AttachMem(old(mem), nil, z, old(RecOf(z)), y, d)
      ensures root == if y == nil then z else old(root)
    {
      Own(z);
      SetParent(z, y);
      Link(y, z, d);
      Bare(z);
    }

    method Bare(z: Node)
      requires Mirrored() && z in mem
      modifies this`mem, z`color, z`left, z`right
      ensures Mirrored() && mem == old(mem)[z := old(mem)[z].(color := Red, left := nil, right := nil)]
    {
      hide *;
      SetLeft(z, nil);
      SetRight(z, nil);
      WriteColor(z, Red);
    }

    /** Walks down from the root in search of `key`: to its node `x`, or to the sentinel past the
        last node `y` of the path. */
    method Walk(key: Key) returns (x: Node, y: Node, ghost c: Path, ghost t: Shape, ghost k: nat)
      requires Valid()
      ensures Seat(c, t, k, Items(shape)) && x == Ptr(nil, t) && Gap(c, key)
      ensures t.Br? ==> x != nil && x in mem && x.key == key && t.it.key == key
      ensures t.Leaf? ==> x == nil && y == ParentOf(nil, c)
      ensures t.Leaf? && c != [] ==> (c[|c| - 1].dir == L <==> Less(key, c[|c| - 1].it.key))
      ensures Plug(c, t) == shape && c == Descent(shape, key)
    {
      hide Descent, On, Ids, Mirrored, Seat;
      x, y := root, nil;
      c, t, k := [], shape, BlackHeight(shape);
      SeatTop();
      SeatHere(c, t, k, Items(shape));
      while x != nil
        invariant Seat(c, t, k, Items(shape)) && Gap(c, key) && Plug(c, t) == shape
        invariant x == Ptr(nil, t) && (x == nil <==> t.Leaf?) && y == ParentOf(nil, c)
        invariant c != [] ==> (c[|c| - 1].dir == L <==> Less(key, c[|c| - 1].it.key))
        decreases t
      {
        y := x;
        SeatHere(c, t, k, Items(shape));
        var cmp := Strcmp(key, x.key);
        if cmp == 0 {
          StrcmpZero(key, x.key);
          EndOfWay(c, t, key);
          return;
        }
        PlugDown(c, t, if cmp < 0 then L else R);
        ghost var d := if cmp < 0 then L else R;
        x := if cmp < 0 then x.left else x.right;
        TurnSeat(c, t, k, key, d);
        c, t, k := SeatDown(c, t, k, Items(shape), d);
      }
      SeatHere(c, t, k, Items(shape));
      EndOfWay(c, t, key);
    }

    lemma PlugDown(c: Path, t: Shape, d: Dir)
      requires t.Br?
      ensures Plug(c + [FrameOf(t, d)], Side(t, d)) == Plug(c, t)
    {
      SplitPath(c, FrameOf(t, d));
    }

    lemma EndOfWay(c: Path, t: Shape, key: Key)
      requires Gap(c, key) && (t.Br? ==> Strcmp(key, t.it.key) == 0)
      ensures c == Descent(Plug(c, t), key)
    {
      DescentIs(c, t, key);
    }

    lemma {:induction false} TurnSeat(c: Path, t: Shape, k: nat, key: Key, d: Dir)
      requires Valid() && Seat(c, t, k, Items(shape)) && t.Br? && Gap(c, key)
      requires Strcmp(key, t.it.key) != 0 && (d == L <==> Strcmp(key, t.it.key) < 0)
      ensures Gap(c + [FrameOf(t, d)], key)
    {
      StrcmpFlip(key, t.it.key);
      Turn(c, t, key, d);
    }

    lemma SeatTop()
      requires Valid()
      ensures Seat([], shape, BlackHeight(shape), Items(shape)) && root == Ptr(nil, shape)
      ensures Gap([], [])
    {
      FitsAlone(shape);
      WholeIsPlug([], shape);
      Here([], shape);
    }

    lemma SeatHere(c: Path, t: Shape, k: nat, w: seq<Item>)
      requires Seat(c, t, k, w)
      ensures Ptr(nil, t) in mem && (Ptr(nil, t) == nil <==> t.Leaf?)
      ensures t.Br? ==> mem[t.node] == Rec(t.color, t.it, t.ts, Ptr(nil, t.left), Ptr(nil, t.right), ParentOf(nil, c))
      ensures t.Br? ==> RecOf(t.node) == mem[t.node]
      ensures t.Br? ==> (Ptr(nil, t.left) == nil <==> t.left.Leaf?) && (Ptr(nil, t.right) == nil <==> t.right.Leaf?)
      ensures ParentOf(nil, c) == nil <==> c == []
    {
      Here(c, t);
      RepLive(mem, nil, ParentOf(nil, c), t);
    }

    /** One step down. */
    ghost method SeatDown(c: Path, t: Shape, k: nat, w: seq<Item>, d: Dir) returns (c1: Path, t1: Shape, k1: nat)
      requires Seat(c, t, k, w) && t.Br?
      ensures Seat(c1, t1, k1, w) && c1 == c + [FrameOf(t, d)] && t1 == Side(t, d)
    {
      var f := FrameOf(t, d);
      c1, t1 := c + [f], Side(t, d);
      assert Fill(f, t1) == t;
      OnDown(c, f, t1);
      FitsDown(c, f, t1, k);
      k1 := k - Step(f.color);
      WholeUp(c, f, t1);
    }

    /** One step up; `n` items lie up to and including the subtree. */
    ghost method SeatUp(c: Path, t: Shape, k: nat, w: seq<Item>, n: nat) returns (f: Frame, c1: Path, t1: Shape, k1: nat)
      requires Seat(c, t, k, w) && c != [] && n == |Before(c)| + |Items(t)|
      ensures f == c[|c| - 1] && c1 == c[..|c| - 1] && t1 == Fill(f, t) && t1.Br? && Seat(c1, t1, k1, w)
      ensures mem[f.node].Child(R) == Ptr(nil, if f.dir == R then t else f.other)
      ensures t.Br? ==> (f.dir == R <==> mem[f.node].Child(R) == t.node)
      ensures if f.dir == R then n == |Before(c1)| + |Items(t1)| else n == Pos(c1, t1)
    {
      hide Before;
      f, c1 := c[|c| - 1], c[..|c| - 1];
      assert c == c1 + [f];
      Here(c, t);
      t1, k1 := SeatFill(c1, f, t, k, w);
      PosAbove(c1, f, t, n);
    }

    lemma SeatFill(c: Path, f: Frame, t: Shape, k: nat, w: seq<Item>) returns (t1: Shape, k1: nat)
      requires Seat(c + [f], t, k, w)
      ensures t1 == Fill(f, t) && Seat(c, t1, k1, w)
    {
      hide At, PathIds, Ids, ParentOf;
      t1, k1 := Fill(f, t), k + Step(f.color);
      OnUp(c, f, t);
      FitsUp(c, f, t, k);
      WholeUp(c, f, t);
    }

    /** Inserts the node `z` unless its key is there already. */
    method Insert(z: Node)
      requires Valid() && z !in mem
      modifies this`root, this`mem, this`shape, mem.Keys`color, mem.Keys`left, mem.Keys`right, mem.Keys`parent, z`color, z`left, z`right, z`parent
      ensures Valid()
      ensures var it := Item(old(z.key), old(z.value));
              if Has(old(Items(shape)), it.key) then shape == old(shape) && mem == old(mem)
              else Items(shape) == Upsert(old(Items(shape)), it) && mem.Keys == old(mem.Keys) + {z}
      ensures !Has(old(Items(shape)), old(z.key)) ==>
                var z1 := Br(z, Red, old(Item(z.key, z.value)), old(z.timestamp), Leaf, Leaf);
                shape == InsertFixed(Descent(old(shape), old(z.key)), z1)
    {
      var x, y; ghost var c, t, k;
      x, y, c, t, k := Walk(z.key);
      if x != nil {
        Hit(c, t);
        return;
      }
      InsertAt(z, y, c, k);
    }

    method InsertAt(z: Node, y: Node, ghost c: Path, ghost k: nat)
      requires On(c, Leaf) && Fits(c, Leaf, k) && Whole(c, Leaf) == Items(shape) && Sorted(Items(shape))
      requires z !in mem && y == ParentOf(nil, c) && Gap(c, z.key)
      requires c != [] ==> (c[|c| - 1].dir == L <==> Less(z.key, c[|c| - 1].it.key))
      modifies this`root, this`mem, this`shape, mem.Keys`color, mem.Keys`left, mem.Keys`right, mem.Keys`parent, z`color, z`left, z`right, z`parent
      ensures Valid() && !Has(old(Items(shape)), old(z.key)) && mem.Keys == old(mem.Keys) + {z}
      ensures Items(shape) == Upsert(old(Items(shape)), old(Item(z.key, z.value)))
      ensures shape == InsertFixed(c, Br(z, Red, old(Item(z.key, z.value)), old(z.timestamp), Leaf, Leaf))
    {
      ghost var it, z1 := Item(z.key, z.value), Br(z, Red, Item(z.key, z.value), z.timestamp, Leaf, Leaf);
      DeadEnd(c, z.key);
      Inserted(c, z1, it);
      UpsertSorted(Items(shape), it);
      FreshRed(c, z1, k);
      Attach(z, y, c, if c == [] then L else c[|c| - 1].dir);
      InsertFixup(z, c, z1, k);
    }

    // ----- writes around a short subtree

    /** Colours the parent of the subtree at the end of the path. */
    method PaintParent(n: Node, color: Color, ghost c: Path, ghost p: Frame, ghost t: Shape)
      requires On(c + [p], t) && n == p.node
      modifies this`mem, mem.Keys`color, mem.Keys`left, mem.Keys`right, mem.Keys`parent
      ensures On(c + [p.(color := color)], t) && mem.Keys == old(mem.Keys) && mem[nil] == old(mem)[nil]
    {
      OnUp(c, p, t);
      SetColor(n, color, c, Fill(p, t));
      OnDown(c, p.(color := color), t);
    }

    /** The path that leads to the sibling instead. */
    lemma OnSibling(c: Path, p: Frame, t: Shape)
      requires On(c + [p], t)
      ensures On(c + [p.(dir := Flip(p.dir), other := t)], p.other)
    {
      OnUp(c, p, t);
      OnDown(c, p.(dir := Flip(p.dir), other := t), p.other);
    }

    method PaintSibling(w: Node, color: Color, ghost c: Path, ghost p: Frame, ghost t: Shape)
      requires On(c + [p], t) && p.other.Br? && w == p.other.node
      modifies this`mem, mem.Keys`color, mem.Keys`left, mem.Keys`right, mem.Keys`parent
      ensures On(c + [p.(other := Paint(p.other, color))], t) && mem.Keys == old(mem.Keys) && mem[nil] == old(mem)[nil]
    {
      OnSibling(c, p, t);
      SetColor(w, color, c + [p.(dir := Flip(p.dir), other := t)], p.other);
      OnSibling(c, p.(dir := Flip(p.dir), other := t), Paint(p.other, color));
    }

    /** Colours the child of the sibling on side `d`. */
    method PaintNephew(n: Node, color: Color, d: Dir, ghost c: Path, ghost p: Frame, ghost t: Shape)
      requires On(c + [p], t) && p.other.Br? && Side(p.other, d).Br? && n == Side(p.other, d).node
      modifies this`mem, mem.Keys`color, mem.Keys`left, mem.Keys`right, mem.Keys`parent
      ensures On(c + [p.(other := Fill(FrameOf(p.other, d), Paint(Side(p.other, d), color)))], t)
      ensures mem.Keys == old(mem.Keys) && mem[nil] == old(mem)[nil]
    {
      ghost var pw, w, u := p.(dir := Flip(p.dir), other := t), FrameOf(p.other, d), Side(p.other, d);
      OnSibling(c, p, t);
      assert Fill(w, u) == p.other;
      OnDown(c + [pw], w, u);
      SetColor(n, color, c + [pw] + [w], u);
      OnUp(c + [pw], w, Paint(u, color));
      OnSibling(c, pw, Fill(w, Paint(u, color)));
    }

    /** Parent, side and sibling of a subtree that is not the whole tree. */
    method Family(x: Node, ghost c: Path, ghost p: Frame, ghost t: Shape) returns (xp: Node, d: Dir, w: Node)
      requires On(c + [p], t) && x == Ptr(nil, t) && p.other.Br? && (t.Leaf? ==> mem[nil].parent == p.node)
      ensures xp == p.node && d == p.dir && w == p.other.node
    {
      Here(c + [p], t);
      SplitPath(c, p);
      xp := x.parent;
      d := if x == xp.left then L else R;
      w := if d == L then xp.right else xp.left;
    }

    /** The colours of the sibling's children, near and far. */
    method Nephews(w: Node, d: Dir, ghost c: Path, ghost p: Frame, ghost t: Shape) returns (near: Node, far: Node)
      requires On(c + [p], t) && p.other.Br? && w == p.other.node && d == p.dir
      ensures near == Ptr(nil, Side(p.other, d)) && near.color == ColorOf(Side(p.other, d))
      ensures far == Ptr(nil, Side(p.other, Flip(d))) && far.color == ColorOf(Side(p.other, Flip(d)))
    {
      ghost var pw := p.(dir := Flip(p.dir), other := t);
      OnSibling(c, p, t);
      Here(c + [pw], p.other);
      near := if d == L then w.left else w.right;
      far := if d == L then w.right else w.left;
      OnDown(c + [pw], FrameOf(p.other, L), p.other.left);
      Here(c + [pw] + [FrameOf(p.other, L)], p.other.left);
      OnDown(c + [pw], FrameOf(p.other, R), p.other.right);
      Here(c + [pw] + [FrameOf(p.other, R)], p.other.right);
    }

    // ----- deletion

    /** Red sibling: afterwards the sibling is black. */
    method DeleteRedSibling(xp: Node, d: Dir, w: Node, ghost c: Path, ghost p: Frame, ghost t: Shape) returns (w1: Node)
      requires On(c + [p], t) && xp == p.node && d == p.dir && p.other.Br? && w == p.other.node
      requires Side(p.other, d).Br?
      modifies this`root, this`mem, mem.Keys`color, mem.Keys`left, mem.Keys`right, mem.Keys`parent
      ensures On(c + [SiblingUp(p)] + [ParentDown(p)], t) && w1 == ParentDown(p).other.node
      ensures mem.Keys == old(mem.Keys) && mem[nil] == old(mem)[nil]
    {
      PaintSibling(w, Black, c, p, t);
      ghost var p1 := p.(other := Paint(p.other, Black));
      PaintParent(xp, Red, c, p1, t);
      ghost var p2, fw := p1.(color := Red), SiblingUp(p);
      OnUp(c, p2, t);
      Rotate(d, xp, c, p2, fw, t, Side(p.other, d), fw.other);
      OnDown(c, fw, Fill(ParentDown(p), t));
      OnDown(c + [fw], ParentDown(p), t);
      w1 := SiblingOf(xp, d, c + [fw], ParentDown(p), t);
    }

    /** Near nephew red, far nephew black: afterwards the far nephew is red. */
    method DeleteNearNephew(xp: Node, d: Dir, w: Node, near: Node, ghost c: Path, ghost p: Frame, ghost t: Shape)
      returns (w1: Node)
      requires On(c + [p], t) && xp == p.node && d == p.dir && p.other.Br? && w == p.other.node
      requires Side(p.other, d).Br? && near == Side(p.other, d).node
      modifies this`root, this`mem, mem.Keys`color, mem.Keys`left, mem.Keys`right, mem.Keys`parent
      ensures On(c + [p.(other := NearUp(p.other, d))], t) && w1 == near
      ensures mem.Keys == old(mem.Keys) && mem[nil] == old(mem)[nil]
    {
      hide At, PathIds, Ids, ParentOf, Mirrored;
      PaintNephew(near, Black, d, c, p, t);
      ghost var w0, b := p.other, Side(p.other, d);
      ghost var p1 := p.(other := Fill(FrameOf(w0, d), Paint(b, Black)));
      PaintSibling(w, Red, c, p1, t);
      RotateSibling(d, w, c, p1.(other := Paint(p1.other, Red)), t, FrameOf(w0, d).(color := Red),
                    FrameOf(b, d).(color := Black), Side(w0, Flip(d)), Side(b, Flip(d)), Side(b, d));
      w1 := SiblingOf(xp, d, c, p.(other := NearUp(w0, d)), t);
    }

    method SiblingOf(xp: Node, d: Dir, ghost c: Path, ghost p: Frame, ghost t: Shape) returns (w: Node)
      requires On(c + [p], t) && xp == p.node && d == p.dir && p.other.Br?
      ensures w == p.other.node
    {
      Here(c + [p], t);
      SplitPath(c, p);
      w := if d == L then xp.right else xp.left;
    }

    /** Rotates at the sibling, away from side `d`. */
    method RotateSibling(d: Dir, w: Node, ghost c: Path, ghost p: Frame, ghost t: Shape, ghost x: Frame, ghost y: Frame,
                         ghost a: Shape, ghost b: Shape, ghost e: Shape)
      requires On(c + [p], t) && d == p.dir && w == x.node && p.other == Unrotated(Flip(d), x, y, a, b, e)
      modifies this`root, this`mem, mem.Keys`color, mem.Keys`left, mem.Keys`right, mem.Keys`parent
      ensures On(c + [p.(other := Rotated(Flip(d), x, y, a, b, e))], t)
      ensures mem.Keys == old(mem.Keys) && mem[nil] == old(mem)[nil]
    {
      ghost var pw := p.(dir := Flip(d), other := t);
      OnSibling(c, p, t);
      Rotate(Flip(d), w, c + [pw], x, y, a, b, e);
      OnSibling(c, pw, Rotated(Flip(d), x, y, a, b, e));
    }

    /** Far nephew red: the rotation that ends the loop. */
    method DeleteFarNephew(xp: Node, d: Dir, w: Node, ghost c: Path, ghost p: Frame, ghost t: Shape)
      requires On(c + [p], t) && xp == p.node && d == p.dir && p.other.Br? && w == p.other.node
      requires Side(p.other, Flip(d)).Br?
      modifies this`root, this`mem, mem.Keys`color, mem.Keys`left, mem.Keys`right, mem.Keys`parent
      ensures On(c, FarUp(p, t)) && mem.Keys == old(mem.Keys) && mem[nil] == old(mem)[nil]
    {
      hide At;
      ghost var w0, e := p.other, Side(p.other, Flip(d));
      Here(c + [p], t);
      SplitPath(c, p);
      PaintSibling(w, xp.color, c, p, t);
      ghost var p1 := p.(other := Paint(w0, p.color));
      PaintParent(xp, Black, c, p1, t);
      ghost var p2 := p1.(color := Black);
      var near, far := Nephews(w, d, c, p2, t);
      PaintNephew(far, Black, Flip(d), c, p2, t);
      ghost var p3 := p2.(other := Fill(FrameOf(p2.other, Flip(d)), Paint(e, Black)));
      OnUp(c, p3, t);
      Rotate(d, xp, c, p2, FrameOf(w0, d).(color := p.color), t, Side(w0, d), Paint(e, Black));
    }

    /** One round of the loop, the subtree at `x` being black and one black node short. */
    method DeleteRound(x: Node, ghost c: Path, ghost t: Shape, ghost k: nat)
      returns (x1: Node, ghost c1: Path, ghost t1: Shape, ghost k1: nat)
      requires On(c, t) && ShortFits(c, t, k) && x == Ptr(nil, t) && c != [] && ColorOf(t) == Black
      requires t.Leaf? ==> mem[nil].parent == ParentOf(nil, c)
      modifies this`root, this`mem, mem.Keys`color, mem.Keys`left, mem.Keys`right, mem.Keys`parent
      ensures On(c1, t1) && x1 == Ptr(nil, t1) && t1.Br? && mem.Keys == old(mem.Keys) && Whole(c1, t1) == Whole(c, t)
      ensures ShortFits(c1, t1, k1) || (c1 == [] && Fits(c1, t1, k1))
      ensures |c1| < |c| || (ColorOf(t1) == Red && |c1| == |c|)
      ensures DeleteFixed(c1, t1) == DeleteFixed(c, t)
    {
      hide At, PathIds, Ids, DeleteFixed, BlackSibling;
      ghost var c0, p := c[..|c| - 1], c[|c| - 1];
      assert c == c0 + [p];
      SiblingThere(c0, p, t, k);
      DeleteStep(c0, p, t);
      var xp, d, w := Family(x, c0, p, t);
      Here(c0 + [p], t);
      OnSibling(c0, p, t);
      Here(c0 + [p.(dir := Flip(d), other := t)], p.other);
      if w.color == Red {
        DeleteRed(c0, p, t, k);
        DeleteRedWhole(c0, p, t);
        w := DeleteRedSibling(xp, d, w, c0, p, t);
        x1, c1, t1, k1 := DeleteBlackSibling(x, xp, d, w, c0 + [SiblingUp(p)], ParentDown(p), t, k);
      } else {
        x1, c1, t1, k1 := DeleteBlackSibling(x, xp, d, w, c0, p, t, k);
      }
    }

    method DeleteBlackSibling(x: Node, xp: Node, d: Dir, w: Node, ghost c: Path, ghost p: Frame, ghost t: Shape, ghost k: nat)
      returns (x1: Node, ghost c1: Path, ghost t1: Shape, ghost k1: nat)
      requires On(c + [p], t) && ShortFits(c + [p], t, k) && x == Ptr(nil, t) && ColorOf(t) == Black
      requires p.other.Br? && p.other.color == Black && xp == p.node && d == p.dir && w == p.other.node
      modifies this`root, this`mem, mem.Keys`color, mem.Keys`left, mem.Keys`right, mem.Keys`parent
      ensures On(c1, t1) && x1 == Ptr(nil, t1) && t1.Br? && mem.Keys == old(mem.Keys) && Whole(c1, t1) == Whole(c + [p], t)
      ensures ShortFits(c1, t1, k1) || (c1 == [] && Fits(c1, t1, k1))
      ensures (c1 == c && t1.color == p.color) || c1 == []
      ensures DeleteFixed(c1, t1) == BlackSibling(c, p, t)
    {
      hide At, PathIds, Ids, ParentOf, Mirrored, DeleteFixed, BlackSibling;
      BlackStep(c, p, t);
      var near, far := Nephews(w, d, c, p, t);
      if near.color == Black && far.color == Black {
        x1, c1 := xp, c;
        t1, k1 := DeleteUp(w, c, p, t, k);
        return;
      }
      c1 := [];
      if far.color == Black {
        DeleteNear(c, p, t, k);
        DeleteNearWhole(c, p, t);
        ghost var p1 := p.(other := NearUp(p.other, p.dir));
        var w1 := DeleteNearNephew(xp, d, w, near, c, p, t);
        x1, t1, k1 := DeleteEnd(xp, d, w1, c, p1, t, k);
      } else {
        x1, t1, k1 := DeleteEnd(xp, d, w, c, p, t, k);
      }
    }

    method DeleteRecolor(w: Node, ghost c: Path, ghost p: Frame, ghost t: Shape, ghost t1: Shape)
      requires On(c + [p], t) && p.other.Br? && w == p.other.node && t1 == ShortUp(p, t)
      modifies this`mem, mem.Keys`color, mem.Keys`left, mem.Keys`right, mem.Keys`parent
      ensures On(c, t1) && mem.Keys == old(mem.Keys)
    {
      PaintSibling(w, Red, c, p, t);
      OnUp(c, p.(other := Paint(p.other, Red)), t);
    }

    method DeleteUp(w: Node, ghost c: Path, ghost p: Frame, ghost t: Shape, ghost k: nat)
      returns (ghost t1: Shape, ghost k1: nat)
      requires On(c + [p], t) && ShortFits(c + [p], t, k) && ColorOf(t) == Black
      requires p.other.Br? && p.other.color == Black && w == p.other.node
      requires ColorOf(p.other.left) == Black && ColorOf(p.other.right) == Black
      modifies this`mem, mem.Keys`color, mem.Keys`left, mem.Keys`right, mem.Keys`parent
      ensures On(c, t1) && t1.Br? && t1.node == p.node && t1.color == p.color && mem.Keys == old(mem.Keys)
      ensures ShortFits(c, t1, k1) && Whole(c, t1) == Whole(c + [p], t) && t1 == ShortUp(p, t)
    {
      t1, k1 := DeleteBlack(c, p, t, k);
      DeleteRecolor(w, c, p, t, t1);
    }

    method DeleteEnd(xp: Node, d: Dir, w: Node, ghost c: Path, ghost p: Frame, ghost t: Shape, ghost k: nat)
      returns (x1: Node, ghost t1: Shape, ghost k1: nat)
      requires On(c + [p], t) && ShortFits(c + [p], t, k) && ColorOf(t) == Black
      requires p.other.Br? && p.other.color == Black && xp == p.node && d == p.dir && w == p.other.node
      requires ColorOf(Side(p.other, Flip(d))) == Red
      modifies this`root, this`mem, mem.Keys`color, mem.Keys`left, mem.Keys`right, mem.Keys`parent
      ensures On([], t1) && x1 == Ptr(nil, t1) && t1.Br? && mem.Keys == old(mem.Keys) && Whole([], t1) == Whole(c + [p], t)
      ensures Fits([], t1, k1) && t1 == Plug(c, FarUp(p, t))
    {
      DeleteSettled(c, p, t, k);
      DeleteFarNephew(xp, d, w, c, p, t);
      t1 := Plug(c, FarUp(p, t));
      OnTop(c, FarUp(p, t));
      k1 := BlackHeight(t1);
      Here([], t1);
      x1 := root;
    }

    method DeleteFixup(start: Node, ghost c0: Path, ghost t0: Shape, ghost k0: nat)
      requires On(c0, t0) && ShortFits(c0, t0, k0) && start == Ptr(nil, t0)
      requires t0.Leaf? ==> mem[nil].parent == ParentOf(nil, c0)
      modifies this`root, this`mem, this`shape, mem.Keys`color, mem.Keys`left, mem.Keys`right, mem.Keys`parent
      ensures Balanced(shape) && Items(shape) == Whole(c0, t0) && mem.Keys == old(mem.Keys)
      ensures shape == DeleteFixed(c0, t0)
    {
      hide At, PathIds, Ids, ParentOf, DeleteFixed;
      var x := start;
      ghost var c, t, k := c0, t0, k0;
      Here(c, t);
      AtTop(c, t);
      while x != root && x.color == Black
        invariant On(c, t) && x == Ptr(nil, t) && Whole(c, t) == Whole(c0, t0) && mem.Keys == old(mem.Keys)
        invariant ShortFits(c, t, k) || (c == [] && Fits(c, t, k))
        invariant DeleteFixed(c, t) == DeleteFixed(c0, t0)
        invariant t.Leaf? ==> mem[nil].parent == ParentOf(nil, c)
        invariant x in mem && x.color == ColorOf(t) && (x == root <==> c == [])
        decreases if c != [] && ColorOf(t) == Black then |c| + 1 else 0
      {
        x, c, t, k := DeleteRound(x, c, t, k);
        Here(c, t);
        AtTop(c, t);
      }
      ShortDone(c, t, k);
      DeleteDone(c, t);
      BlackEnd(x, c, t);
    }

    /** Only the top of the tree is at the root pointer. */
    lemma AtTop(c: Path, t: Shape)
      requires On(c, t)
      ensures Ptr(nil, t) == root <==> c == []
    {
      PathApart(mem, nil, root, c, Ptr(nil, t), Ids(t));
      if c != [] {
        RootOnPath(mem, nil, root, c, Ptr(nil, t), Ids(t));
      }
    }

    method BlackEnd(x: Node, ghost c: Path, ghost t: Shape)
      requires On(c, t) && x == Ptr(nil, t)
      modifies this`mem, this`shape, mem.Keys`color, mem.Keys`left, mem.Keys`right, mem.Keys`parent
      ensures On([], shape) && shape == Plug(c, Paint(t, Black)) && mem.Keys == old(mem.Keys)
    {
      hide At, Ids, PathIds;
      Here(c, t);
      shape := Plug(c, Paint(t, Black));
      if x != nil {
        SetColor(x, Black, c, t);
      } else {
        x.color := Black;
      }
      OnTop(c, Paint(t, Black));
    }

    // ----- in-order neighbours

    /** The leftmost node at or below `start`. */
    method Mini(start: Node, ghost c: Path, ghost t: Shape, ghost k: nat, ghost w: seq<Item>)
      returns (x: Node, ghost ls: Path, ghost t1: Shape, ghost k1: nat)
      requires Seat(c, t, k, w) && t.Br? && start == t.node
      ensures Seat(c + ls, t1, k1, w) && AllLeft(ls) && t1.Br? && t1.left.Leaf? && x == t1.node
      ensures ls == LeftSpine(t) && t1 == LeastBelow(t)
    {
      x := start;
      ls, t1, k1 := [], t, k;
      assert c + [] == c;
      SeatHere(c, t1, k1, w);
      while x.left != nil
        invariant Seat(c + ls, t1, k1, w) && AllLeft(ls)
        invariant t1.Br? && x == t1.node && x.left == Ptr(nil, t1.left) && (x.left == nil <==> t1.left.Leaf?)
        invariant ls + LeftSpine(t1) == LeftSpine(t) && LeastBelow(t1) == LeastBelow(t)
        decreases t1
      {
        x := x.left;
        SpineStep(ls, t1);
        ls, t1, k1 := SeatLeft(c, ls, t1, k1, w);
        SeatHere(c + ls, t1, k1, w);
      }
    }

    ghost method SeatLeft(c: Path, ls: Path, t: Shape, k: nat, w: seq<Item>) returns (ls1: Path, t1: Shape, k1: nat)
      requires Seat(c + ls, t, k, w) && t.Br? && AllLeft(ls)
      ensures Seat(c + ls1, t1, k1, w) && AllLeft(ls1) && t1 == t.left && ls1 == ls + [FrameOf(t, L)]
    {
      var c1;
      c1, t1, k1 := SeatDown(c + ls, t, k, w, L);
      ls1 := ls + [FrameOf(t, L)];
      Longer(c, ls, FrameOf(t, L));
    }

    lemma Longer(c: Path, ls: Path, f: Frame)
      ensures c + (ls + [f]) == (c + ls) + [f]
    {
    }

    /** The node of the next greater key, or the sentinel after the last one. */
    method Successor(x: Node, ghost c: Path, ghost t: Shape, ghost k: nat, ghost w: seq<Item>)
      returns (y: Node, ghost c1: Path, ghost ls: Path, ghost t1: Shape, ghost k1: nat)
      requires Seat(c, t, k, w) && t.Br? && x == t.node
      ensures y == nil <==> Pos(c, t) + 1 == |w|
      ensures y != nil ==> Seat(c1, t1, k1, w) && t1.Br? && y == t1.node && Pos(c1, t1) == Pos(c, t) + 1
      ensures t.right.Br? ==> y != nil && c1 == c + [FrameOf(t, R)] + ls && AllLeft(ls) && t1.left.Leaf?
      ensures t.right.Br? ==> ls == LeftSpine(t.right) && t1 == LeastBelow(t.right)
    {
      SeatHere(c, t, k, w);
      ls := [];
      if x.right != nil {
        ghost var c2, t2, k2;
        c2, t2, k2 := SeatDown(c, t, k, w, R);
        y, ls, t1, k1 := Mini(x.right, c2, t2, k2, w);
        c1 := c2 + ls;
        PosNextBelow(c, t, FrameOf(t, R), ls, t1);
        SeatPos(c1, t1, k1, w);
      } else {
        CutBranch(c, t);
        y, c1, t1, k1 := Climb(x, c, t, k, w, Pos(c, t) + 1);
      }
    }

    lemma SeatPos(c: Path, t: Shape, k: nat, w: seq<Item>)
      requires Seat(c, t, k, w) && t.Br?
      ensures t.node != nil && Pos(c, t) < |w| && w[Pos(c, t)] == t.it
    {
      PosItem(c, t);
    }

    /** Climbs out of finished right subtrees; `n` items lie up to and including the subtree at `x`. */
    method Climb(start: Node, ghost c: Path, ghost t: Shape, ghost k: nat, ghost w: seq<Item>, ghost n: nat)
      returns (y: Node, ghost c1: Path, ghost t1: Shape, ghost k1: nat)
      requires Seat(c, t, k, w) && t.Br? && start == t.node && n == |Before(c)| + |Items(t)|
      ensures y == nil <==> n == |w|
      ensures y != nil ==> Seat(c1, t1, k1, w) && t1.Br? && y == t1.node && Pos(c1, t1) == n
    {
      var x := start;
      c1, t1, k1 := c, t, k;
      SeatHere(c1, t1, k1, w);
      y := x.parent;
      while y != nil && x == y.right
        invariant Seat(c1, t1, k1, w) && t1.Br? && x == t1.node
        invariant n == |Before(c1)| + |Items(t1)| && y == ParentOf(nil, c1) && (y == nil <==> c1 == [])
        decreases |c1|
      {
        ghost var f;
        f, c1, t1, k1 := SeatUp(c1, t1, k1, w, n);
        x := y;
        SeatHere(c1, t1, k1, w);
        y := y.parent;
      }
      if y != nil {
        ghost var f;
        f, c1, t1, k1 := SeatUp(c1, t1, k1, w, n);
        SeatPos(c1, t1, k1, w);
      }
    }

    // ----- deletion proper

    /** Takes the node `y`, which has at most one child, out of the tree; `x` is that child or the sentinel. */
    method Splice(y: Node, ghost z: Node, ghost c: Path, ghost t: Shape) returns (x: Node, ghost u: Shape)
      requires On(c, t) && t.Br? && y == t.node && (t.left.Leaf? || t.right.Leaf?) && z in mem
      modifies this`root, this`mem, mem.Keys`color, mem.Keys`left, mem.Keys`right, mem.Keys`parent
      ensures u == (if t.left.Br? then t.left else t.right) && Spliced(x, c, u) && mem.Keys == old(mem.Keys) - {y}
      ensures y !in mem && y.color == t.color && y.key == t.it.key && y.value == t.it.val
      ensures z != y ==> z in mem && mem[z].it == old(mem)[z].it
    {
      Here(c, t);
      u := if t.left.Br? then t.left else t.right;
      SpliceChild(c, t, u);
      x := nil;
      if y.left != nil {
        x := y.left;
      } else if y.right != nil {
        x := y.right;
      }
      SpliceOut(y, x, z, c, t, u);
    }

    method SpliceOut(y: Node, x: Node, ghost z: Node, ghost c: Path, ghost t: Shape, ghost u: Shape)
      requires On(c, t) && t.Br? && y == t.node && (t.left.Leaf? || t.right.Leaf?) && x in mem && z in mem
      requires u == (if t.left.Br? then t.left else t.right) && x == Ptr(nil, u)
      requires c != [] ==> ParentOf(nil, c) != x && ParentOf(nil, c) != nil
      modifies this`root, this`mem, mem.Keys`color, mem.Keys`left, mem.Keys`right, mem.Keys`parent
      ensures Spliced(x, c, u) && mem.Keys == old(mem.Keys) - {y}
      ensures y.color == t.color && y.key == t.it.key && y.value == t.it.val
      ensures z != y ==> z in mem && mem[z].it == old(mem)[z].it
    {
      Here(c, t);
      ghost var h, r, d := mem, root, if c == [] then L else c[|c| - 1].dir;
      SpliceWrites(y, x, y.parent, d);
      SplicedAt(h, mem, nil, r, root, c, t, u, d);
      if z != y { SpliceItem(h, nil, y, x, ParentOf(nil, c), d, z); }
    }

    method SpliceWrites(y: Node, x: Node, p: Node, ghost d: Dir)
      requires Mirrored() && nil in mem && x in mem && y in mem && y != x
      requires p != nil ==> p != x && p != y && p in mem && mem[p].Child(d) == y && mem[p].Child(Flip(d)) != y
      modifies this`root, this`mem, mem.Keys`color, mem.Keys`left, mem.Keys`right, mem.Keys`parent
      ensures Mirrored() && mem == SpliceMem(old(mem), nil, y, x, p, d)
      ensures root == if p == nil then x else old(root)
      ensures RecOf(y) == old(mem)[y]
    {
      hide RecOf;
      SetParent(x, p);
      Redirect(p, y, x, d);
      assert RecOf(y) == mem[y];
      mem := mem - {y};
    }

    lemma SpliceChild(c: Path, t: Shape, u: Shape)
      requires On(c, t) && t.Br? && u == if t.left.Br? then t.left else t.right
      ensures Ptr(nil, u) in mem && ParentOf(nil, c) != t.node
      ensures c != [] ==> ParentOf(nil, c) != Ptr(nil, u) && ParentOf(nil, c) != nil
    {
      OnDown(c, FrameOf(t, if t.left.Br? then L else R), u);
      Here(c + [FrameOf(t, if t.left.Br? then L else R)], u);
      PathApart(mem, nil, root, c, t.node, Ids(t));
      ParentOnPath(nil, c);
    }

    /** `z`, on the path, and the spliced-out node `y` exchange their items; timestamps stay. */
    method SwapItems(z: Node, y: Node, ghost c: Path, ghost f: Frame, ghost ls: Path, ghost u: Shape, ghost f1: Frame)
      requires On(c + [f] + ls, u) && f.node == z && z in mem && y !in mem && f1 == f.(it := Item(y.key, y.value))
      modifies this`mem, z`key, z`value, y`key, y`value
      ensures On(c + [f1] + ls, u) && mem.Keys == old(mem.Keys) && mem[nil] == old(mem)[nil]
      ensures ParentOf(nil, c + [f1] + ls) == ParentOf(nil, c + [f] + ls)
      ensures Item(y.key, y.value) == old(mem)[z].it && y.color == old(y.color) && Item(z.key, z.value) == f1.it
    {
      hide At, PathIds, Ids, ParentOf;
      ghost var h, p, p1 := mem, c + [f] + ls, c + [f1] + ls;
      var key, value := z.key, z.value;
      WriteItem(z, y.key, y.value);
      WriteOutside(y, key, value);
      ItemTakenOn(h, mem, nil, root, p, p1, c, f, ls, f1.it, u);
    }

    /** The last step: rebalancing if a black node went missing. */
    method Rebalance(x: Node, color: Color, ghost c: Path, ghost u: Shape, ghost k: nat) returns (ghost s: Shape)
      requires Spliced(x, c, u) && Owing(color, c, u, k)
      modifies this`root, this`mem, this`shape, mem.Keys`color, mem.Keys`left, mem.Keys`right, mem.Keys`parent
      ensures s == shape && Balanced(s) && Items(s) == Whole(c, u) && mem.Keys == old(mem.Keys)
      ensures s == Out(color, c, u)
    {
      hide At, PathIds, Ids, ParentOf;
      if color == Black {
        DeleteFixup(x, c, u, k);
      } else {
        OnTop(c, u);
        FitsTop(c, u, k);
        WholeIsPlug(c, u);
        shape := Plug(c, u);
      }
      s := shape;
      assert Balanced(s);
    }

    /** Takes the item of `z` out of the tree and returns the node that left it, holding that item. The
        node of the next greater item leaves in the place of a `z` with two children; its item moves to
        `z`, but not its timestamp. */
    method Delete(z: Node, ghost c: Path, ghost t: Shape, ghost k: nat, ghost i: nat) returns (y: Node)
      requires Valid() && Seat(c, t, k, Items(shape)) && t.Br? && z == t.node && i == Pos(c, t)
      modifies this`root, this`mem, this`shape, mem.Keys`color, mem.Keys`left, mem.Keys`right, mem.Keys`parent, mem.Keys`key, mem.Keys`value
      ensures Valid() && i < |old(Items(shape))| && Items(shape) == RemoveAt(old(Items(shape)), i)
      ensures y in old(mem.Keys) && y != nil && mem.Keys == old(mem.Keys) - {y} && Item(y.key, y.value) == t.it
      ensures y != z <==> TwoChildren(t)
      ensures forall n {:trigger n in mem} :: n in mem && n != z ==> n.key == old(n.key) && n.value == old(n.value)
      ensures y != z ==> i + 1 < |old(Items(shape))| && Item(z.key, z.value) == old(Items(shape))[i + 1]
      ensures shape == RemovedAt(c, t)
    {
      hide At, PathIds, Ids, ParentOf, Mirrored;
      ghost var w, s := Items(shape), shape;
      SeatHere(c, t, k, w);
      SeatPos(c, t, k, w);
      RemoveSorted(w, i);
      if z.left == nil || z.right == nil {
        y := z;
        s := DeleteEdge(z, c, t, k, w, i);
      } else {
        y, s := DeleteBranch(z, c, t, k, w, i);
      }
    }

    /** `z` has two children. */
    method DeleteBranch(z: Node, ghost c: Path, ghost t: Shape, ghost k: nat, ghost w: seq<Item>, ghost i: nat)
      returns (y: Node, ghost s: Shape)
      requires Seat(c, t, k, w) && t.Br? && z == t.node && t.left.Br? && t.right.Br? && i == Pos(c, t) < |w|
      modifies this`root, this`mem, this`shape, mem.Keys`color, mem.Keys`left, mem.Keys`right, mem.Keys`parent, mem.Keys`key, mem.Keys`value
      ensures s == shape && Balanced(s) && Items(s) == RemoveAt(w, i) && y != z && y != nil && y in old(mem)
      ensures mem.Keys == old(mem.Keys) - {y} && Item(y.key, y.value) == t.it
      ensures i + 1 < |w| && Item(z.key, z.value) == w[i + 1] && s == RemovedAt(c, t)
      ensures forall n {:trigger n in mem} :: n in mem && n != z ==> n.key == old(n.key) && n.value == old(n.value)
    {
      ghost var c1, ls, t1, k1;
      y, c1, ls, t1, k1 := Successor(z, c, t, k, w);
      SuccessorFacts(c, t, k, c1, t1, k1, w, i);
      s := DeleteInner(z, y, c, t, ls, t1, k1, w, i);
    }

    lemma SuccessorFacts(c: Path, t: Shape, k: nat, c1: Path, t1: Shape, k1: nat, w: seq<Item>, i: nat)
      requires Seat(c, t, k, w) && t.Br? && t.left.Br? && i == Pos(c, t)
      requires Seat(c1, t1, k1, w) && t1.Br? && t1.left.Leaf? && Pos(c1, t1) == i + 1
      ensures t.node in mem && mem[t.node].it == t.it && w == Whole(c, t) && t1.node != t.node && t1.node != nil
      ensures t1.node in mem && i + 1 < |w| && w[i + 1] == t1.it
    {
      SeatHere(c, t, k, w);
      SeatPos(c1, t1, k1, w);
      SeatHere(c1, t1, k1, w);
    }

    /** Nodes whose fields were left alone. */
    twostate lemma {:induction false} ContentKept(s: set<Node>)
      requires old(Mirrored()) && Mirrored() && s <= mem.Keys && s <= old(mem.Keys)
      requires forall n {:trigger n in s} :: n in s ==>
                 n.key == old(n.key) && n.value == old(n.value) && n.timestamp == old(n.timestamp)
      ensures SameContent(old(mem), mem, s)
    {
      forall n | n in s
        ensures n in old(mem) && n in mem && Content(mem[n]) == Content(old(mem)[n])
      {
        assert n in mem && n in old(mem);
      }
    }

    /** `z` has at most one child and leaves itself. */
    method DeleteEdge(z: Node, ghost c: Path, ghost t: Shape, ghost k: nat, ghost w: seq<Item>, ghost i: nat) returns (ghost s: Shape)
      requires Seat(c, t, k, w) && t.Br? && z == t.node && (t.left.Leaf? || t.right.Leaf?) && i == Pos(c, t) < |w|
      modifies this`root, this`mem, this`shape, mem.Keys`color, mem.Keys`left, mem.Keys`right, mem.Keys`parent
      ensures s == shape && Balanced(s) && mem.Keys == old(mem.Keys) - {z} && Item(z.key, z.value) == t.it
      ensures Items(s) == RemoveAt(w, i) && s == RemovedAt(c, t)
    {
      hide At, PathIds, Ids, ParentOf, Mirrored;
      ghost var k1 := EdgeOut(c, t, k, w, i);
      ghost var u;
      var x;
      x, u := Splice(z, z, c, t);
      s := Rebalance(x, z.color, c, u, k1);
    }

    lemma EdgeOut(c: Path, t: Shape, k: nat, w: seq<Item>, i: nat) returns (k1: nat)
      requires Seat(c, t, k, w) && t.Br? && (t.left.Leaf? || t.right.Leaf?) && i == Pos(c, t) < |w|
      ensures On(c, t) && t.node in mem && RecOf(t.node) == mem[t.node]
      ensures Whole(c, if t.left.Br? then t.left else t.right) == RemoveAt(w, i)
      ensures Owing(t.color, c, if t.left.Br? then t.left else t.right, k1)
    {
      SeatHere(c, t, k, w);
      var u := if t.left.Br? then t.left else t.right;
      SplicedWhole(c, t, u, w, i);
      k1 := SplicedBalance(c, t, u, k);
    }

    /** `z` has two children; its successor `y` leaves and hands its item over. */
    method DeleteInner(z: Node, y: Node, ghost c: Path, ghost t: Shape, ghost ls: Path, ghost t1: Shape, ghost k1: nat,
                       ghost w: seq<Item>, ghost i: nat) returns (ghost s: Shape)
      requires t.Br? && z == t.node && y != z && i == Pos(c, t) < |w| && w == Whole(c, t) && z in mem && mem[z].it == t.it
      requires Seat(c + [FrameOf(t, R)] + ls, t1, k1, w) && t1.Br? && y == t1.node && AllLeft(ls) && t1.left.Leaf?
      modifies this`root, this`mem, this`shape, mem.Keys`color, mem.Keys`left, mem.Keys`right, mem.Keys`parent, z`key, z`value, y`key, y`value
      ensures s == shape && Balanced(s) && Items(s) == RemoveAt(w, i) && mem.Keys == old(mem.Keys) - {y}
      ensures Item(y.key, y.value) == t.it && Item(z.key, z.value) == t1.it
      ensures s == Out(t1.color, c + [FrameOf(t, R).(it := t1.it)] + ls, t1.right)
      ensures forall n {:trigger n in mem} :: n in mem && n != z ==> n.key == old(n.key) && n.value == old(n.value)
    {
      hide At, PathIds, Ids, ParentOf, Mirrored;
      SeatHere(c + [FrameOf(t, R)] + ls, t1, k1, w);
      ghost var f, f1 := FrameOf(t, R), FrameOf(t, R).(it := t1.it);
      ghost var k2 := SuccessorOut(c, t, f, f1, ls, t1, t1.right, k1, w, i);
      s := DeleteSuccessor(z, y, c, f, f1, ls, t1, k1, w, k2);
    }

    method DeleteSuccessor(z: Node, y: Node, ghost c: Path, ghost f: Frame, ghost f1: Frame, ghost ls: Path,
                           ghost t1: Shape, ghost k1: nat, ghost w: seq<Item>, ghost k: nat) returns (ghost s: Shape)
      requires Seat(c + [f] + ls, t1, k1, w) && t1.Br? && y == t1.node && t1.left.Leaf? && f1 == f.(it := t1.it)
      requires z == f.node && z in mem && y != z && Owing(t1.color, c + [f1] + ls, t1.right, k)
      modifies this`root, this`mem, this`shape, mem.Keys`color, mem.Keys`left, mem.Keys`right, mem.Keys`parent, z`key, z`value, y`key, y`value
      ensures s == shape && Balanced(s) && Items(s) == Whole(c + [f1] + ls, t1.right)
      ensures s == Out(t1.color, c + [f1] + ls, t1.right)
      ensures mem.Keys == old(mem.Keys) - {y} && Item(y.key, y.value) == old(mem)[z].it && Item(z.key, z.value) == t1.it
    {
      hide At, PathIds, Ids, ParentOf, Mirrored;
      var x; ghost var u;
      x, u := HandOver(z, y, c, f, f1, ls, t1, k1, w);
      s := Rebalance(x, y.color, c + [f1] + ls, u, k);
    }

    /** The successor `y` leaves and exchanges its item with `z`, higher up on its path. */
    method HandOver(z: Node, y: Node, ghost c: Path, ghost f: Frame, ghost f1: Frame, ghost ls: Path, ghost t1: Shape,
                    ghost k1: nat, ghost w: seq<Item>)
      returns (x: Node, ghost u: Shape)
      requires Seat(c + [f] + ls, t1, k1, w) && t1.Br? && y == t1.node && t1.left.Leaf? && f1 == f.(it := t1.it)
      requires z == f.node && z in mem && y != z
      modifies this`root, this`mem, mem.Keys`color, mem.Keys`left, mem.Keys`right, mem.Keys`parent, z`key, z`value, y`key, y`value
      ensures u == t1.right && Spliced(x, c + [f1] + ls, u)
      ensures mem.Keys == old(mem.Keys) - {y} && Item(y.key, y.value) == old(mem)[z].it && y.color == t1.color
      ensures Item(z.key, z.value) == t1.it
    {
      x, u := Splice(y, z, c + [f] + ls, t1);
      SwapItems(z, y, c, f, ls, u, f1);
    }

    lemma SuccessorOut(c: Path, t: Shape, f: Frame, f1: Frame, ls: Path, t1: Shape, u: Shape, k1: nat, w: seq<Item>, i: nat)
      returns (k2: nat)
      requires t.Br? && f == FrameOf(t, R) && t1.Br? && f1 == f.(it := t1.it) && AllLeft(ls) && t1.left.Leaf?
      requires Seat(c + [f] + ls, t1, k1, w) && u == t1.right && i == Pos(c, t) < |w| && w == Whole(c, t)
      ensures Whole(c + [f1] + ls, u) == RemoveAt(w, i) && Owing(t1.color, c + [f1] + ls, u, k2)
    {
      k2 := SplicedBalance(c + [f] + ls, t1, u, k1);
      var j := SwappedWhole(c, t, f, f1, ls, t1);
      SwappedFits(t1.color, c, f, ls, t1.it, u, k2);
    }

    /** Overwrites the value and the timestamp of the node `x`. */
    method Overwrite(x: Node, value: Value, timestamp: nat, ghost c: Path, ghost t: Shape, ghost k: nat)
      requires Valid() && Seat(c, t, k, Items(shape)) && t.Br? && x == t.node
      modifies this`mem, this`shape, x`value, x`timestamp
      ensures Valid() && Items(shape) == Upsert(old(Items(shape)), Item(t.it.key, value))
      ensures shape == Plug(c, t.(it := Item(t.it.key, value), ts := timestamp))
      ensures x in old(mem) && mem == old(mem)[x := old(mem)[x].(it := Item(t.it.key, value), ts := timestamp)]
    {
      hide At, PathIds, Ids, ParentOf, Plug, On, Fits, RedBlack, Sorted;
      ghost var t1 := Rewritten(c, t, k, Items(shape), value, timestamp);
      OverwriteNode(x, value, timestamp, c, t, t1);
      Settle(c, t1);
    }

    /** What memory holds is the tree's shape again. */
    ghost method Settle(c: Path, t: Shape)
      requires On(c, t) && RedBlack(Plug(c, t)) && Sorted(Items(Plug(c, t)))
      modifies this`shape
      ensures Valid() && shape == Plug(c, t)
    {
      OnTop(c, t);
      shape := Plug(c, t);
    }

    lemma Rewritten(c: Path, t: Shape, k: nat, w: seq<Item>, value: Value, timestamp: nat) returns (t1: Shape)
      requires Seat(c, t, k, w) && t.Br? && Sorted(w)
      ensures t1 == t.(it := Item(t.it.key, value), ts := timestamp)
      ensures RedBlack(Plug(c, t1)) && Items(Plug(c, t1)) == Upsert(w, Item(t.it.key, value)) && Sorted(Items(Plug(c, t1)))
    {
      hide On;
      t1 := t.(it := Item(t.it.key, value), ts := timestamp);
      Revalued(c, t, t1, w);
      UpsertSorted(w, t1.it);
      FitsTop(c, t1, k);
      WholeIsPlug(c, t1);
    }

    method OverwriteNode(x: Node, value: Value, timestamp: nat, ghost c: Path, ghost t: Shape, ghost t1: Shape)
      requires On(c, t) && t.Br? && x == t.node && t1 == t.(it := Item(t.it.key, value), ts := timestamp)
      modifies this`mem, x`value, x`timestamp
      ensures On(c, t1) && x in old(mem)
      ensures mem == old(mem)[x := old(mem)[x].(it := Item(t.it.key, value), ts := timestamp)]
    {
      hide At, Ids, PathIds, ParentOf;
      ghost var h := mem;
      Here(c, t);
      WriteValue(x, value, timestamp);
      NodeRewrittenOn(h, mem, nil, root, c, t, t1);
    }
  }
}
