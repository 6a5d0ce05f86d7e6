/** What it means for a tree to be red-black, told by its ways down. */
module RbPaths {
  import opened RbShapes
  import opened RbBalance
  import RbStamps

  function Blacks(c: Path): nat {
    if c == [] then 0 else Blacks(c[..|c| - 1]) + if c[|c| - 1].color == Black then 1 else 0
  }

  /** Down any way the part that is left is in order and lacks the black nodes passed. */
  lemma {:induction false} WayDown(c: Path, t: Shape, k: nat)
    requires NoRedRed(Plug(c, t)) && Bh(Plug(c, t), k)
    ensures Blacks(c) <= k && Bh(t, k - Blacks(c)) && NoRedRed(t)
    ensures c != [] && c[|c| - 1].color == Red ==> ColorOf(t) == Black
    decreases |c|
  {
    if c != [] {
      var f := c[|c| - 1];
      WayDown(c[..|c| - 1], Fill(f, t), k);
    }
  }

  /** All ways from the root to a missing child pass the same number of black nodes, and none passes two
      red nodes in a row or starts with one. */
  lemma {:induction false} EveryWay(c: Path)
    requires c != [] && RedBlack(Plug(c, Leaf))
    ensures Blacks(c) == BlackHeight(Plug(c, Leaf)) && c[0].color == Black
    ensures forall i :: 0 <= i < |c| - 1 ==> c[i].color == Black || c[i + 1].color == Black
  {
    WayDown(c, Leaf, BlackHeight(Plug(c, Leaf)));
    forall i | 0 <= i < |c| - 1
      ensures c[i].color == Black || c[i + 1].color == Black
    {
      Upper(c, Leaf, i + 2);
      WayDown(c[..i + 1], Fill(c[i + 1], Below(c, Leaf, i + 2)), BlackHeight(Plug(c, Leaf)));
    }
    Upper(c, Leaf, 1);
  }

  /** The subtree below the first `n` nodes of a way. */
  function Below(c: Path, t: Shape, n: nat): Shape
    requires n <= |c|
    decreases |c|
  {
    if n == |c| then t else Below(c[..|c| - 1], Fill(c[|c| - 1], t), n)
  }

  lemma {:induction false} Upper(c: Path, t: Shape, n: nat)
    requires 0 < n <= |c|
    ensures Plug(c[..n - 1], Fill(c[n - 1], Below(c, t, n))) == Plug(c, t)
    ensures n == 1 ==> Plug(c, t) == Fill(c[0], Below(c, t, 1))
    decreases |c|
  {
    if n < |c| {
      var c0 := c[..|c| - 1];
      assert c0[..n - 1] == c[..n - 1] && c0[n - 1] == c[n - 1];
      Upper(c0, Fill(c[|c| - 1], t), n);
    }
  }

  /** No way is longer than the depth, and one is as long. */
  lemma {:induction false} DepthReaches(c: Path, t: Shape)
    ensures |c| + Depth(t) <= Depth(Plug(c, t))
    decreases |c|
  {
    if c != [] {
      DepthReaches(c[..|c| - 1], Fill(c[|c| - 1], t));
    }
  }

  lemma {:induction false} DepthReached(t: Shape) returns (c: Path)
    ensures Plug(c, Leaf) == t && |c| == Depth(t)
  {
    if t.Leaf? {
      c := [];
    } else {
      var d := if Depth(t.left) > Depth(t.right) then L else R;
      var f := Frame(t.node, t.color, t.it, t.ts, d, if d == L then t.right else t.left);
      var c1 := DepthReached(if d == L then t.left else t.right);
      c := [f] + c1;
      RbStamps.PlugUnder(f, c1, Leaf);
    }
  }

  /** For instance, a tree with fewer than 1024 items has no way longer than 20. */
  lemma {:induction false} Thousand(c: Path, t: Shape)
    requires RedBlack(Plug(c, t)) && |Items(Plug(c, t))| < 1024
    ensures |c| <= 20
  {
    DepthReaches(c, t);
    Logarithmic(Plug(c, t));
    SquareMonotone(|Items(Plug(c, t))| + 1, 1024);
    Million();
    if |c| > 20 { PowMonotone(21, Depth(Plug(c, t))); }
  }

  lemma {:induction false} Million()
    ensures Pow2(21) == 2 * 1024 * 1024
  {
    assert Pow2(3) == 8;
    PowSum(3, 3);
    PowSum(6, 1);
    PowSum(7, 7);
    PowSum(14, 7);
  }
}
