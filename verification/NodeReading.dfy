/** Cutting the reading of a branch node at a child, and where a searched key falls in it. */
module NodeReading {
  import opened Keys
  import opened SortedItems
  import opened Weave
  import opened NodeHeap
  import opened NodeHeapLemmas

  ghost predicate Branch(n: Node) {
    n.Node? && !n.leaf && |n.children| == |n.items| + 1
  }

  /** What the node reads before and after its child `i`. */
  ghost function LeftOf(n: Node, a: Notes, i: nat): seq<Item>
    requires Branch(n) && i <= |n.items|
  {
    Zip(n.items[..i], Parts(a, n.children[..i]))
  }

  ghost function RightOf(n: Node, a: Notes, i: nat): seq<Item>
    requires Branch(n) && i <= |n.items|
  {
    Paz(n.items[i..], Parts(a, n.children[i + 1..]))
  }

  lemma NodeCut(n: Node, a: Notes, cont: seq<Item>, i: nat)
    requires Branch(n) && Reads(n, a, cont) && i <= |n.items| && n.children[i] < |a|
    ensures cont == LeftOf(n, a, i) + a[n.children[i]].cont + RightOf(n, a, i)
  {
    var c := n.children[i];
    calc {
      cont;
      WeaveAll(n.items, Parts(a, n.children));
      { assert n.items == n.items[..i] + n.items[i..];
        assert n.children == n.children[..i] + [c] + n.children[i + 1..]; }
      WeaveAll(n.items[..i] + n.items[i..], Parts(a, n.children[..i] + [c] + n.children[i + 1..]));
      { PartsCut(a, n.children[..i], c, n.children[i + 1..]); }
      WeaveAll(n.items[..i] + n.items[i..],
        Parts(a, n.children[..i]) + [a[c].cont] + Parts(a, n.children[i + 1..]));
      { CutOne(n.items[..i], Parts(a, n.children[..i]), a[c].cont,
               n.items[i..], Parts(a, n.children[i + 1..])); }
      LeftOf(n, a, i) + a[c].cont + RightOf(n, a, i);
    }
  }

  /** The right of child `i` starts with item `i` and child `i + 1`; the left of child `i + 1`
      ends with child `i` and item `i`. */
  lemma RightStep(n: Node, a: Notes, i: nat)
    requires Branch(n) && i < |n.items| && n.children[i + 1] < |a|
    ensures RightOf(n, a, i) == [n.items[i]] + a[n.children[i + 1]].cont + RightOf(n, a, i + 1)
  {
    var d := n.children[i + 1];
    calc {
      RightOf(n, a, i);
      { assert n.items[i..] == [n.items[i]] + n.items[i + 1..];
        assert n.children[i + 1..] == [] + [d] + n.children[i + 2..];
        PartsCut(a, [], d, n.children[i + 2..]);
        assert Parts(a, []) + [a[d].cont] == [a[d].cont]; }
      Paz([n.items[i]] + n.items[i + 1..], [a[d].cont] + Parts(a, n.children[i + 2..]));
      { PazCons(n.items[i], a[d].cont, n.items[i + 1..], Parts(a, n.children[i + 2..])); }
      [n.items[i]] + a[d].cont + RightOf(n, a, i + 1);
    }
  }

  lemma LeftStep(n: Node, a: Notes, i: nat)
    requires Branch(n) && i < |n.items| && n.children[i] < |a|
    ensures LeftOf(n, a, i + 1) == LeftOf(n, a, i) + a[n.children[i]].cont + [n.items[i]]
  {
    var c := n.children[i];
    calc {
      LeftOf(n, a, i + 1);
      { assert n.items[..i + 1] == n.items[..i] + [n.items[i]];
        assert n.children[..i + 1] == n.children[..i] + [c] + [];
        PartsCut(a, n.children[..i], c, []); }
      Zip(n.items[..i] + [n.items[i]], Parts(a, n.children[..i]) + [a[c].cont] + Parts(a, []));
      { assert Parts(a, n.children[..i]) + [a[c].cont] + Parts(a, [])
            == Parts(a, n.children[..i]) + [a[c].cont]; }
      Zip(n.items[..i] + [n.items[i]], Parts(a, n.children[..i]) + [a[c].cont]);
      { ZipSnoc(n.items[..i], Parts(a, n.children[..i]), n.items[i], a[c].cont); }
      LeftOf(n, a, i) + a[c].cont + [n.items[i]];
    }
  }

  /** Cutting at item `i`. */
  lemma ItemCut(n: Node, a: Notes, cont: seq<Item>, i: nat)
    requires Branch(n) && Reads(n, a, cont) && i < |n.items|
    requires n.children[i] < |a| && n.children[i + 1] < |a|
    ensures cont == (LeftOf(n, a, i) + a[n.children[i]].cont) + [n.items[i]]
                    + (a[n.children[i + 1]].cont + RightOf(n, a, i + 1))
  {
    hide RightOf;
    calc {
      cont;
      { NodeCut(n, a, cont, i); }
      LeftOf(n, a, i) + a[n.children[i]].cont + RightOf(n, a, i);
      { RightStep(n, a, i); }
      LeftOf(n, a, i) + a[n.children[i]].cont
        + ([n.items[i]] + a[n.children[i + 1]].cont + RightOf(n, a, i + 1));
      (LeftOf(n, a, i) + a[n.children[i]].cont) + [n.items[i]]
        + (a[n.children[i + 1]].cont + RightOf(n, a, i + 1));
    }
  }

  /** Rewriting the child's own reading leaves the two sides alone. */
  lemma SidesKept(n: Node, a: Notes, a1: Notes, i: nat)
    requires Branch(n) && i <= |n.items|
    requires forall k :: 0 <= k < |n.children| && k != i ==>
               n.children[k] < |a| && n.children[k] < |a1| && a[n.children[k]].cont == a1[n.children[k]].cont
    ensures LeftOf(n, a, i) == LeftOf(n, a1, i) && RightOf(n, a, i) == RightOf(n, a1, i)
  {
    PartsSame(a, a1, n.children[..i]);
    PartsSame(a, a1, n.children[i + 1..]);
  }

  // ----- where a key falls

  /** The outcome of a node search: the slot holding `key`, or the gap where it belongs. */
  ghost predicate SearchedAt(items: seq<Item>, key: Key, i: nat, found: bool) {
    if found then i < |items| && items[i].key == key
    else i <= |items|
         && (forall j :: 0 <= j < i ==> Less(items[j].key, key))
         && (forall j :: i <= j < |items| ==> Less(key, items[j].key))
  }

  lemma LastIsGreatest(s: seq<Item>, it: Item, key: Key)
    requires Sorted(s + [it]) && Less(it.key, key)
    ensures Below(s + [it], key)
  {
    TotalOrder();
    var t := s + [it];
    forall j | 0 <= j < |t|
      ensures Less(t[j].key, key)
    {
      if j < |s| { assert Less(t[j].key, t[|s|].key); }
    }
  }

  lemma FirstIsLeast(it: Item, s: seq<Item>, key: Key)
    requires Sorted([it] + s) && Less(key, it.key)
    ensures Above(key, [it] + s)
  {
    TotalOrder();
    var t := [it] + s;
    forall j | 0 <= j < |t|
      ensures Less(key, t[j].key)
    {
      if j > 0 { assert Less(t[0].key, t[j].key); }
    }
  }

  /** A key that falls into gap `i` lies between the left and the right of child `i`. */
  lemma GapSides(n: Node, a: Notes, cont: seq<Item>, i: nat, key: Key)
    requires Branch(n) && Reads(n, a, cont) && Sorted(cont) && i <= |n.items|
    requires forall k :: 0 <= k < |n.children| ==> n.children[k] < |a|
    requires SearchedAt(n.items, key, i, false)
    ensures Below(LeftOf(n, a, i), key) && Above(key, RightOf(n, a, i))
  {
    NodeCut(n, a, cont, i);
    SortedParts(LeftOf(n, a, i), a[n.children[i]].cont, RightOf(n, a, i));
    if i > 0 {
      GapLeft(n, a, i, key);
    }
    if i < |n.items| {
      GapRight(n, a, i, key);
    }
  }

  lemma GapLeft(n: Node, a: Notes, i: nat, key: Key)
    requires Branch(n) && 0 < i <= |n.items| && n.children[i - 1] < |a|
    requires Sorted(LeftOf(n, a, i)) && Less(n.items[i - 1].key, key)
    ensures Below(LeftOf(n, a, i), key)
  {
    LeftStep(n, a, i - 1);
    LastIsGreatest(LeftOf(n, a, i - 1) + a[n.children[i - 1]].cont, n.items[i - 1], key);
  }

  lemma GapRight(n: Node, a: Notes, i: nat, key: Key)
    requires Branch(n) && i < |n.items| && n.children[i + 1] < |a|
    requires Sorted(RightOf(n, a, i)) && Less(key, n.items[i].key)
    ensures Above(key, RightOf(n, a, i))
  {
    var tail := a[n.children[i + 1]].cont + RightOf(n, a, i + 1);
    RightStep(n, a, i);
    Assoc([n.items[i]], a[n.children[i + 1]].cont, RightOf(n, a, i + 1));
    FirstIsLeast(n.items[i], tail, key);
  }

  /** A key found at item `i` lies at the cut at item `i`. */
  lemma ItemSides(l: seq<Item>, it: Item, r: seq<Item>)
    requires Sorted(l + [it] + r)
    ensures Below(l, it.key) && Above(it.key, r)
  {
    SortedParts(l, [it], r);
    assert [it][0] == it;
  }

  /** The items of a branch are sorted because its reading is. */
  lemma ItemsSorted(n: Node, a: Notes, cont: seq<Item>)
    requires Branch(n) && Reads(n, a, cont) && Sorted(cont)
    requires forall k :: 0 <= k < |n.children| ==> n.children[k] < |a|
    ensures Sorted(n.items)
  {
    forall i, j | 0 <= i < j < |n.items|
      ensures Less(n.items[i].key, n.items[j].key)
    {
      ItemCut(n, a, cont, i);
      var l, r := LeftOf(n, a, i) + a[n.children[i]].cont, a[n.children[i + 1]].cont + RightOf(n, a, i + 1);
      ItemSides(l, n.items[i], r);
      PazHolds(n.items[i + 1..], Parts(a, n.children[i + 2..]), j - i - 1);
      assert n.items[j] in r;
    }
  }

  lemma {:induction false} PazHolds(items: seq<Item>, parts: seq<seq<Item>>, k: nat)
    requires |items| == |parts| && k < |items|
    ensures items[k] in Paz(items, parts)
  {
    if k > 0 { PazHolds(items[1..], parts[1..], k - 1); }
  }
}
