/** The read-only operations: lookup, first and last item, ascending and descending scans. */
module TreeReads {
  import opened Keys
  import opened SortedItems
  import opened Weave
  import opened NodeHeap
  import opened NodeReading
  import opened NodeWrites
  import opened NodeSets
  import opened NodeDeletes
  import opened NodeSearch
  import opened Trees

  /** Node `x` of a sound heap. */
  ghost predicate Readable(h: Heap, a: Notes, mx: nat, x: Id) {
    match At(h, x)
    case Free => false
    case Node(_, _, items, _) => AllCoherent(h, a, mx) && 0 < |items| && Capacity(mx)
  }

  lemma ReadableFacts(h: Heap, a: Notes, mx: nat, x: Id)
    requires Readable(h, a, mx, x)
    ensures |h| == |a| && x < |h| && Coherent(h, a, mx, x, -1) && Sorted(h[x].items) && Sorted(a[x].cont)
    ensures Reads(h[x], a, a[x].cont) && a[x].level >= 1
    ensures h[x].leaf ==> a[x].cont == h[x].items
    ensures !h[x].leaf ==> Branch(h[x])
    ensures forall k :: 0 <= k < |h[x].children| ==>
              Readable(h, a, mx, h[x].children[k]) && h[x].children[k] < |a| && a[h[x].children[k]].level < a[x].level
  {
    assert Coherent(h, a, mx, x, -1);
    NodeItemsSorted(h, a, mx, x);
    forall k | 0 <= k < |h[x].children|
      ensures Readable(h, a, mx, h[x].children[k]) && h[x].children[k] < |a| && a[h[x].children[k]].level < a[x].level
    {
      assert KidOk(h, a, mx, h[x].children[k], a[x].level, -1);
    }
  }

  lemma RootReadable(ts: seq<Tree>, h: Heap, a: Notes, mx: nat, t: nat)
    requires FamilyOk(ts, h, a, mx) && t < |ts| && ts[t].Tree? && ts[t].root.Some?
    ensures var r := ts[t].root.value; r < |a| && Readable(h, a, mx, r) && View(ts[t], h) == a[r].cont
    ensures a[ts[t].root.value].level == ts[t].height && View(ts[t], h) != []
  {
    assert TreeOk(ts[t], h, a);
    ContNonEmpty(h, a, mx, ts[t].root.value);
    ViewIsNoted(ts, h, a, mx, t);
  }

  // ----- lookup

  lemma LookupHere(h: Heap, a: Notes, mx: nat, x: Id, key: Key, i: nat, found: bool)
    requires Readable(h, a, mx, x) && x < |a| && SearchedAt(h[x].items, key, i, found)
    ensures found ==> Lookup(a[x].cont, key) == Some(h[x].items[i])
    ensures !found && h[x].leaf ==> Lookup(a[x].cont, key) == None
    ensures !found && !h[x].leaf ==> i < |h[x].children| && h[x].children[i] < |a|
                                     && Lookup(a[x].cont, key) == Lookup(a[h[x].children[i]].cont, key)
  {
    ReadableFacts(h, a, mx, x);
    if h[x].leaf {
      SearchIsRank(h[x].items, key, i, found);
    } else if found {
      ItemCut(h[x], a, a[x].cont, i);
      FoundBetween(a[x].cont, LeftOf(h[x], a, i) + a[h[x].children[i]].cont, h[x].items[i],
                   a[h[x].children[i + 1]].cont + RightOf(h[x], a, i + 1));
    } else {
      GapSides(h[x], a, a[x].cont, i, key);
      NodeCut(h[x], a, a[x].cont, i);
      RankMiddle(LeftOf(h[x], a, i), a[h[x].children[i]].cont, RightOf(h[x], a, i), key);
    }
  }

  method Get(h: Heap, ghost a: Notes, ghost mx: nat, root: Id, key: Key, hint: array?<Octet>) returns (r: Option<Item>)
    requires Readable(h, a, mx, root) && root < |a| && (hint != null ==> hint.Length == 8)
    modifies hint
    ensures r == Lookup(a[root].cont, key)
  {
    var node: Id, depth: nat := root, 0;
    while true
      invariant Readable(h, a, mx, node) && node < |a| && Lookup(a[node].cont, key) == Lookup(a[root].cont, key)
      decreases a[node].level
    {
      ReadableFacts(h, a, mx, node);
      var i, found := Search(h[node].items, key, hint, depth);
      LookupHere(h, a, mx, node, key, i, found);
      if found {
        return Some(h[node].items[i]);
      }
      if h[node].leaf {
        return None;
      }
      node, depth := h[node].children[i], depth + 1;
    }
  }

  lemma FirstBelow(h: Heap, a: Notes, mx: nat, x: Id)
    requires Readable(h, a, mx, x) && x < |a|
    ensures h[x].leaf ==> a[x].cont != [] && a[x].cont[0] == h[x].items[0]
    ensures !h[x].leaf ==> h[x].children != [] && h[x].children[0] < |a| && a[h[x].children[0]].cont != []
                           && a[x].cont != [] && a[x].cont[0] == a[h[x].children[0]].cont[0]
  {
    ReadableFacts(h, a, mx, x);
    if !h[x].leaf {
      NodeCut(h[x], a, a[x].cont, 0);
      ReadableFacts(h, a, mx, h[x].children[0]);
      ContNonEmpty(h, a, mx, h[x].children[0]);
    }
  }

  lemma LastBelow(h: Heap, a: Notes, mx: nat, x: Id)
    requires Readable(h, a, mx, x) && x < |a|
    ensures a[x].cont != []
    ensures h[x].leaf ==> a[x].cont[|a[x].cont| - 1] == h[x].items[|h[x].items| - 1]
    ensures !h[x].leaf ==>
              var c := ChildAt(h[x], |h[x].items|);
              |h[x].children| == |h[x].items| + 1 && c < |a| && a[c].cont != []
              && a[x].cont[|a[x].cont| - 1] == a[c].cont[|a[c].cont| - 1]
  {
    ReadableFacts(h, a, mx, x);
    if !h[x].leaf {
      var k := |h[x].items|;
      NodeCut(h[x], a, a[x].cont, k);
      assert RightOf(h[x], a, k) == [];
      ReadableFacts(h, a, mx, h[x].children[k]);
      ContNonEmpty(h, a, mx, h[x].children[k]);
    }
  }

  method Min(h: Heap, ghost a: Notes, ghost mx: nat, root: Id) returns (r: Item)
    requires Readable(h, a, mx, root) && root < |a|
    ensures a[root].cont != [] && r == a[root].cont[0]
  {
    var node: Id := root;
    FirstBelow(h, a, mx, node);
    while !h[node].leaf
      invariant Readable(h, a, mx, node) && node < |a| && a[node].cont != [] && a[root].cont != []
      invariant a[node].cont[0] == a[root].cont[0]
      decreases a[node].level
    {
      ReadableFacts(h, a, mx, node);
      FirstBelow(h, a, mx, node);
      node := h[node].children[0];
    }
    FirstBelow(h, a, mx, node);
    r := h[node].items[0];
  }

  method Max(h: Heap, ghost a: Notes, ghost mx: nat, root: Id) returns (r: Item)
    requires Readable(h, a, mx, root) && root < |a|
    ensures a[root].cont != [] && r == a[root].cont[|a[root].cont| - 1]
  {
    var node: Id := root;
    LastBelow(h, a, mx, node);
    while !h[node].leaf
      invariant Readable(h, a, mx, node) && node < |a| && a[node].cont != [] && a[root].cont != []
      invariant a[node].cont[|a[node].cont| - 1] == a[root].cont[|a[root].cont| - 1]
      decreases a[node].level
    {
      ReadableFacts(h, a, mx, node);
      LastBelow(h, a, mx, node);
      node := h[node].children[|h[node].items|];
    }
    LastBelow(h, a, mx, node);
    r := h[node].items[|h[node].items| - 1];
  }

  // ----- scans

  /** A callback may base its verdict on everything it has been shown, the current item last. */
  type Callback = seq<Item> -> bool

  /** What a callback gets to see of `s` after having seen `seen`, and whether it wants more. */
  function Visit(s: seq<Item>, keep: Callback, seen: seq<Item>): (bool, seq<Item>) {
    if s == [] then (true, seen)
    else if !keep(seen + [s[0]]) then (false, seen + [s[0]])
    else Visit(s[1..], keep, seen + [s[0]])
  }

  lemma {:induction false} VisitJoin(s: seq<Item>, r: seq<Item>, keep: Callback, seen: seq<Item>)
    ensures Visit(s + r, keep, seen)
         == if Visit(s, keep, seen).0 then Visit(r, keep, Visit(s, keep, seen).1) else Visit(s, keep, seen)
  {
    if s == [] {
      assert s + r == r;
    } else {
      VisitJoin(s[1..], r, keep, seen + [s[0]]);
      assert (s + r)[1..] == s[1..] + r;
    }
  }

  /** The callback sees a prefix of the items: all of them unless it stops, and then up to and
      including the first one it refuses. */
  lemma {:induction false} VisitPrefix(s: seq<Item>, keep: Callback, seen: seq<Item>) returns (k: nat)
    ensures k <= |s| && Visit(s, keep, seen).1 == seen + s[..k]
    ensures Visit(s, keep, seen).0 ==> k == |s|
    ensures !Visit(s, keep, seen).0 ==> 0 < k && !keep(seen + s[..k])
    ensures forall j :: 0 < j <= k && (j < k || Visit(s, keep, seen).0) ==> keep(seen + s[..j])
  {
    if s == [] {
      k := 0;
    } else if !keep(seen + [s[0]]) {
      k := 1;
      assert s[..1] == [s[0]];
    } else {
      var k1 := VisitPrefix(s[1..], keep, seen + [s[0]]);
      k := k1 + 1;
      forall j | 0 < j <= |s|
        ensures seen + s[..j] == seen + [s[0]] + s[1..][..j - 1]
      {
        assert s[..j] == [s[0]] + s[1..][..j - 1];
      }
      forall j | 0 < j <= k && (j < k || Visit(s, keep, seen).0)
        ensures keep(seen + s[..j])
      {
        if j == 1 { assert s[..1] == [s[0]]; }
      }
    }
  }

  /** Showing the item at the head of what is left. */
  lemma {:induction false} VisitHead(it: Item, s: seq<Item>, keep: Callback, seen: seq<Item>)
    ensures Visit([it] + s, keep, seen)
         == if keep(seen + [it]) then Visit(s, keep, seen + [it]) else (false, seen + [it])
  {
    assert ([it] + s)[1..] == s;
  }

  lemma {:induction false} VisitNext(n: Node, a: Notes, i: nat, keep: Callback, seen: seq<Item>)
    requires Branch(n) && i < |n.items| && n.children[i + 1] < |a|
    ensures Visit(RightOf(n, a, i), keep, seen)
         == if keep(seen + [n.items[i]])
            then Visit(a[n.children[i + 1]].cont + RightOf(n, a, i + 1), keep, seen + [n.items[i]])
            else (false, seen + [n.items[i]])
  {
    RightStep(n, a, i);
    Assoc([n.items[i]], a[n.children[i + 1]].cont, RightOf(n, a, i + 1));
    VisitHead(n.items[i], a[n.children[i + 1]].cont + RightOf(n, a, i + 1), keep, seen);
  }

  /** Scans everything below `x` in ascending order. */
  method NodeScan(h: Heap, ghost a: Notes, ghost mx: nat, x: Id, keep: Callback, seen: seq<Item>)
    returns (go: bool, seen1: seq<Item>)
    requires Readable(h, a, mx, x) && x < |a|
    ensures (go, seen1) == Visit(a[x].cont, keep, seen)
    decreases a[x].level
  {
    ReadableFacts(h, a, mx, x);
    go, seen1 := true, seen;
    var n := h[x];
    if n.leaf {
      assert n.items[0..] == n.items;
      for i := 0 to |n.items|
        invariant go && Visit(n.items, keep, seen) == Visit(n.items[i..], keep, seen1)
      {
        seen1 := seen1 + [n.items[i]];
        go := keep(seen1);
        if !go {
          return;
        }
      }
      return;
    }
    NodeCut(n, a, a[x].cont, 0);
    EmptyLeft(a[n.children[0]].cont + RightOf(n, a, 0));
    Assoc([], a[n.children[0]].cont, RightOf(n, a, 0));
    for i := 0 to |n.items|
      invariant go && Visit(a[x].cont, keep, seen) == Visit(a[n.children[i]].cont + RightOf(n, a, i), keep, seen1)
    {
      VisitJoin(a[n.children[i]].cont, RightOf(n, a, i), keep, seen1);
      go, seen1 := NodeScan(h, a, mx, n.children[i], keep, seen1);
      if !go {
        return;
      }
      VisitNext(n, a, i, keep, seen1);
      seen1 := seen1 + [n.items[i]];
      go := keep(seen1);
      if !go {
        return;
      }
    }
    VisitJoin(a[n.children[|n.items|]].cont, RightOf(n, a, |n.items|), keep, seen1);
    go, seen1 := NodeScan(h, a, mx, n.children[|n.items|], keep, seen1);
  }

  /** The items at or above `pivot`. */
  function From(s: seq<Item>, pivot: Key): seq<Item> { s[Rank(s, pivot)..] }

  /** A tail of the items: exactly those that are not below the pivot. */
  lemma FromMeans(s: seq<Item>, pivot: Key, i: nat)
    requires Sorted(s) && i < |s|
    ensures |From(s, pivot)| <= |s| && From(s, pivot) == s[|s| - |From(s, pivot)|..]
    ensures i >= |s| - |From(s, pivot)| <==> Strcmp(s[i].key, pivot) >= 0
  {
    hide Rank;
    TotalOrder();
    var r := Rank(s, pivot);
    assert r < i ==> Less(s[r].key, s[i].key);
  }

  lemma FromMiddle(l: seq<Item>, m: seq<Item>, r: seq<Item>, pivot: Key)
    requires Below(l, pivot) && Above(pivot, r)
    ensures From(l + m + r, pivot) == From(m, pivot) + r
  {
    RankMiddle(l, m, r, pivot);
  }

  lemma FromItem(cont: seq<Item>, l: seq<Item>, it: Item, r: seq<Item>)
    requires cont == l + [it] + r && Sorted(cont)
    ensures From(cont, it.key) == [it] + r
  {
    FoundBetween(cont, l, it, r);
  }

  /** Where an ascending scan of branch `x` starts. */
  lemma AscendStart(h: Heap, a: Notes, mx: nat, x: Id, pivot: Key, i: nat, found: bool)
    requires Readable(h, a, mx, x) && x < |a| && !h[x].leaf && SearchedAt(h[x].items, pivot, i, found)
    ensures Branch(h[x]) && i <= |h[x].items| && h[x].children[i] < |a|
    ensures From(a[x].cont, pivot)
         == (if found then [] else From(a[h[x].children[i]].cont, pivot)) + RightOf(h[x], a, i)
  {
    ReadableFacts(h, a, mx, x);
    var n := h[x];
    if found {
      ItemCut(n, a, a[x].cont, i);
      RightStep(n, a, i);
      Assoc([n.items[i]], a[n.children[i + 1]].cont, RightOf(n, a, i + 1));
      FromItem(a[x].cont, LeftOf(n, a, i) + a[n.children[i]].cont, n.items[i],
               a[n.children[i + 1]].cont + RightOf(n, a, i + 1));
      EmptyLeft(RightOf(n, a, i));
    } else {
      GapSides(n, a, a[x].cont, i, pivot);
      NodeCut(n, a, a[x].cont, i);
      FromMiddle(LeftOf(n, a, i), a[n.children[i]].cont, RightOf(n, a, i), pivot);
    }
  }

  /** Scans the items below `x` that are at or above `pivot`, in ascending order. */
  method NodeAscend(h: Heap, ghost a: Notes, ghost mx: nat, x: Id, pivot: Key, keep: Callback, seen: seq<Item>,
                    hint: array?<Octet>, depth: nat) returns (go: bool, seen1: seq<Item>)
    requires Readable(h, a, mx, x) && x < |a| && (hint != null ==> hint.Length == 8)
    modifies hint
    ensures (go, seen1) == Visit(From(a[x].cont, pivot), keep, seen)
    decreases a[x].level
  {
    ReadableFacts(h, a, mx, x);
    go, seen1 := true, seen;
    var n := h[x];
    var i, found := Search(n.items, pivot, hint, depth);
    if n.leaf {
      SearchIsRank(n.items, pivot, i, found);
      go, seen1 := LeafTail(n.items, i, keep, seen1);
      return;
    }
    AscendStart(h, a, mx, x, pivot, i, found);
    if !found {
      VisitJoin(From(a[n.children[i]].cont, pivot), RightOf(n, a, i), keep, seen1);
      go, seen1 := NodeAscend(h, a, mx, n.children[i], pivot, keep, seen1, hint, depth + 1);
      if !go {
        return;
      }
    } else {
      EmptyLeft(RightOf(n, a, i));
    }
    go, seen1 := BranchTail(h, a, mx, x, i, keep, seen1);
  }

  method LeafTail(items: seq<Item>, start: nat, keep: Callback, seen: seq<Item>) returns (go: bool, seen1: seq<Item>)
    requires start <= |items|
    ensures (go, seen1) == Visit(items[start..], keep, seen)
  {
    go, seen1 := true, seen;
    for i := start to |items|
      invariant go && Visit(items[start..], keep, seen) == Visit(items[i..], keep, seen1)
    {
      seen1 := seen1 + [items[i]];
      go := keep(seen1);
      if !go {
        return;
      }
    }
  }

  method BranchTail(h: Heap, ghost a: Notes, ghost mx: nat, x: Id, start: nat, keep: Callback, seen: seq<Item>)
    returns (go: bool, seen1: seq<Item>)
    requires Readable(h, a, mx, x) && x < |a| && Branch(h[x]) && start <= |h[x].items|
    ensures (go, seen1) == Visit(RightOf(h[x], a, start), keep, seen)
  {
    go, seen1 := true, seen;
    for i := start to |h[x].items|
      invariant go && Visit(RightOf(h[x], a, start), keep, seen) == Visit(RightOf(h[x], a, i), keep, seen1)
    {
      go, seen1 := ItemThenChild(h, a, mx, x, i, keep, seen1);
      if !go {
        return;
      }
    }
  }

  /** Item `i` of a branch, then everything below the child after it. */
  method ItemThenChild(h: Heap, ghost a: Notes, ghost mx: nat, x: Id, i: nat, keep: Callback, seen: seq<Item>)
    returns (go: bool, seen1: seq<Item>)
    requires Readable(h, a, mx, x) && x < |a| && Branch(h[x]) && i < |h[x].items|
    ensures Visit(RightOf(h[x], a, i), keep, seen)
         == if go then Visit(RightOf(h[x], a, i + 1), keep, seen1) else (false, seen1)
    decreases a[x].level, 0
  {
    ReadableFacts(h, a, mx, x);
    var c := h[x].children[i + 1];
    VisitNext(h[x], a, i, keep, seen);
    seen1 := seen + [h[x].items[i]];
    go := keep(seen1);
    if !go {
      return;
    }
    VisitJoin(a[c].cont, RightOf(h[x], a, i + 1), keep, seen1);
    go, seen1 := NodeScan(h, a, mx, c, keep, seen1);
  }

  // ----- descending

  function Reversed(s: seq<Item>): seq<Item> {
    if s == [] then [] else [s[|s| - 1]] + Reversed(s[..|s| - 1])
  }

  lemma {:induction false} ReversedAt(s: seq<Item>, k: nat)
    ensures |Reversed(s)| == |s| && (k < |s| ==> Reversed(s)[k] == s[|s| - 1 - k])
  {
    if s != [] {
      ReversedAt(s[..|s| - 1], if k > 0 then k - 1 else 0);
    }
  }

  lemma {:induction false} ReversedJoin(s: seq<Item>, r: seq<Item>)
    ensures Reversed(s + r) == Reversed(r) + Reversed(s)
  {
    if r == [] {
      assert s + r == s;
    } else {
      ReversedJoin(s, r[..|r| - 1]);
      assert (s + r)[..|s + r| - 1] == s + r[..|r| - 1];
    }
  }

  lemma {:induction false} ReversedSnoc(s: seq<Item>, it: Item)
    ensures Reversed(s + [it]) == [it] + Reversed(s)
  {
    assert (s + [it])[..|s|] == s;
  }

  lemma {:induction false} VisitBack(n: Node, a: Notes, i: nat, keep: Callback, seen: seq<Item>)
    requires Branch(n) && i < |n.items| && n.children[i] < |a|
    ensures Visit(Reversed(LeftOf(n, a, i + 1)), keep, seen)
         == if keep(seen + [n.items[i]])
            then Visit(Reversed(a[n.children[i]].cont) + Reversed(LeftOf(n, a, i)), keep, seen + [n.items[i]])
            else (false, seen + [n.items[i]])
  {
    LeftStep(n, a, i);
    ReversedSnoc(LeftOf(n, a, i) + a[n.children[i]].cont, n.items[i]);
    ReversedJoin(LeftOf(n, a, i), a[n.children[i]].cont);
    VisitHead(n.items[i], Reversed(a[n.children[i]].cont) + Reversed(LeftOf(n, a, i)), keep, seen);
  }

  /** Scans everything below `x` in descending order. */
  method NodeReverse(h: Heap, ghost a: Notes, ghost mx: nat, x: Id, keep: Callback, seen: seq<Item>)
    returns (go: bool, seen1: seq<Item>)
    requires Readable(h, a, mx, x) && x < |a|
    ensures (go, seen1) == Visit(Reversed(a[x].cont), keep, seen)
    decreases a[x].level, 0
  {
    ReadableFacts(h, a, mx, x);
    var n := h[x];
    if n.leaf {
      assert n.items == n.items[..|n.items|];
      go, seen1 := LeafHead(n.items, |n.items| - 1, keep, seen);
      return;
    }
    var last := |n.items|;
    ReversedCut(n, a, a[x].cont, last);
    VisitJoin(Reversed(a[n.children[last]].cont), Reversed(LeftOf(n, a, last)), keep, seen);
    go, seen1 := NodeReverse(h, a, mx, n.children[last], keep, seen);
    if !go {
      return;
    }
    go, seen1 := BranchHead(h, a, mx, x, last - 1, keep, seen1);
  }

  lemma {:induction false} ReversedCut(n: Node, a: Notes, cont: seq<Item>, last: nat)
    requires Branch(n) && Reads(n, a, cont) && last == |n.items| && n.children[last] < |a|
    ensures Reversed(cont) == Reversed(a[n.children[last]].cont) + Reversed(LeftOf(n, a, last))
  {
    NodeCut(n, a, cont, last);
    var l, m := LeftOf(n, a, last), a[n.children[last]].cont;
    assert RightOf(n, a, last) == [] && l + m + [] == l + m;
    ReversedJoin(l, m);
  }

  /** Items `start`, `start - 1`, down to 0 of a leaf. */
  method LeafHead(items: seq<Item>, start: nat, keep: Callback, seen: seq<Item>) returns (go: bool, seen1: seq<Item>)
    requires start < |items|
    ensures (go, seen1) == Visit(Reversed(items[..start + 1]), keep, seen)
  {
    go, seen1 := true, seen;
    var i := start;
    while true
      invariant 0 <= i <= start
      invariant go && Visit(Reversed(items[..start + 1]), keep, seen) == Visit(Reversed(items[..i + 1]), keep, seen1)
      decreases i
    {
      assert items[..i + 1] == items[..i] + [items[i]];
      ReversedSnoc(items[..i], items[i]);
      VisitHead(items[i], Reversed(items[..i]), keep, seen1);
      seen1 := seen1 + [items[i]];
      go := keep(seen1);
      if !go || i == 0 {
        return;
      }
      i := i - 1;
    }
  }

  /** Item and child `start`, then `start - 1`, down to 0 of a branch. */
  method BranchHead(h: Heap, ghost a: Notes, ghost mx: nat, x: Id, start: nat, keep: Callback, seen: seq<Item>)
    returns (go: bool, seen1: seq<Item>)
    requires Readable(h, a, mx, x) && x < |a| && Branch(h[x]) && start < |h[x].items|
    ensures (go, seen1) == Visit(Reversed(LeftOf(h[x], a, start + 1)), keep, seen)
    decreases a[x].level, 0, 1
  {
    go, seen1 := true, seen;
    var i := start;
    while true
      invariant 0 <= i <= start
      invariant go && Visit(Reversed(LeftOf(h[x], a, start + 1)), keep, seen)
                   == Visit(Reversed(LeftOf(h[x], a, i + 1)), keep, seen1)
      decreases i
    {
      go, seen1 := ItemThenChildBack(h, a, mx, x, i, keep, seen1);
      if !go || i == 0 {
        return;
      }
      i := i - 1;
    }
  }

  /** Item `i` of a branch, then everything below the child before it. */
  method ItemThenChildBack(h: Heap, ghost a: Notes, ghost mx: nat, x: Id, i: nat, keep: Callback, seen: seq<Item>)
    returns (go: bool, seen1: seq<Item>)
    requires Readable(h, a, mx, x) && x < |a| && Branch(h[x]) && i < |h[x].items|
    ensures Visit(Reversed(LeftOf(h[x], a, i + 1)), keep, seen)
         == if go then Visit(Reversed(LeftOf(h[x], a, i)), keep, seen1) else (false, seen1)
    decreases a[x].level, 0, 0
  {
    ReadableFacts(h, a, mx, x);
    var c := h[x].children[i];
    VisitBack(h[x], a, i, keep, seen);
    seen1 := seen + [h[x].items[i]];
    go := keep(seen1);
    if !go {
      return;
    }
    VisitJoin(Reversed(a[c].cont), Reversed(LeftOf(h[x], a, i)), keep, seen1);
    go, seen1 := NodeReverse(h, a, mx, c, keep, seen1);
  }

  /** The items at or below `pivot`. */
  function UpTo(s: seq<Item>, pivot: Key): seq<Item> {
    s[..if Has(s, pivot) then Rank(s, pivot) + 1 else Rank(s, pivot)]
  }

  /** A head of the items: exactly those that are not above the pivot. */
  lemma UpToMeans(s: seq<Item>, pivot: Key, i: nat)
    requires Sorted(s) && i < |s|
    ensures |UpTo(s, pivot)| <= |s| && UpTo(s, pivot) == s[..|UpTo(s, pivot)|]
    ensures i < |UpTo(s, pivot)| <==> Strcmp(s[i].key, pivot) <= 0
  {
    TotalOrder();
    var r := Rank(s, pivot);
    assert r < i ==> Less(s[r].key, s[i].key);
    assert i < r ==> Less(s[i].key, pivot);
  }

  lemma UpToMiddle(l: seq<Item>, m: seq<Item>, r: seq<Item>, pivot: Key)
    requires Below(l, pivot) && Above(pivot, r)
    ensures UpTo(l + m + r, pivot) == l + UpTo(m, pivot)
  {
    RankMiddle(l, m, r, pivot);
  }

  lemma UpToItem(cont: seq<Item>, l: seq<Item>, it: Item, r: seq<Item>)
    requires cont == l + [it] + r && Sorted(cont)
    ensures UpTo(cont, it.key) == l + [it]
  {
    FoundBetween(cont, l, it, r);
  }

  /** Where a descending scan of branch `x` starts. */
  lemma DescendStart(h: Heap, a: Notes, mx: nat, x: Id, pivot: Key, i: nat, found: bool)
    requires Readable(h, a, mx, x) && x < |a| && !h[x].leaf && SearchedAt(h[x].items, pivot, i, found)
    ensures Branch(h[x]) && i <= |h[x].items| && h[x].children[i] < |a|
    ensures found ==> i < |h[x].items| && Reversed(UpTo(a[x].cont, pivot)) == Reversed(LeftOf(h[x], a, i + 1))
    ensures !found ==>
      Reversed(UpTo(a[x].cont, pivot)) == Reversed(UpTo(a[h[x].children[i]].cont, pivot)) + Reversed(LeftOf(h[x], a, i))
  {
    ReadableFacts(h, a, mx, x);
    var n := h[x];
    if found {
      ItemCut(n, a, a[x].cont, i);
      UpToItem(a[x].cont, LeftOf(n, a, i) + a[n.children[i]].cont, n.items[i],
               a[n.children[i + 1]].cont + RightOf(n, a, i + 1));
      LeftStep(n, a, i);
    } else {
      GapSides(n, a, a[x].cont, i, pivot);
      NodeCut(n, a, a[x].cont, i);
      UpToMiddle(LeftOf(n, a, i), a[n.children[i]].cont, RightOf(n, a, i), pivot);
      ReversedJoin(LeftOf(n, a, i), UpTo(a[n.children[i]].cont, pivot));
    }
  }

  /** Scans the items below `x` that are at or below `pivot`, in descending order. */
  method NodeDescend(h: Heap, ghost a: Notes, ghost mx: nat, x: Id, pivot: Key, keep: Callback, seen: seq<Item>,
                     hint: array?<Octet>, depth: nat) returns (go: bool, seen1: seq<Item>)
    requires Readable(h, a, mx, x) && x < |a| && (hint != null ==> hint.Length == 8)
    modifies hint
    ensures (go, seen1) == Visit(Reversed(UpTo(a[x].cont, pivot)), keep, seen)
    decreases a[x].level
  {
    hide Branch, Coherent, UpTo, Parts;
    ReadableFacts(h, a, mx, x);
    var n := h[x];
    var i, found := Search(n.items, pivot, hint, depth);
    if n.leaf {
      go, seen1 := LeafDescend(n.items, pivot, i, found, keep, seen);
      return;
    }
    go, seen1 := true, seen;
    DescendStart(h, a, mx, x, pivot, i, found);
    if !found {
      VisitJoin(Reversed(UpTo(a[n.children[i]].cont, pivot)), Reversed(LeftOf(n, a, i)), keep, seen1);
      go, seen1 := NodeDescend(h, a, mx, n.children[i], pivot, keep, seen1, hint, depth + 1);
      if !go || i == 0 {
        return;
      }
      i := i - 1;
    }
    go, seen1 := BranchHead(h, a, mx, x, i, keep, seen1);
  }

  method LeafDescend(items: seq<Item>, pivot: Key, i: nat, found: bool, keep: Callback, seen: seq<Item>)
    returns (go: bool, seen1: seq<Item>)
    requires SearchedAt(items, pivot, i, found) && Sorted(items)
    ensures (go, seen1) == Visit(Reversed(UpTo(items, pivot)), keep, seen)
  {
    SearchIsRank(items, pivot, i, found);
    go, seen1 := true, seen;
    if found || i > 0 {
      go, seen1 := LeafHead(items, if found then i else i - 1, keep, seen1);
    }
  }
}
