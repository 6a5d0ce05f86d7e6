/** The towers of a skip list: on every level the nodes that reach it form one linked lane. */
module SkipLanes {
  import opened Keys

  const MAX_LEVEL: nat := 32

  class Node {
    const key: Key
    var value: Value
    var timestamp: nat
    const forward: array<Node?>

    /** The pointers of a fresh tower are not initialised. */
    constructor (level: nat, key: Key, value: Value)
      ensures this.key == key && this.value == value && forward.Length == level + 1 && fresh(forward)
    {
      this.key, this.value, timestamp := key, value, *;
      forward := new Node?[level + 1];
    }
  }

  /** The pointers of every tower. */
  type Links = map<Node, seq<Node?>>

  /** The nodes of `s` that reach level `i`. */
  function Lane(s: seq<Node>, i: nat): seq<Node> {
    if s == [] then []
    else Lane(s[..|s| - 1], i) + if i < s[|s| - 1].forward.Length then [s[|s| - 1]] else []
  }

  lemma {:induction false} LaneJoin(a: seq<Node>, b: seq<Node>, i: nat)
    ensures Lane(a + b, i) == Lane(a, i) + Lane(b, i)
  {
    if b == [] {
      assert a + b == a;
    } else {
      assert (a + b)[..|a + b| - 1] == a + b[..|b| - 1];
      LaneJoin(a, b[..|b| - 1], i);
    }
  }

  lemma {:induction false} LaneOne(n: Node, i: nat)
    ensures Lane([n], i) == if i < n.forward.Length then [n] else []
  {
    assert [n][..0] == [];
  }

  lemma {:induction false} LaneMember(s: seq<Node>, i: nat, n: Node)
    ensures n in Lane(s, i) <==> n in s && i < n.forward.Length
  {
    if s != [] {
      LaneMember(s[..|s| - 1], i, n);
      assert s == s[..|s| - 1] + [s[|s| - 1]];
    }
  }

  /** Each lane is a subsequence of the lane below. */
  lemma {:induction false} LaneNested(s: seq<Node>, i: nat)
    ensures Lane(Lane(s, i), i + 1) == Lane(s, i + 1)
  {
    if s != [] {
      var m := |s| - 1;
      LaneNested(s[..m], i);
      LaneJoin(Lane(s[..m], i), [s[m]], i + 1);
      LaneOne(s[m], i + 1);
      assert Lane(s[..m], i) + [] == Lane(s[..m], i);
    }
  }

  ghost predicate Distinct(s: seq<Node>) {
    forall p, q :: 0 <= p < q < |s| ==> s[p] != s[q]
  }

  lemma {:induction false} LaneDistinct(s: seq<Node>, i: nat)
    requires Distinct(s)
    ensures Distinct(Lane(s, i))
  {
    if s != [] {
      var m := |s| - 1;
      LaneDistinct(s[..m], i);
      LaneMember(s[..m], i, s[m]);
    }
  }

  function NextOf(lane: seq<Node>, k: nat): Node? {
    if k + 1 < |lane| then lane[k + 1] else null
  }

  /** On level `i` every node of the lane points at the next, the last at nothing. */
  ghost predicate Wired(links: Links, lane: seq<Node>, i: nat) {
    forall k {:trigger NextOf(lane, k)} :: 0 <= k < |lane| ==>
      lane[k] in links && i < |links[lane[k]]| && links[lane[k]][i] == NextOf(lane, k)
  }

  ghost predicate AllWired(links: Links, s: seq<Node>) {
    forall i: nat {:trigger Lane(s, i)} :: i <= MAX_LEVEL ==> Wired(links, Lane(s, i), i)
  }

  /** Linking `x` in between `la` and `lb`. */
  lemma WireIn(links: Links, la: seq<Node>, lb: seq<Node>, u: Node, x: Node, i: nat, links1: Links)
    requires Wired(links, la + lb, i) && Distinct(la + lb) && x !in la + lb && x in links && i < |links[x]|
    requires la != [] && u == la[|la| - 1] && u in links && u != x && i < |links[u]|
    requires links1 == links[x := links[x][i := links[u][i]]][u := links[u][i := x]]
    ensures Wired(links1, la + [x] + lb, i)
  {
    var old_, new_ := la + lb, la + [x] + lb;
    assert NextOf(old_, |la| - 1) == if lb == [] then null else lb[0];
    forall k | 0 <= k < |new_|
      ensures new_[k] in links1 && i < |links1[new_[k]]| && links1[new_[k]][i] == NextOf(new_, k)
    {
      if k < |la| - 1 {
        assert new_[k] == old_[k] && NextOf(old_, k) == NextOf(new_, k);
        assert old_[|la| - 1] == u;
      } else if k > |la| {
        assert new_[k] == old_[k - 1] && NextOf(old_, k - 1) == NextOf(new_, k);
        assert old_[|la| - 1] == u;
      }
    }
  }

  /** Unlinking `x` from between `la` and `lb`. */
  lemma WireOut(links: Links, la: seq<Node>, lb: seq<Node>, u: Node, x: Node, i: nat, links1: Links)
    requires Wired(links, la + [x] + lb, i) && Distinct(la + [x] + lb)
    requires la != [] && u == la[|la| - 1] && u in links && i < |links[u]| && x in links && i < |links[x]|
    requires links1 == links[u := links[u][i := links[x][i]]]
    ensures Wired(links1, la + lb, i)
  {
    var old_, new_ := la + [x] + lb, la + lb;
    assert old_[|la|] == x && NextOf(old_, |la|) == if lb == [] then null else lb[0];
    assert old_[|la| - 1] == u;
    forall k | 0 <= k < |new_|
      ensures new_[k] in links1 && i < |links1[new_[k]]| && links1[new_[k]][i] == NextOf(new_, k)
    {
      if k < |la| - 1 {
        assert new_[k] == old_[k] && NextOf(old_, k) == NextOf(new_, k);
      } else if k >= |la| {
        assert new_[k] == old_[k + 1] && NextOf(old_, k + 1) == NextOf(new_, k);
      } else {
        assert new_[k] == u;
      }
    }
  }

  /** Writes on level `i` leave the other levels alone. */
  lemma WireOther(links: Links, lane: seq<Node>, j: nat, links1: Links)
    requires Wired(links, lane, j)
    requires forall n :: n in lane && n in links ==>
               n in links1 && |links1[n]| == |links[n]| && (j < |links[n]| ==> links1[n][j] == links[n][j])
    ensures Wired(links1, lane, j)
  {
    forall k | 0 <= k < |lane|
      ensures lane[k] in links1 && j < |links1[lane[k]]| && links1[lane[k]][j] == NextOf(lane, k)
    {
      var next := NextOf(lane, k);
    }
  }

  /** A header with no pointers set is the only tower of every lane. */
  lemma HeaderAlone(header: Node, links: Links)
    requires header.forward.Length == MAX_LEVEL + 1 && header in links && |links[header]| == MAX_LEVEL + 1
    requires forall i :: 0 <= i <= MAX_LEVEL ==> links[header][i] == null
    ensures forall i: nat {:trigger Lane([header], i)} :: i <= MAX_LEVEL ==> Lane([header], i) == [header]
    ensures AllWired(links, [header])
  {
    forall i: nat | i <= MAX_LEVEL
      ensures Lane([header], i) == [header] && Wired(links, Lane([header], i), i)
    {
      LaneOne(header, i);
    }
  }

  // ----- walking a lane

  lemma {:induction false} LaneHead(s: seq<Node>, i: nat) returns (j: nat)
    requires Lane(s, i) != []
    ensures j < |s| && s[j] == Lane(s, i)[0] && i < s[j].forward.Length && Lane(s[..j], i) == []
  {
    var m := |s| - 1;
    if Lane(s[..m], i) == [] {
      j := m;
    } else {
      j := LaneHead(s[..m], i);
      assert s[..m][..j] == s[..j];
    }
  }

  lemma {:induction false} LaneCut(s: seq<Node>, p: nat, i: nat)
    requires p < |s| && i < s[p].forward.Length
    ensures Lane(s, i) == Lane(s[..p + 1], i) + Lane(s[p + 1..], i)
    ensures Lane(s[..p + 1], i) != [] && Lane(s[..p + 1], i)[|Lane(s[..p + 1], i)| - 1] == s[p]
  {
    assert s == s[..p + 1] + s[p + 1..];
    LaneJoin(s[..p + 1], s[p + 1..], i);
  }

  /** The pointer of tower `p` on level `i` leads to the next tower that reaches the level. */
  lemma Pointer(links: Links, s: seq<Node>, p: nat, i: nat) returns (q: nat)
    requires AllWired(links, s) && p < |s| && i < s[p].forward.Length && i <= MAX_LEVEL
    ensures s[p] in links && i < |links[s[p]]| && p < q <= |s| && Lane(s[p + 1..q], i) == []
    ensures links[s[p]][i] == if q < |s| then s[q] else null
    ensures q < |s| ==> i < s[q].forward.Length
  {
    var la, lb := Lane(s[..p + 1], i), Lane(s[p + 1..], i);
    LaneCut(s, p, i);
    assert Wired(links, Lane(s, i), i);
    var next := NextOf(Lane(s, i), |la| - 1);
    if lb == [] {
      q := |s|;
      assert s[p + 1..q] == s[p + 1..];
    } else {
      var j := LaneHead(s[p + 1..], i);
      q := p + 1 + j;
      assert s[p + 1..][..j] == s[p + 1..q];
    }
  }

  /** A lane is empty over any stretch of an empty stretch. */
  lemma {:induction false} LanePrefix(s: seq<Node>, p: nat, q: nat, r: nat, i: nat)
    requires p <= r <= q <= |s| && Lane(s[p..q], i) == []
    ensures Lane(s[p..r], i) == []
  {
    assert s[p..q] == s[p..r] + s[r..q];
    LaneJoin(s[p..r], s[r..q], i);
  }

  /** Past an empty stretch the lane up to `r` ends with tower `p`. */
  lemma {:induction false} LaneEnds(s: seq<Node>, p: nat, r: nat, i: nat)
    requires p <= r < |s| && i < s[p].forward.Length && Lane(s[p + 1..r + 1], i) == []
    ensures Precedes(s[p], s, r, i)
  {
    LaneCut(s, p, i);
    assert s[..r + 1] == s[..p + 1] + s[p + 1..r + 1];
    LaneJoin(s[..p + 1], s[p + 1..r + 1], i);
  }

  /** The towers up to `r`, and no later ones, have keys below `key`; the header counts as below. */
  ghost predicate Parts(s: seq<Node>, key: Key, r: nat) {
    r < |s| && forall q {:trigger s[q]} :: 0 < q < |s| ==> (Less(s[q].key, key) <==> q <= r)
  }

  ghost predicate Tall(s: seq<Node>) {
    forall n :: n in s ==> 2 <= n.forward.Length <= MAX_LEVEL + 1
  }

  /** `next` is what tower `p` points at on level `i`: tower `q`, or nothing past the last. */
  ghost predicate Sees(s: seq<Node>, p: nat, i: nat, next: Node?, q: nat) {
    && p < q <= |s| && Lane(s[p + 1..q], i) == []
    && if q < |s| then next == s[q] && i < s[q].forward.Length else next == null
  }

  /** `u` is the last of the towers up to `r` that reaches level `i`. */
  ghost predicate Precedes(u: Node?, s: seq<Node>, r: nat, i: nat) {
    && r < |s| && Lane(s[..r + 1], i) != [] && u == Lane(s[..r + 1], i)[|Lane(s[..r + 1], i)| - 1]
  }

  /** The walk on a level stops at the last tower below the key. */
  lemma {:induction false} Stopped(s: seq<Node>, p: nat, q: nat, i: nat, next: Node?, key: Key, r: nat)
    requires Parts(s, key, r) && p <= r && Sees(s, p, i, next, q) && (next != null ==> !Less(next.key, key))
    ensures Lane(s[p + 1..r + 1], i) == []
  {
    LanePrefix(s, p + 1, q, r + 1, i);
  }

  /** On level 0 it stops right before the key. */
  lemma StoppedAtKey(s: seq<Node>, p: nat, next: Node?, q: nat, r: nat)
    requires Tall(s) && p <= r < |s| && Lane(s[p + 1..r + 1], 0) == [] && Sees(s, p, 0, next, q)
    ensures p == r && next == if r + 1 < |s| then s[r + 1] else null
  {
    GroundLane(s[p + 1..r + 1]);
    GroundLane(s[p + 1..q]);
  }

  lemma {:induction false} PrecedesIn(u: Node?, a: seq<Node>, b: seq<Node>, i: nat)
    requires a != [] && Precedes(u, a + b, |a| - 1, i)
    ensures u != null && u in a && i < u.forward.Length && Lane(a, i) != [] && u == Lane(a, i)[|Lane(a, i)| - 1]
  {
    assert (a + b)[..|a|] == a;
    LaneMember(a, i, Lane(a, i)[|Lane(a, i)| - 1]);
  }

  /** On level 0 each tower points at the next one. */
  lemma GroundNext(s: seq<Node>, p: nat, next: Node?, q: nat)
    requires Tall(s) && p < |s| && Sees(s, p, 0, next, q)
    ensures next == if p + 1 < |s| then s[p + 1] else null
  {
    GroundLane(s[p + 1..q]);
  }

  /** Every tower reaches level 0. */
  lemma {:induction false} GroundLane(s: seq<Node>)
    requires forall n :: n in s ==> n.forward.Length > 0
    ensures Lane(s, 0) == s
  {
    if s != [] {
      GroundLane(s[..|s| - 1]);
      assert s == s[..|s| - 1] + [s[|s| - 1]];
    }
  }

  // ----- a tower comes or goes, level by level

  /** Below level `i` the lanes are those of `s1`, from there on those of `s`. */
  ghost predicate HalfWired(links: Links, s: seq<Node>, s1: seq<Node>, i: nat) {
    && (forall j: nat {:trigger Lane(s1, j)} :: j < i && j <= MAX_LEVEL ==> Wired(links, Lane(s1, j), j))
    && (forall j: nat {:trigger Lane(s, j)} :: i <= j <= MAX_LEVEL ==> Wired(links, Lane(s, j), j))
  }

  lemma {:induction false} LaneAround(a: seq<Node>, x: Node, b: seq<Node>, i: nat)
    ensures Lane(a + b, i) == Lane(a, i) + Lane(b, i)
    ensures Lane(a + [x] + b, i) == if i < x.forward.Length then Lane(a, i) + [x] + Lane(b, i) else Lane(a + b, i)
  {
    LaneJoin(a, b, i);
    LaneJoin(a + [x], b, i);
    LaneJoin(a, [x], i);
    LaneOne(x, i);
    assert Lane(a, i) + [] == Lane(a, i);
  }

  lemma HalfStart(a: seq<Node>, x: Node, b: seq<Node>, links: Links, links1: Links, p: seq<Node?>)
    requires AllWired(links, a + b) && x !in links && links1 == links[x := p]
    ensures HalfWired(links1, a + b, a + [x] + b, 0)
  {
    forall j: nat | j <= MAX_LEVEL
      ensures Wired(links1, Lane(a + b, j), j)
    {
      WireOther(links, Lane(a + b, j), j, links1);
    }
  }

  lemma {:induction false} LinkLane(links: Links, links1: Links, a: seq<Node>, b: seq<Node>, x: Node, u: Node, i: nat)
    requires Wired(links, Lane(a + b, i), i) && Distinct(a + b) && x !in a + b && x in links
    requires i < |links[x]| && i < x.forward.Length && u in links && i < |links[u]| && u != x
    requires Lane(a, i) != [] && u == Lane(a, i)[|Lane(a, i)| - 1]
    requires links1 == links[x := links[x][i := links[u][i]]][u := links[u][i := x]]
    ensures Wired(links1, Lane(a + [x] + b, i), i)
  {
    LaneAround(a, x, b, i);
    LaneDistinct(a + b, i);
    LaneMember(a + b, i, x);
    WireIn(links, Lane(a, i), Lane(b, i), u, x, i, links1);
  }

  /** Linking `x` in on level `i`. */
  lemma {:induction false} LinkStep(links: Links, links1: Links, a: seq<Node>, b: seq<Node>, x: Node, u: Node, i: nat)
    requires HalfWired(links, a + b, a + [x] + b, i) && i <= MAX_LEVEL && Distinct(a + b) && x !in a + b && x in links
    requires i < |links[x]| && i < x.forward.Length && u in links && i < |links[u]| && u != x
    requires Lane(a, i) != [] && u == Lane(a, i)[|Lane(a, i)| - 1]
    requires links1 == links[x := links[x][i := links[u][i]]][u := links[u][i := x]]
    ensures HalfWired(links1, a + b, a + [x] + b, i + 1)
  {
    var s, s1 := a + b, a + [x] + b;
    LinkLane(links, links1, a, b, x, u, i);
    forall j: nat | j < i
      ensures Wired(links1, Lane(s1, j), j)
    {
      WireOther(links, Lane(s1, j), j, links1);
    }
    forall j: nat | i < j <= MAX_LEVEL
      ensures Wired(links1, Lane(s, j), j)
    {
      WireOther(links, Lane(s, j), j, links1);
    }
  }

  /** Above the top of `x` nothing has to change. */
  lemma LinkedUp(links: Links, a: seq<Node>, b: seq<Node>, x: Node)
    requires HalfWired(links, a + b, a + [x] + b, x.forward.Length)
    ensures AllWired(links, a + [x] + b)
  {
    forall j: nat | j <= MAX_LEVEL
      ensures Wired(links, Lane(a + [x] + b, j), j)
    {
      LaneAround(a, x, b, j);
    }
  }

  lemma {:induction false} UnlinkLane(links: Links, links1: Links, a: seq<Node>, b: seq<Node>, x: Node, u: Node, i: nat)
    requires Wired(links, Lane(a + [x] + b, i), i) && Distinct(a + [x] + b) && x in links
    requires i < |links[x]| && i < x.forward.Length && u in links && i < |links[u]|
    requires Lane(a, i) != [] && u == Lane(a, i)[|Lane(a, i)| - 1]
    requires links1 == links[u := links[u][i := links[x][i]]]
    ensures Wired(links1, Lane(a + b, i), i)
  {
    LaneAround(a, x, b, i);
    LaneDistinct(a + [x] + b, i);
    WireOut(links, Lane(a, i), Lane(b, i), u, x, i, links1);
  }

  /** Unlinking `x` on level `i`. */
  lemma {:induction false} UnlinkStep(links: Links, links1: Links, a: seq<Node>, b: seq<Node>, x: Node, u: Node, i: nat)
    requires HalfWired(links, a + [x] + b, a + b, i) && i <= MAX_LEVEL && Distinct(a + [x] + b) && x in links
    requires i < |links[x]| && i < x.forward.Length && u in links && i < |links[u]|
    requires Lane(a, i) != [] && u == Lane(a, i)[|Lane(a, i)| - 1]
    requires links1 == links[u := links[u][i := links[x][i]]]
    ensures HalfWired(links1, a + [x] + b, a + b, i + 1)
  {
    var s, s1 := a + [x] + b, a + b;
    UnlinkLane(links, links1, a, b, x, u, i);
    forall j: nat | j < i
      ensures Wired(links1, Lane(s1, j), j)
    {
      WireOther(links, Lane(s1, j), j, links1);
    }
    forall j: nat | i < j <= MAX_LEVEL
      ensures Wired(links1, Lane(s, j), j)
    {
      WireOther(links, Lane(s, j), j, links1);
    }
  }

  lemma NowAround(a: seq<Node>, x: Node, b: seq<Node>)
    requires Distinct(a + b) && x !in a + b
    ensures Distinct(a + [x] + b) && (set n | n in a + [x] + b) == (set n | n in a + b) + {x}
  {
    var s := a + [x] + b;
    forall p, q | 0 <= p < q < |s|
      ensures s[p] != s[q]
    {
      if p != |a| { assert s[p] == (a + b)[if p < |a| then p else p - 1]; }
      if q != |a| { assert s[q] == (a + b)[if q < |a| then q else q - 1]; }
    }
  }

  lemma NotAround(a: seq<Node>, x: Node, b: seq<Node>)
    requires Distinct(a + [x] + b)
    ensures x !in a + b && Distinct(a + b)
  {
    var s := a + [x] + b;
    assert s[|a|] == x;
    forall k | 0 <= k < |a + b|
      ensures (a + b)[k] != x
    {
      assert (a + b)[k] == s[if k < |a| then k else k + 1];
    }
    forall p, q | 0 <= p < q < |a + b|
      ensures (a + b)[p] != (a + b)[q]
    {
      assert (a + b)[p] == s[if p < |a| then p else p + 1] && (a + b)[q] == s[if q < |a| then q else q + 1];
    }
  }

  lemma UnlinkedUp(links: Links, a: seq<Node>, b: seq<Node>, x: Node)
    requires HalfWired(links, a + [x] + b, a + b, x.forward.Length) && Distinct(a + [x] + b)
    ensures AllWired(links - {x}, a + b)
  {
    var s := a + [x] + b;
    forall j: nat | j <= MAX_LEVEL
      ensures Wired(links - {x}, Lane(a + b, j), j)
    {
      LaneAround(a, x, b, j);
      LaneMember(a + b, j, x);
      NotAround(a, x, b);
      WireOther(links, Lane(a + b, j), j, links - {x});
    }
  }

  /** What the predecessor on level `i` points at: `x` exactly on the levels `x` reaches. */
  lemma {:induction false} PointsAt(links: Links, a: seq<Node>, b: seq<Node>, x: Node, u: Node, i: nat)
    requires Wired(links, Lane(a + [x] + b, i), i) && Distinct(a + [x] + b)
    requires Lane(a, i) != [] && u == Lane(a, i)[|Lane(a, i)| - 1]
    ensures u in links && i < |links[u]| && (links[u][i] == x <==> i < x.forward.Length)
  {
    var s := a + [x] + b;
    LaneAround(a, x, b, i);
    var next := NextOf(Lane(s, i), |Lane(a, i)| - 1);
    LaneMember(s, i, x);
  }

  /** A lane that holds only the header holds only the header up to any tower. */
  lemma {:induction false} HeaderLane(s: seq<Node>, header: Node, r: nat, i: nat)
    requires r < |s| && s[0] == header && i < header.forward.Length && Lane(s, i) == [header]
    ensures Lane(s[..r + 1], i) == [header]
  {
    LaneMember(s[..r + 1], i, header);
    assert s[..r + 1][0] == header;
    assert s == s[..r + 1] + s[r + 1..];
    LaneJoin(s[..r + 1], s[r + 1..], i);
  }
}
