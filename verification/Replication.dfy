/** Last-writer-wins replication: replicas pull one another's records and keep the newer ones. */
module Replication {
  import opened Keys
  import opened Records
  import opened RecordTables

  // ----- one pull

  /** A pulled record is stored if its key is new or its timestamp is later than the local one. */
  function MergeOne(t: Table, rec: Record): Table {
    if rec.it.key in t && rec.ts <= t[rec.it.key].ts then t else t[rec.it.key := StampOf(rec)]
  }

  function Merge(t: Table, d: seq<Record>): Table {
    if d == [] then t else MergeOne(Merge(t, d[..|d| - 1]), d[|d| - 1])
  }

  /** Key by key the newer of two stamps; the local one on a tie. */
  function Join(a: Table, b: Table): Table {
    map k | k in a.Keys + b.Keys ::
      if k !in b || (k in a && b[k].ts <= a[k].ts) then a[k] else b[k]
  }

  /** Every key of either table is kept, with its newest stamp and, on a tie, the local one. */
  lemma JoinMeans(a: Table, b: Table, k: Key)
    ensures k in Join(a, b) <==> k in a || k in b
    ensures k in a && k !in b ==> Join(a, b)[k] == a[k]
    ensures k in b && k !in a ==> Join(a, b)[k] == b[k]
    ensures k in a && k in b ==>
              a[k].ts <= Join(a, b)[k].ts && b[k].ts <= Join(a, b)[k].ts && Join(a, b)[k] in {a[k], b[k]}
              && (a[k].ts == b[k].ts ==> Join(a, b)[k] == a[k])
  {
  }

  /** The order of the pulled records does not matter: only the table they stand for does. */
  lemma {:induction false} MergeIsJoin(t: Table, d: seq<Record>)
    requires UniqueKeys(d)
    ensures Merge(t, d) == Join(t, TableOf(d))
  {
    if d == [] {
      assert Join(t, map[]) == t;
    } else {
      var n, rec := |d| - 1, d[|d| - 1];
      MergeIsJoin(t, d[..n]);
      TableKey(d[..n], rec.it.key);
      JoinOne(t, TableOf(d[..n]), rec);
    }
  }

  lemma JoinOne(t: Table, b: Table, rec: Record)
    requires rec.it.key !in b
    ensures MergeOne(Join(t, b), rec) == Join(t, b[rec.it.key := StampOf(rec)])
  {
  }

  // ----- the algebra of joins

  /** Where the tables have a timestamp in common they have the value in common. */
  ghost predicate Agree(a: Table, b: Table) {
    forall k {:trigger a[k]} {:trigger b[k]} :: k in a && k in b && a[k].ts == b[k].ts ==> a[k].val == b[k].val
  }

  /** Pulling in either direction gives the same records exactly if no timestamp is shared by two values. */
  lemma JoinCommutes(a: Table, b: Table)
    ensures Join(a, b) == Join(b, a) <==> Agree(a, b)
  {
    if Join(a, b) == Join(b, a) {
      forall k | k in a && k in b && a[k].ts == b[k].ts
        ensures a[k].val == b[k].val
      {
        assert Join(a, b)[k] == a[k] && Join(b, a)[k] == b[k];
      }
    }
  }

  lemma JoinAssociates(a: Table, b: Table, c: Table)
    ensures Join(Join(a, b), c) == Join(a, Join(b, c))
  {
  }

  /** Pulling the same records again changes nothing. */
  lemma PullTwice(a: Table, b: Table)
    ensures Join(Join(a, b), b) == Join(a, b) && Join(a, a) == a
  {
  }

  // ----- runs

  /** Replica `to` pulls everything replica `from` holds. */
  datatype Pull = Pull(to: nat, from: nat)

  function Step(s: seq<Table>, p: Pull): seq<Table> {
    if p.to < |s| && p.from < |s| then s[p.to := Join(s[p.to], s[p.from])] else s
  }

  function Run(s: seq<Table>, ps: seq<Pull>): (r: seq<Table>)
    ensures |r| == |s|
  {
    if ps == [] then s else Step(Run(s, ps[..|ps| - 1]), ps[|ps| - 1])
  }

  /** Which replicas' initial records have come to replica `i`. */
  function Reached(n: nat, ps: seq<Pull>, i: nat): set<nat> {
    if ps == [] then {i}
    else
      var p, before := ps[|ps| - 1], Reached(n, ps[..|ps| - 1], i);
      if p.to == i && p.to < n && p.from < n then before + Reached(n, ps[..|ps| - 1], p.from) else before
  }

  lemma {:induction false} ReachedBound(n: nat, ps: seq<Pull>, i: nat)
    requires i < n
    ensures i in Reached(n, ps, i) && forall q :: q in Reached(n, ps, i) ==> q < n
  {
    if ps != [] {
      ReachedBound(n, ps[..|ps| - 1], i);
      if ps[|ps| - 1].from < n {
        ReachedBound(n, ps[..|ps| - 1], ps[|ps| - 1].from);
      }
    }
  }

  // ----- the newest write wins

  /** `t` holds, of every key that some replica in `reached` started with, the newest of their stamps. */
  ghost predicate Newest(t: Table, init: seq<Table>, reached: set<nat>)
    requires forall q :: q in reached ==> q < |init|
  {
    && (forall q, k :: q in reached && k in init[q] ==> k in t && init[q][k].ts <= t[k].ts)
    && (forall k :: k in t ==> exists q :: q in reached && k in init[q] && init[q][k] == t[k])
  }

  /** Replica `p` started with a stamp of key `k` that no replica of the group beats. */
  ghost predicate Top(init: seq<Table>, reached: set<nat>, p: nat, k: Key)
    requires forall q :: q in reached ==> q < |init|
  {
    p in reached && k in init[p] && forall q :: q in reached && k in init[q] ==> init[q][k].ts <= init[p][k].ts
  }

  /** Where the newest timestamp of a key is shared, so is the value. */
  ghost predicate TopsAgree(init: seq<Table>, reached: set<nat>)
    requires forall q :: q in reached ==> q < |init|
  {
    forall p: nat, q: nat, k: Key {:trigger Top(init, reached, p, k), Top(init, reached, q, k)} ::
      Top(init, reached, p, k) && Top(init, reached, q, k) ==> init[p][k] == init[q][k]
  }

  lemma NewestJoin(a: Table, b: Table, init: seq<Table>, r: set<nat>, s: set<nat>)
    requires (forall q :: q in r ==> q < |init|) && (forall q :: q in s ==> q < |init|)
    requires Newest(a, init, r) && Newest(b, init, s)
    ensures Newest(Join(a, b), init, r + s)
  {
    var j := Join(a, b);
    forall k | k in j
      ensures exists q :: q in r + s && k in init[q] && init[q][k] == j[k]
    {
      if k in a && (k !in b || b[k].ts <= a[k].ts) {
        var q :| q in r && k in init[q] && init[q][k] == a[k];
      } else {
        var q :| q in s && k in init[q] && init[q][k] == b[k];
      }
    }
    forall q, k | q in r + s && k in init[q]
      ensures k in j && init[q][k].ts <= j[k].ts
    {
      if q in r {
        assert k in a && init[q][k].ts <= a[k].ts;
      } else {
        assert k in b && init[q][k].ts <= b[k].ts;
      }
    }
  }

  /** With no local writes, every replica holds at every moment the newest-wins join of the initial
      tables that have reached it. */
  lemma {:induction false} RunIsNewest(init: seq<Table>, ps: seq<Pull>, i: nat)
    requires i < |init|
    ensures forall q :: q in Reached(|init|, ps, i) ==> q < |init|
    ensures Newest(Run(init, ps)[i], init, Reached(|init|, ps, i))
  {
    ReachedBound(|init|, ps, i);
    if ps != [] {
      var before, p := ps[..|ps| - 1], ps[|ps| - 1];
      RunIsNewest(init, before, i);
      if p.to == i && p.from < |init| {
        RunIsNewest(init, before, p.from);
        NewestJoin(Run(init, before)[i], Run(init, before)[p.from], init,
                   Reached(|init|, before, i), Reached(|init|, before, p.from));
      }
    }
  }

  lemma NewestIsTop(t: Table, init: seq<Table>, reached: set<nat>, k: Key) returns (q: nat)
    requires (forall q :: q in reached ==> q < |init|) && Newest(t, init, reached) && k in t
    ensures Top(init, reached, q, k) && init[q][k] == t[k]
  {
    q :| q in reached && k in init[q] && init[q][k] == t[k];
  }

  lemma NewestUnique(t: Table, u: Table, init: seq<Table>, reached: set<nat>)
    requires (forall q :: q in reached ==> q < |init|) && TopsAgree(init, reached)
    requires Newest(t, init, reached) && Newest(u, init, reached)
    ensures t == u
  {
    forall k | k in t || k in u
      ensures k in t && k in u && t[k] == u[k]
    {
      if k in t {
        var q := NewestIsTop(t, init, reached, k);
        assert k in u;
        var p := NewestIsTop(u, init, reached, k);
      } else {
        var p := NewestIsTop(u, init, reached, k);
      }
    }
  }

  /** Convergence: replicas that the same initial tables have reached hold the same records, however
      the pulls that spread them were ordered. */
  lemma {:induction false} Convergence(init: seq<Table>, ps: seq<Pull>, qs: seq<Pull>, i: nat, j: nat)
    requires i < |init| && j < |init| && Reached(|init|, ps, i) == Reached(|init|, qs, j)
    requires (forall q :: q in Reached(|init|, ps, i) ==> q < |init|) && TopsAgree(init, Reached(|init|, ps, i))
    ensures Run(init, ps)[i] == Run(init, qs)[j]
  {
    RunIsNewest(init, ps, i);
    RunIsNewest(init, qs, j);
    NewestUnique(Run(init, ps)[i], Run(init, qs)[j], init, Reached(|init|, ps, i));
  }

  /** A replica never gives up a stamp that nobody beats. */
  lemma {:induction false} TopStays(init: seq<Table>, ps: seq<Pull>, p: nat, k: Key)
    requires p < |init| && k in init[p] && forall q :: 0 <= q < |init| && k in init[q] ==> init[q][k].ts <= init[p][k].ts
    ensures k in Run(init, ps)[p] && Run(init, ps)[p][k] == init[p][k]
  {
    if ps != [] {
      var before, last := ps[..|ps| - 1], ps[|ps| - 1];
      TopStays(init, before, p, k);
      if last.to == p && last.from < |init| {
        RunIsNewest(init, before, last.from);
        if k in Run(init, before)[last.from] {
          var q := NewestIsTop(Run(init, before)[last.from], init, Reached(|init|, before, last.from), k);
        }
      }
    }
  }

  /** The condition is needed: replicas that tie for the newest stamp of a key with different values
      disagree for good, whatever is pulled from where. */
  lemma {:induction false} TiesNeverSettle(init: seq<Table>, ps: seq<Pull>, p: nat, q: nat, k: Key, all: set<nat>)
    requires p < |init| && q < |init| && forall r :: r in all <==> r < |init|
    requires Top(init, all, p, k) && Top(init, all, q, k) && init[p][k] != init[q][k]
    ensures Run(init, ps)[p] != Run(init, ps)[q]
  {
    TopStays(init, ps, p, k);
    TopStays(init, ps, q, k);
  }

  // ----- what a pull brings

  /** `after` is `before` except that replica `to` has got every key that replica `from` had, each with a
      stamp one of the two had, none older than either. */
  ghost predicate Brought(before: seq<Table>, after: seq<Table>, to: nat, from: nat)
    requires to < |before| && from < |before|
  {
    && |after| == |before|
    && (forall q :: 0 <= q < |before| && q != to ==> after[q] == before[q])
    && after[to].Keys == before[to].Keys + before[from].Keys
    && (forall k :: k in before[to] ==> before[to][k].ts <= after[to][k].ts)
    && (forall k :: k in before[from] ==> before[from][k].ts <= after[to][k].ts)
    && (forall k :: k in after[to] ==>
          (k in before[to] && after[to][k] == before[to][k])
          || (k in before[from] && after[to][k] == before[from][k] && (k in before[to] ==> before[to][k].ts < before[from][k].ts)))
  }

  lemma JoinBrings(before: seq<Table>, to: nat, from: nat)
    requires to < |before| && from < |before|
    ensures Brought(before, Step(before, Pull(to, from)), to, from)
  {
  }

  /** After any run, one more pull brings what the other replica has. */
  lemma {:induction false} PullBrings(init: seq<Table>, ps: seq<Pull>, to: nat, from: nat)
    requires to < |init| && from < |init|
    ensures Brought(Run(init, ps), Run(init, ps + [Pull(to, from)]), to, from)
  {
    var before := Run(init, ps);
    assert (ps + [Pull(to, from)])[..|ps|] == ps;
    JoinBrings(before, to, from);
  }

  /** Each replica pulls from the one before it. */
  function There(m: nat): seq<Pull> {
    if m == 0 then [] else There(m - 1) + [Pull(m, m - 1)]
  }

  /** Then, from the last but one backwards, `m` replicas pull from the one behind them. */
  function ThereAndBack(n: nat, m: nat): seq<Pull>
    requires m < n
  {
    if m == 0 then There(n - 1) else ThereAndBack(n, m - 1) + [Pull(n - 1 - m, n - m)]
  }

  function UpTo(i: nat): (s: set<nat>)
    ensures forall q: nat :: q in s <==> q <= i
  {
    if i == 0 then {0} else UpTo(i - 1) + {i}
  }

  lemma {:induction false} ReachedNext(n: nat, ps: seq<Pull>, p: Pull, i: nat)
    requires p.to < n && p.from < n
    ensures Reached(n, ps + [p], i) == if p.to == i then Reached(n, ps, i) + Reached(n, ps, p.from) else Reached(n, ps, i)
  {
    assert (ps + [p])[..|ps|] == ps;
  }

  lemma {:induction false} ReachedThere(n: nat, m: nat, i: nat)
    requires m < n && i < n
    ensures Reached(n, There(m), i) == if i <= m then UpTo(i) else {i}
  {
    if m == 0 {
      assert UpTo(0) == {0};
    } else {
      ReachedNext(n, There(m - 1), Pull(m, m - 1), i);
      ReachedThere(n, m - 1, i);
      if i == m {
        ReachedThere(n, m - 1, m - 1);
        assert UpTo(m) == {m} + UpTo(m - 1);
      }
    }
  }

  lemma {:induction false} ReachedBack(n: nat, m: nat, i: nat)
    requires m < n && i < n
    ensures Reached(n, ThereAndBack(n, m), i) == if i >= n - 1 - m then UpTo(n - 1) else UpTo(i)
  {
    if m == 0 {
      ReachedThere(n, n - 1, i);
    } else {
      ReachedNext(n, ThereAndBack(n, m - 1), Pull(n - 1 - m, n - m), i);
      ReachedBack(n, m - 1, i);
      if i == n - 1 - m {
        ReachedBack(n, m - 1, i + 1);
        assert UpTo(i) + UpTo(n - 1) == UpTo(n - 1);
      }
    }
  }

  /** After one chain of pulls there and back every initial table has reached every replica, so all hold
      the newest stamps of all keys. */
  lemma {:induction false} AllSettle(init: seq<Table>, i: nat, j: nat)
    requires i < |init| && j < |init| && TopsAgree(init, UpTo(|init| - 1))
    ensures var ps := ThereAndBack(|init|, |init| - 1);
            Run(init, ps)[i] == Run(init, ps)[j] && Newest(Run(init, ps)[i], init, UpTo(|init| - 1))
  {
    hide *;
    var n := |init|;
    var ps := ThereAndBack(n, n - 1);
    ReachedBack(n, n - 1, i);
    ReachedBack(n, n - 1, j);
    RunIsNewest(init, ps, i);
    Convergence(init, ps, ps, i, j);
  }
}
