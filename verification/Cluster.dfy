/** Several servers with red-black engines that pull from one another: the runs of the replication
    model, performed on the trees through the text that goes over the wire. */
module Cluster {
  import opened SortedItems
  import opened RecordTables
  import opened Replication
  import opened Wire
  import opened WireRoundTrip
  import opened RbShapes
  import opened RbStamps
  import opened RbTreeModel
  import opened PullSession

  /** A table that survives the wire: not empty, all keys and values single words, 64-bit timestamps. */
  ghost predicate Dumpable(t: Table) {
    && t != map[]
    && forall k {:trigger t[k]} :: k in t ==> Word(k) && Word(t[k].val) && t[k].ts < UINT64
  }

  lemma DumpableJoin(a: Table, b: Table)
    requires Dumpable(a) && Dumpable(b)
    ensures Dumpable(Join(a, b))
  {
    var k :| k in a;
    assert k in Join(a, b);
  }

  /** The records of a tree with such a table. */
  lemma {:induction false} DumpableRecords(t: Shape)
    requires Sorted(Items(t)) && Dumpable(Stamps(t))
    ensures Stamped(Recs(t)) && Plain(Recs(t)) && Recs(t) != []
  {
    var d := Recs(t);
    RecItems(t);
    SortedUnique(d);
    forall i | 0 <= i < |d|
      ensures Word(d[i].it.key) && Word(d[i].it.val) && d[i].ts < UINT64
    {
      TableAt(d, i);
    }
  }

  /** The tree is sound and its records make up the table `t`. */
  ghost predicate Serves(inst: RbTree, t: Table)
    reads inst, inst.mem.Keys
  {
    inst.Valid() && Stamps(inst.shape) == t
  }

  /** The replicas are distinct trees without common nodes. */
  ghost predicate Apart(rs: seq<RbTree>)
    reads rs
  {
    forall i, j {:trigger rs[i], rs[j]} :: 0 <= i < j < |rs| ==> rs[i] != rs[j] && rs[i].mem.Keys !! rs[j].mem.Keys
  }

  ghost function Nodes(rs: seq<RbTree>): (s: set<Node>)
    reads rs
    ensures forall i :: 0 <= i < |rs| ==> rs[i].mem.Keys <= s
  {
    if rs == [] then {} else Nodes(rs[..|rs| - 1]) + rs[|rs| - 1].mem.Keys
  }

  ghost predicate Serving(rs: seq<RbTree>, ts: seq<Table>)
    reads rs, Nodes(rs)
  {
    |rs| == |ts| && Apart(rs) && forall i {:trigger ts[i]} :: 0 <= i < |rs| ==> Serves(rs[i], ts[i])
  }

  /** The tables of the servers as they stand. */
  ghost function Tables(rs: seq<RbTree>): (ts: seq<Table>)
    reads rs
    ensures |ts| == |rs| && forall i {:trigger ts[i]} {:trigger rs[i]} :: 0 <= i < |rs| ==> ts[i] == Stamps(rs[i].shape)
  {
    if rs == [] then [] else Tables(rs[..|rs| - 1]) + [Stamps(rs[|rs| - 1].shape)]
  }

  lemma {:induction false} ServingTables(rs: seq<RbTree>, ts: seq<Table>)
    requires Serving(rs, ts)
    ensures Tables(rs) == ts
  {
    forall i | 0 <= i < |rs|
      ensures Tables(rs)[i] == ts[i]
    {
      assert Serves(rs[i], ts[i]);
    }
  }

  /** One pull between two of the servers. */
  method PullOne(local: RbTree, remote: RbTree, ghost a: Table, ghost b: Table)
    requires Serves(local, a) && Serves(remote, b) && Dumpable(b)
    modifies local, local.mem.Keys
    ensures Serves(local, Join(a, b)) && fresh(local.mem.Keys - old(local.mem.Keys))
  {
    DumpableRecords(remote.shape);
    var ret := PullRb(local, remote);
  }

  lemma {:induction false} NodeOf(rs: seq<RbTree>, n: Node) returns (i: nat)
    requires n in Nodes(rs)
    ensures i < |rs| && n in rs[i].mem
  {
    if n in rs[|rs| - 1].mem {
      i := |rs| - 1;
    } else {
      i := NodeOf(rs[..|rs| - 1], n);
    }
  }

  /** The node table of each server. */
  ghost function Mems(rs: seq<RbTree>): (ms: seq<Mem>)
    reads rs
    ensures |ms| == |rs| && forall i {:trigger ms[i]} {:trigger rs[i]} :: 0 <= i < |rs| ==> ms[i] == rs[i].mem
  {
    if rs == [] then [] else Mems(rs[..|rs| - 1]) + [rs[|rs| - 1].mem]
  }

  /** One of the servers, apart before, has got `more` nodes that nobody had. */
  lemma StillApart(rs: seq<RbTree>, ms: seq<Mem>, to: nat, more: set<Node>)
    requires to < |rs| == |ms| && rs[to].mem.Keys <= ms[to].Keys + more
    requires forall i, j {:trigger rs[i], rs[j]} :: 0 <= i < j < |rs| ==> rs[i] != rs[j] && ms[i].Keys !! ms[j].Keys
    requires forall i {:trigger rs[i]} :: 0 <= i < |rs| && i != to ==> rs[i].mem == ms[i] && ms[i].Keys !! more
    ensures Apart(rs)
  {
  }

  method PullAt(rs: seq<RbTree>, to: nat, from: nat, ghost ts: seq<Table>, ghost ts1: seq<Table>)
    requires Serving(rs, ts) && to < |rs| && from < |rs| && ts1 == ts[to := Join(ts[to], ts[from])]
    requires Dumpable(ts[from])
    modifies rs, Nodes(rs)
    ensures Serving(rs, ts1) && fresh(Nodes(rs) - old(Nodes(rs)))
  {
    hide Serves, Join, Dumpable;
    ghost var ms, all := Mems(rs), Nodes(rs);
    assert forall i {:trigger rs[i]} :: 0 <= i < |rs| ==> ms[i].Keys <= all;
    PullOne(rs[to], rs[from], ts[to], ts[from]);
    forall i | 0 <= i < |rs| && i != to
      ensures rs[i].mem == ms[i] && Serves(rs[i], ts[i])
    {
      assert rs[i] != rs[to] && ms[i].Keys !! ms[to].Keys;
    }
    ghost var more := rs[to].mem.Keys - ms[to].Keys;
    StillApart(rs, ms, to, more);
    forall n | n in Nodes(rs) && n !in all
      ensures fresh(n)
    {
      var i := NodeOf(rs, n);
      assert i == to;
    }
  }

  /** The server pulled from, if there is one, has a table that survives the wire. */
  ghost predicate Answers(ts: seq<Table>, p: Pull) {
    p.to < |ts| && p.from < |ts| ==> Dumpable(ts[p.from])
  }

  /** So it is at each pull. */
  ghost predicate AllAnswer(ts: seq<Table>, ps: seq<Pull>) {
    forall i :: 0 <= i < |ps| ==> Answers(Run(ts, ps[..i]), ps[i])
  }

  /** It is enough that the servers pulled from start with such tables; the others may start empty, or
      with anything. */
  lemma {:induction false} SourcesAnswer(ts: seq<Table>, ps: seq<Pull>, sources: set<nat>)
    requires forall p :: p in ps ==> p.from in sources
    requires forall i :: i in sources && i < |ts| ==> Dumpable(ts[i])
    ensures AllAnswer(ts, ps)
    ensures forall i :: i in sources && i < |ts| ==> Dumpable(Run(ts, ps)[i])
  {
    hide Dumpable, Join;
    if ps != [] {
      var n := |ps| - 1;
      assert forall i :: 0 <= i <= n ==> ps[..n][..i] == ps[..i];
      assert forall i :: 0 <= i < n ==> ps[..n][i] == ps[i];
      SourcesAnswer(ts, ps[..n], sources);
      var us, p := Run(ts, ps[..n]), ps[n];
      if p.to in sources && p.to < |ts| && p.from < |ts| {
        DumpableJoin(us[p.to], us[p.from]);
      }
    }
  }

  /** The pulling server gets all that the other has, the others stay as they are. */
  method PullStep(rs: seq<RbTree>, p: Pull, ghost ts: seq<Table>)
    requires Serving(rs, ts) && Answers(ts, p)
    modifies rs, Nodes(rs)
    ensures Serving(rs, Step(ts, p)) && fresh(Nodes(rs) - old(Nodes(rs)))
    ensures p.to < |rs| && p.from < |rs| ==> Brought(old(Tables(rs)), Tables(rs), p.to, p.from)
  {
    if p.to < |rs| && p.from < |rs| {
      ServingTables(rs, ts);
      JoinBrings(ts, p.to, p.from);
      PullIn(rs, p, ts);
    }
  }

  method PullIn(rs: seq<RbTree>, p: Pull, ghost ts: seq<Table>)
    requires Serving(rs, ts) && Answers(ts, p) && p.to < |rs| && p.from < |rs|
    modifies rs, Nodes(rs)
    ensures Serving(rs, Step(ts, p)) && fresh(Nodes(rs) - old(Nodes(rs))) && Tables(rs) == Step(ts, p)
  {
    hide Dumpable, Join, Serves;
    PullAt(rs, p.to, p.from, ts, ts[p.to := Join(ts[p.to], ts[p.from])]);
    ServingTables(rs, Step(ts, p));
  }

  /** Any run of pulls among the servers does what the replication model says, and its last pull has
      brought what there was to bring. */
  method PullAll(rs: seq<RbTree>, ps: seq<Pull>, ghost ts: seq<Table>)
    requires Serving(rs, ts) && AllAnswer(ts, ps)
    modifies rs, Nodes(rs)
    ensures Serving(rs, Run(ts, ps)) && Tables(rs) == Run(old(Tables(rs)), ps)
    ensures ps != [] && ps[|ps| - 1].to < |rs| && ps[|ps| - 1].from < |rs| ==>
              Brought(Run(old(Tables(rs)), ps[..|ps| - 1]), Tables(rs), ps[|ps| - 1].to, ps[|ps| - 1].from)
  {
    ServingTables(rs, ts);
    if ps != [] && ps[|ps| - 1].to < |rs| && ps[|ps| - 1].from < |rs| {
      LastBrings(ts, ps);
    }
    PullEach(rs, ps, ts);
    ServingTables(rs, Run(ts, ps));
  }

  lemma {:induction false} LastBrings(ts: seq<Table>, ps: seq<Pull>)
    requires ps != [] && ps[|ps| - 1].to < |ts| && ps[|ps| - 1].from < |ts|
    ensures Brought(Run(ts, ps[..|ps| - 1]), Run(ts, ps), ps[|ps| - 1].to, ps[|ps| - 1].from)
  {
    hide *;
    assert ps == ps[..|ps| - 1] + [Pull(ps[|ps| - 1].to, ps[|ps| - 1].from)];
    PullBrings(ts, ps[..|ps| - 1], ps[|ps| - 1].to, ps[|ps| - 1].from);
  }

  method PullEach(rs: seq<RbTree>, ps: seq<Pull>, ghost ts: seq<Table>)
    requires Serving(rs, ts) && AllAnswer(ts, ps)
    modifies rs, Nodes(rs)
    ensures Serving(rs, Run(ts, ps))
  {
    hide Serving, Answers, Brought;
    for i := 0 to |ps|
      invariant Serving(rs, Run(ts, ps[..i])) && fresh(Nodes(rs) - old(Nodes(rs)))
    {
      assert ps[..i + 1][..i] == ps[..i];
      PullStep(rs, ps[i], Run(ts, ps[..i]));
    }
    assert ps[..|ps|] == ps;
  }

  /** Servers that the same initial tables have reached hold the same table, timestamps included, if
      tied newest stamps agree. */
  method PullsConverge(rs: seq<RbTree>, ps: seq<Pull>, ghost ts: seq<Table>, i: nat, j: nat)
    requires Serving(rs, ts) && AllAnswer(ts, ps) && i < |rs| && j < |rs| && Reached(|rs|, ps, i) == Reached(|rs|, ps, j)
    requires (forall q :: q in Reached(|rs|, ps, i) ==> q < |rs|) && TopsAgree(ts, Reached(|rs|, ps, i))
    modifies rs, Nodes(rs)
    ensures rs[i].Valid() && rs[j].Valid() && Stamps(rs[i].shape) == Stamps(rs[j].shape)
  {
    Convergence(ts, ps, ps, i, j);
    PullAll(rs, ps, ts);
    assert Serves(rs[i], Run(ts, ps)[i]) && Serves(rs[j], Run(ts, ps)[j]);
  }

  /** One chain of pulls there and back among servers with dumpable tables: all end with the same table,
      which holds of every key that any of them had the newest stamp. */
  method Settle(rs: seq<RbTree>, ghost ts: seq<Table>)
    requires Serving(rs, ts) && rs != [] && TopsAgree(ts, UpTo(|rs| - 1)) && forall t :: t in ts ==> Dumpable(t)
    modifies rs, Nodes(rs)
    ensures |Tables(rs)| == |rs| && forall i :: 0 <= i < |rs| ==> Tables(rs)[i] == Tables(rs)[0]
    ensures Newest(Tables(rs)[0], ts, UpTo(|rs| - 1))
  {
    hide Dumpable, Newest, TopsAgree, Serving;
    ServingTables(rs, ts);
    var ps := ThereAndBack(|rs|, |rs| - 1);
    EveryOneAnswers(ts, ps);
    forall i | 0 <= i < |ts|
      ensures Run(ts, ps)[i] == Run(ts, ps)[0]
    {
      AllSettle(ts, i, 0);
    }
    AllSettle(ts, 0, 0);
    PullAll(rs, ps, ts);
  }

  lemma {:induction false} EveryOneAnswers(ts: seq<Table>, ps: seq<Pull>)
    requires forall t :: t in ts ==> Dumpable(t)
    ensures AllAnswer(ts, ps)
  {
    hide Dumpable;
    SourcesAnswer(ts, ps, set p | p in ps :: p.from);
  }
}
