/** Whole runs over a family of clones. Each handle behaves as a sorted item list of its own,
    whatever nodes it shares, whichever operations hit its relatives, and wherever memory runs out. */
module FamilyRuns {
  import opened Keys
  import opened SortedItems
  import opened SortedMaps
  import opened NodeHeap
  import opened NodeDeletes
  import opened Trees
  import opened ForestModel

  datatype Op =
    | NewTree
    | CloneOf(t: nat)
    | Clear(t: nat)
    | Release(t: nat)
    | Set(t: nat, it: Item)
    | Load(t: nat, it: Item)
    | Delete(t: nat, key: Key)
    | Pop(t: nat, front: bool)

  /** A released handle reads as `None`. */
  type Family = seq<Option<seq<Item>>>

  ghost function Reading(t: Tree, h: Heap): Option<seq<Item>> {
    if t.Gone? then None else Some(View(t, h))
  }

  ghost function Readings(ts: seq<Tree>, h: Heap): (r: Family)
    ensures |r| == |ts| && forall i :: 0 <= i < |ts| ==> r[i] == Reading(ts[i], h)
  {
    if ts == [] then [] else Readings(ts[..|ts| - 1], h) + [Reading(ts[|ts| - 1], h)]
  }

  /** What an operation does to the one tree it names. */
  function Apply(op: Op, s: Option<seq<Item>>): Option<seq<Item>> {
    if s.None? then None
    else
      match op
      case NewTree => s
      case CloneOf(_) => s
      case Clear(_) => Some([])
      case Release(_) => None
      case Set(_, it) => Some(Upsert(s.value, it))
      case Load(_, it) => Some(Upsert(s.value, it))
      case Delete(_, key) => if Has(s.value, key) then Some(RemoveAt(s.value, Rank(s.value, key))) else s
      case Pop(_, front) =>
        if s.value == [] then s else Some(RemoveAt(s.value, if front then 0 else |s.value| - 1))
  }

  function Names(op: Op): Option<nat> {
    match op
    case NewTree => None
    case CloneOf(_) => None
    case Clear(t) => Some(t)
    case Release(t) => Some(t)
    case Set(t, _) => Some(t)
    case Load(t, _) => Some(t)
    case Delete(t, _) => Some(t)
    case Pop(t, _) => Some(t)
  }

  /** One step of the family; an operation the allocator failed does nothing. */
  function StepModel(m: Family, op: Op, ok: bool): (r: Family)
    ensures |m| <= |r|
  {
    if !ok then m
    else if op.NewTree? then m + [Some([])]
    else if op.CloneOf? then (if op.t < |m| && m[op.t].Some? then m + [m[op.t]] else m)
    else if Names(op).Some? && Names(op).value < |m| then m[Names(op).value := Apply(op, m[Names(op).value])]
    else m
  }

  function RunModel(m: Family, ops: seq<Op>, oks: seq<bool>): (r: Family)
    requires |ops| == |oks|
    ensures |m| <= |r|
    decreases |ops|
  {
    if ops == [] then m else RunModel(StepModel(m, ops[0], oks[0]), ops[1..], oks[1..])
  }

  // ----- the code runs the model

  lemma OthersRead(ts: seq<Tree>, h: Heap, ts1: seq<Tree>, h1: Heap, t: nat)
    requires OthersKept(ts, h, ts1, h1, t) && |ts1| == |ts| && t < |ts|
    ensures Readings(ts1, h1) == Readings(ts, h)[t := Reading(ts1[t], h1)]
  {
  }

  lemma OneMore(ts: seq<Tree>, h: Heap, ts1: seq<Tree>, h1: Heap)
    requires OthersKept(ts, h, ts1, h1, |ts|) && |ts1| == |ts| + 1
    ensures Readings(ts1, h1) == Readings(ts, h) + [Reading(ts1[|ts|], h1)]
  {
  }

  /** Runs one operation on the shared heap; `ok` tells whether memory sufficed. */
  method Perform(f: Forest, op: Op) returns (ok: bool)
    requires f.Valid()
    modifies f
    ensures f.Valid()
    ensures Readings(f.trees, f.heap) == StepModel(old(Readings(f.trees, f.heap)), op, ok)
    ensures f.failures == old(f.failures) + if ok then 0 else 1
  {
    ghost var ts, h := f.trees, f.heap;
    match op {
      case NewTree =>
        var t := f.NewTree();
        ok := t.Some?;
        if ok { OneMore(ts, h, f.trees, f.heap); }
      case CloneOf(t) =>
        if t >= |f.trees| || f.trees[t].Gone? {
          return true;
        }
        var u := f.Clone(t);
        ok := u.Some?;
        if ok { OneMore(ts, h, f.trees, f.heap); }
      case _ =>
        ok := PerformOn(f, Names(op).value, op);
    }
  }

  /** Runs an operation on one tree. */
  method PerformOn(f: Forest, t: nat, op: Op) returns (ok: bool)
    requires f.Valid() && Names(op) == Some(t)
    modifies f
    ensures f.Valid()
    ensures Readings(f.trees, f.heap) == StepModel(old(Readings(f.trees, f.heap)), op, ok)
    ensures f.failures == old(f.failures) + if ok then 0 else 1
  {
    ghost var ts, h := f.trees, f.heap;
    ok := true;
    if t >= |f.trees| || f.trees[t].Gone? {
      return;
    }
    if op.Clear? {
      f.Clear(t);
    } else if op.Release? {
      f.FreeTree(t);
    } else {
      ok := PerformItem(f, t, op);
      return;
    }
    OthersRead(ts, h, f.trees, f.heap, t);
  }

  method PerformItem(f: Forest, t: nat, op: Op) returns (ok: bool)
    requires f.Valid() && Names(op) == Some(t) && t < |f.trees| && f.trees[t].Tree?
    requires op.Set? || op.Load? || op.Delete? || op.Pop?
    modifies f
    ensures f.Valid()
    ensures Readings(f.trees, f.heap) == StepModel(old(Readings(f.trees, f.heap)), op, ok)
    ensures f.failures == old(f.failures) + if ok then 0 else 1
  {
    ghost var ts, h := f.trees, f.heap;
    var prev;
    if op.Set? {
      prev := f.Set(t, op.it, null);
      ok := !f.trees[t].oom;
      SetReads(ts, h, f.trees, f.heap, t, op, ok);
    } else if op.Load? {
      prev := f.Load(t, op.it);
      ok := !f.trees[t].oom;
      SetReads(ts, h, f.trees, f.heap, t, op, ok);
    } else if op.Delete? {
      prev := f.Delete(t, DelKey, op.key, null);
      ok := !f.trees[t].oom;
      DelReads(ts, h, f.trees, f.heap, t, op, DelKey, op.key, prev, ok);
    } else {
      prev := f.Pop(t, op.front);
      ok := !f.trees[t].oom;
      DelReads(ts, h, f.trees, f.heap, t, op, if op.front then PopFront else PopBack, [], prev, ok);
    }
  }

  lemma {:induction false} SetReads(ts: seq<Tree>, h: Heap, ts1: seq<Tree>, h1: Heap, t: nat, op: Op, ok: bool)
    requires OthersKept(ts, h, ts1, h1, t) && |ts1| == |ts| && t < |ts| && ts[t].Tree? && ts1[t].Tree?
    requires Names(op) == Some(t) && (op.Set? || op.Load?)
    requires View(ts1[t], h1) == if ok then Upsert(View(ts[t], h), op.it) else View(ts[t], h)
    ensures Readings(ts1, h1) == StepModel(Readings(ts, h), op, ok)
  {
    OthersRead(ts, h, ts1, h1, t);
  }

  lemma {:induction false} DelReads(ts: seq<Tree>, h: Heap, ts1: seq<Tree>, h1: Heap, t: nat, op: Op, act: DelAct, key: Key,
                 prev: Option<Item>, ok: bool)
    requires OthersKept(ts, h, ts1, h1, t) && |ts1| == |ts| && t < |ts| && ts[t].Tree? && ts1[t].Tree?
    requires (op == Delete(t, key) && act == DelKey)
             || (op == Pop(t, act == PopFront) && act in {PopFront, PopBack})
    requires if ok then Taken(View(ts[t], h), act, key, View(ts1[t], h1), prev) else View(ts1[t], h1) == View(ts[t], h)
    ensures Readings(ts1, h1) == StepModel(Readings(ts, h), op, ok)
  {
    hide Readings;
    OthersRead(ts, h, ts1, h1, t);
  }

  /** How many operations of a run failed. */
  function Failed(oks: seq<bool>): nat {
    if oks == [] then 0 else Failed(oks[..|oks| - 1]) + if oks[|oks| - 1] then 0 else 1
  }

  lemma {:induction false} NoneFailed(oks: seq<bool>)
    ensures Failed(oks) == 0 <==> forall i :: 0 <= i < |oks| ==> oks[i]
  {
    if oks != [] {
      NoneFailed(oks[..|oks| - 1]);
    }
  }

  /** The family is sound and stands where the model stands after `ops`. */
  ghost predicate Refines(f: Forest, m: Family, ops: seq<Op>, oks: seq<bool>, failures: nat)
    reads f
  {
    && f.Valid() && |oks| == |ops| && Readings(f.trees, f.heap) == RunModel(m, ops, oks)
    && f.failures == failures + Failed(oks)
  }

  method PerformNext(f: Forest, op: Op, ghost m: Family, ghost ops: seq<Op>, oks0: seq<bool>, ghost failures: nat)
    returns (oks: seq<bool>)
    requires Refines(f, m, ops, oks0, failures)
    modifies f
    ensures Refines(f, m, ops + [op], oks, failures)
  {
    var ok := Perform(f, op);
    RunSnoc(m, ops, oks0, op, ok);
    FailedSnoc(oks0, ok);
    oks := oks0 + [ok];
  }

  /** Any finite run refines the model, for every sharing pattern it builds up and every pattern
      of allocation failures. An operation fails only together with an allocation, so without
      failed allocations every operation takes effect. */
  method Run(f: Forest, ops: seq<Op>) returns (oks: seq<bool>)
    requires f.Valid()
    modifies f
    ensures f.Valid() && |oks| == |ops|
    ensures Readings(f.trees, f.heap) == RunModel(old(Readings(f.trees, f.heap)), ops, oks)
    ensures f.failures == old(f.failures) + Failed(oks)
    ensures f.failures == old(f.failures) ==> forall i :: 0 <= i < |oks| ==> oks[i]
  {
    ghost var m, failures := Readings(f.trees, f.heap), f.failures;
    oks := PerformAll(f, ops, m, failures);
    NoneFailed(oks);
  }

  method PerformAll(f: Forest, ops: seq<Op>, ghost m: Family, ghost failures: nat) returns (oks: seq<bool>)
    requires f.Valid() && m == Readings(f.trees, f.heap) && failures == f.failures
    modifies f
    ensures Refines(f, m, ops, oks, failures)
  {
    oks := [];
    assert Refines(f, m, ops[..0], oks, failures);
    hide Refines;
    for i := 0 to |ops|
      invariant Refines(f, m, ops[..i], oks, failures)
    {
      assert ops[..i + 1] == ops[..i] + [ops[i]];
      oks := PerformNext(f, ops[i], m, ops[..i], oks, failures);
    }
    assert ops[..|ops|] == ops;
  }

  lemma FailedSnoc(oks: seq<bool>, ok: bool)
    ensures Failed(oks + [ok]) == Failed(oks) + if ok then 0 else 1
  {
    assert (oks + [ok])[..|oks|] == oks;
  }

  lemma {:induction false} RunSnoc(m: Family, ops: seq<Op>, oks: seq<bool>, op: Op, ok: bool)
    requires |ops| == |oks|
    ensures RunModel(m, ops + [op], oks + [ok]) == StepModel(RunModel(m, ops, oks), op, ok)
    decreases |ops|
  {
    if ops == [] {
      assert ([op])[1..] == [] && ([ok])[1..] == [] && ops + [op] == [op] && oks + [ok] == [ok];
    } else {
      RunSnoc(StepModel(m, ops[0], oks[0]), ops[1..], oks[1..], op, ok);
      assert (ops + [op])[1..] == ops[1..] + [op] && (oks + [ok])[1..] == oks[1..] + [ok];
    }
  }

  // ----- isolation

  /** The history of one tree: the operations that name it, and no others. */
  function Own(s: Option<seq<Item>>, i: nat, ops: seq<Op>, oks: seq<bool>): Option<seq<Item>>
    requires |ops| == |oks|
    decreases |ops|
  {
    if ops == [] then s
    else Own(if oks[0] && Names(ops[0]) == Some(i) then Apply(ops[0], s) else s, i, ops[1..], oks[1..])
  }

  /** After any run a tree holds what its own operations made of it: clones are isolated. */
  lemma {:induction false} Isolation(m: Family, i: nat, ops: seq<Op>, oks: seq<bool>)
    requires |ops| == |oks| && i < |m|
    ensures RunModel(m, ops, oks)[i] == Own(m[i], i, ops, oks)
    decreases |ops|
  {
    if ops != [] {
      Isolation(StepModel(m, ops[0], oks[0]), i, ops[1..], oks[1..]);
    }
  }

  /** A clone and its original go separate ways from the moment of cloning: each continues from the
      common contents by its own operations only. */
  lemma {:induction false} CloneDiverges(m: Family, t: nat, ops: seq<Op>, oks: seq<bool>)
    requires |ops| == |oks| && t < |m| && m[t].Some?
    ensures var r := RunModel(m, [CloneOf(t)] + ops, [true] + oks);
            r[t] == Own(m[t], t, ops, oks) && r[|m|] == Own(m[t], |m|, ops, oks)
  {
    var m1 := StepModel(m, CloneOf(t), true);
    assert ([CloneOf(t)] + ops)[1..] == ops && ([true] + oks)[1..] == oks;
    Isolation(m1, t, ops, oks);
    Isolation(m1, |m|, ops, oks);
  }

  // ----- the map a tree stands for

  /** What an operation means for the key-value map of its tree; `s` names the ends for the pops. */
  ghost predicate MapStep(op: Op, s: seq<Item>, m: map<Key, Value>, m1: map<Key, Value>) {
    match op
    case NewTree => m1 == m
    case CloneOf(_) => m1 == m
    case Clear(_) => m1 == map[]
    case Release(_) => true
    case Set(_, it) => m1 == m[it.key := it.val]
    case Load(_, it) => m1 == m[it.key := it.val]
    case Delete(_, key) => m1 == m - {key}
    case Pop(_, front) => if s == [] then m1 == map[] else m1 == m - {s[if front then 0 else |s| - 1].key}
  }

  /** On the key-value map of the tree: insertion updates one key, deletion drops it, the pops drop
      the least or the greatest key. */
  lemma {:induction false} ApplyMeans(op: Op, s: seq<Item>)
    requires Sorted(s) && !op.Release?
    ensures Apply(op, Some(s)).Some? && Sorted(Apply(op, Some(s)).value)
    ensures MapStep(op, s, ToMap(s), ToMap(Apply(op, Some(s)).value))
  {
    match op {
      case Set(_, it) => UpsertSorted(s, it); UpsertMeans(s, it);
      case Load(_, it) => UpsertSorted(s, it); UpsertMeans(s, it);
      case Delete(_, key) =>
        LookupMeans(s, key);
        if Has(s, key) {
          RemoveSorted(s, Rank(s, key));
          RemoveMeans(s, Rank(s, key));
        }
      case Pop(_, front) =>
        if s != [] {
          RemoveSorted(s, if front then 0 else |s| - 1);
          RemoveMeans(s, if front then 0 else |s| - 1);
        }
      case _ =>
    }
  }

  ghost predicate AllSorted(m: Family) {
    forall i {:trigger m[i]} :: 0 <= i < |m| && m[i].Some? ==> Sorted(m[i].value)
  }

  /** Handle `t`, if there is such a tree, has gone from `f` to `g`; no other has changed. */
  ghost predicate Only(f: Family, g: Family, t: nat) {
    |g| == |f| && (forall j :: 0 <= j < |f| && j != t ==> g[j] == f[j]) && (t < |f| && f[t].None? ==> g[t] == None)
  }

  /** What an operation that memory sufficed for does to the family. */
  ghost predicate Does(op: Op, f: Family, g: Family) {
    match op
    case NewTree => g == f + [Some([])]
    case CloneOf(t) => g == if t < |f| && f[t].Some? then f + [f[t]] else f
    case Clear(t) => Only(f, g, t) && (t < |f| && f[t].Some? ==> g[t] == Some([]))
    case Release(t) => Only(f, g, t) && (t < |f| ==> g[t] == None)
    case Set(t, _) => OnMap(op, t, f, g)
    case Load(t, _) => OnMap(op, t, f, g)
    case Delete(t, _) => OnMap(op, t, f, g)
    case Pop(t, _) => OnMap(op, t, f, g)
  }

  ghost predicate OnMap(op: Op, t: nat, f: Family, g: Family) {
    && Only(f, g, t)
    && (t < |f| && f[t].Some? ==>
          g[t].Some? && Sorted(g[t].value) && MapStep(op, f[t].value, ToMap(f[t].value), ToMap(g[t].value)))
  }

  lemma StepDoes(m: Family, op: Op, ok: bool)
    requires AllSorted(m)
    ensures AllSorted(StepModel(m, op, ok)) && (if ok then Does(op, m, StepModel(m, op, ok)) else StepModel(m, op, ok) == m)
  {
    hide Less, Upsert, RemoveAt, Has, ToMap;
    var t := Names(op);
    if t.Some? && t.value < |m| && m[t.value].Some? && !op.Release? {
      ApplyMeans(op, m[t.value].value);
    }
  }

  lemma {:induction false} RunSorted(m: Family, ops: seq<Op>, oks: seq<bool>)
    requires AllSorted(m) && |ops| == |oks|
    ensures AllSorted(RunModel(m, ops, oks))
    decreases |ops|
  {
    if ops != [] {
      StepDoes(m, ops[0], oks[0]);
      RunSorted(StepModel(m, ops[0], oks[0]), ops[1..], oks[1..]);
    }
  }

  /** After any run, one more operation updates or drops one key of one tree, adds an empty tree or a
      second reading of a tree, empties or removes one, and does nothing else. */
  lemma {:induction false} LastDoes(m: Family, ops: seq<Op>, oks: seq<bool>, op: Op, ok: bool)
    requires AllSorted(m) && |ops| == |oks|
    ensures var f, g := RunModel(m, ops, oks), RunModel(m, ops + [op], oks + [ok]);
            AllSorted(g) && if ok then Does(op, f, g) else g == f
  {
    RunSnoc(m, ops, oks, op, ok);
    RunSorted(m, ops, oks);
    StepDoes(RunModel(m, ops, oks), op, ok);
  }
}
