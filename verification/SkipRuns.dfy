/** Whole runs of the skip list engine: what they leave in the list for any keys, and when a key comes to
    stand in it twice. */
module SkipRuns {
  import opened Keys
  import opened SortedItems
  import opened Records
  import opened RecordTables
  import opened LongKeys
  import opened SkipTableModel

  datatype Op = Set(key: Key, val: Value, ts: nat) | Modify(key: Key, val: Value, ts: nat) | Delete(key: Key)

  /** What an operation does to the list. */
  function Apply(d: seq<Record>, op: Op): seq<Record> {
    var r := Rank(ItemsOf(d), op.key);
    match op
    case Set(key, val, ts) => if Has(ItemsOf(d), key) then d else Spliced(d, r, Record(Item(Cut(key), Cut(val)), ts))
    case Modify(key, val, ts) => if Has(ItemsOf(d), key) then Put(d, Record(Item(key, Cut(val)), ts)) else d
    case Delete(key) => if Has(ItemsOf(d), key) then RemoveAt(d, r) else d
  }

  function ApplyAll(d: seq<Record>, ops: seq<Op>): seq<Record> {
    if ops == [] then d else Apply(ApplyAll(d, ops[..|ops| - 1]), ops[|ops| - 1])
  }

  /** What it does to a plain table. */
  function OnTable(t: Table, op: Op): Table {
    match op
    case Set(key, val, ts) => if key in t then t else t[Cut(key) := Stamp(Cut(val), ts)]
    case Modify(key, val, ts) => if key in t then t[key := Stamp(Cut(val), ts)] else t
    case Delete(key) => t - {key}
  }

  function OnTableAll(t: Table, ops: seq<Op>): Table {
    if ops == [] then t else OnTable(OnTableAll(t, ops[..|ops| - 1]), ops[|ops| - 1])
  }

  /** After any run, one more operation changes at most one key of the table: it adds what is kept of an
      absent key, overwrites a present one, or takes it out. */
  lemma {:induction false} LastDoes(t: Table, ops: seq<Op>, op: Op)
    ensures var f, g := OnTableAll(t, ops), OnTableAll(t, ops + [op]);
            && (forall k :: k != op.key && k != op.key[..if |op.key| > 255 then 255 else |op.key|] ==>
                  (k in g <==> k in f) && (k in f ==> g[k] == f[k]))
            && (op.Set? && op.key in f ==> g == f)
            && (op.Set? && op.key !in f && |op.key| <= 255 && |op.val| <= 255 ==>
                  op.key in g && g[op.key] == Stamp(op.val, op.ts))
            && (op.Set? && op.key !in f && |op.key| > 255 ==> op.key[..255] in g && op.key !in g)
            && (op.Modify? ==> g.Keys == f.Keys)
            && (op.Modify? && op.key in f && |op.val| <= 255 ==> g[op.key] == Stamp(op.val, op.ts))
            && (op.Delete? ==> g.Keys == f.Keys - {op.key})
  {
    assert (ops + [op])[..|ops|] == ops;
    assert |op.key| <= 255 ==> op.key[..|op.key|] == op.key;
  }

  /** A key above the field is set while what is kept of it is there. */
  predicate Doubles(t: Table, op: Op) { op.Set? && |op.key| > FIELD && Cut(op.key) in t }

  /** The list is strictly in order with keys that fit, and stands for `t`. */
  ghost predicate Lists(d: seq<Record>, t: Table) {
    Sorted(ItemsOf(d)) && Kept(ItemsOf(d)) && TableOf(d) == t
  }

  lemma StepKept(d: seq<Record>, op: Op)
    requires Kept(ItemsOf(d))
    ensures Kept(ItemsOf(Apply(d, op)))
  {
    hide Rank;
    var w, r := ItemsOf(d), Rank(ItemsOf(d), op.key);
    match op
    case Set(key, val, ts) =>
      SplicedItems(d, r, Record(Item(Cut(key), Cut(val)), ts));
    case Modify(key, val, ts) =>
      PutItems(d, Record(Item(key, Cut(val)), ts));
      assert Has(w, key) ==> w[r].key == key;
    case Delete(key) =>
      if Has(w, key) { RemoveItems(d, r); }
  }

  lemma SetStep(d: seq<Record>, op: Op)
    requires op.Set? && Lists(d, TableOf(d))
    ensures Sorted(ItemsOf(Apply(d, op))) <==> !Doubles(TableOf(d), op)
    ensures !Doubles(TableOf(d), op) ==> TableOf(Apply(d, op)) == OnTable(TableOf(d), op)
  {
    hide Sorted, Less, Kept;
    var w, r := ItemsOf(d), Rank(ItemsOf(d), op.key);
    var rec := Record(Item(Cut(op.key), Cut(op.val)), op.ts);
    SortedAscends(w);
    TableRank(d, op.key);
    TableRank(d, Cut(op.key));
    if Has(w, op.key) {
      if |op.key| > FIELD { LongAbsent(w, op.key); }
    } else {
      SplicedItems(d, r, rec);
      SplicedStrict(w, op.key, rec.it.val);
      if !Doubles(TableOf(d), op) {
        CutRank(w, op.key);
        PutSorted(d, rec);
      }
    }
  }

  lemma ModifyStep(d: seq<Record>, op: Op)
    requires op.Modify? && Lists(d, TableOf(d))
    ensures Sorted(ItemsOf(Apply(d, op))) && TableOf(Apply(d, op)) == OnTable(TableOf(d), op)
  {
    hide Sorted, Less, Kept;
    TableRank(d, op.key);
    PutSorted(d, Record(Item(op.key, Cut(op.val)), op.ts));
  }

  lemma DeleteStep(d: seq<Record>, op: Op)
    requires op.Delete? && Lists(d, TableOf(d))
    ensures Sorted(ItemsOf(Apply(d, op))) && TableOf(Apply(d, op)) == OnTable(TableOf(d), op)
  {
    hide Less, Kept;
    var w, r := ItemsOf(d), Rank(ItemsOf(d), op.key);
    TableRank(d, op.key);
    if Has(w, op.key) {
      RemoveItems(d, r);
      RemoveSorted(w, r);
      SortedUnique(d);
      TableDrop(d, r, RemoveAt(d, r));
    }
  }

  /** The list stands for the table after `ops`, exactly if none of them doubled a key. */
  lemma StepLists(d: seq<Record>, op: Op)
    requires Lists(d, TableOf(d))
    ensures Sorted(ItemsOf(Apply(d, op))) <==> !Doubles(TableOf(d), op)
    ensures !Doubles(TableOf(d), op) ==> Lists(Apply(d, op), OnTable(TableOf(d), op))
  {
    hide Sorted, Kept, Apply, OnTable;
    StepKept(d, op);
    match op
    case Set(_, _, _) => SetStep(d, op);
    case Modify(_, _, _) => ModifyStep(d, op);
    case Delete(_) => DeleteStep(d, op);
  }

  ghost predicate NeverDoubles(t: Table, ops: seq<Op>) {
    forall i :: 0 <= i < |ops| ==> !Doubles(OnTableAll(t, ops[..i]), ops[i])
  }

  /** Started with different keys, a run that doubles no key keeps them different at every moment and does
      to the list what it does to a plain table. */
  lemma {:induction false} RunsAsTable(d: seq<Record>, ops: seq<Op>)
    requires Lists(d, TableOf(d)) && NeverDoubles(TableOf(d), ops)
    ensures Lists(ApplyAll(d, ops), OnTableAll(TableOf(d), ops))
  {
    hide Sorted, Kept, ItemsOf;
    if ops != [] {
      var n := |ops| - 1;
      assert forall i :: 0 <= i <= n ==> ops[..n][..i] == ops[..i];
      assert forall i :: 0 <= i < n ==> ops[..n][i] == ops[i];
      RunsAsTable(d, ops[..n]);
      StepLists(ApplyAll(d, ops[..n]), ops[n]);
    }
  }

  /** All keys are different at every moment of a run exactly if it doubles none. */
  lemma {:induction false} StrictRuns(d: seq<Record>, ops: seq<Op>)
    requires Lists(d, TableOf(d))
    ensures (forall i :: 0 <= i <= |ops| ==> Sorted(ItemsOf(ApplyAll(d, ops[..i])))) <==> NeverDoubles(TableOf(d), ops)
  {
    hide ItemsOf;
    if ops == [] {
      assert forall i :: 0 <= i <= |ops| ==> ops[..i] == [];
    } else {
      var n := |ops| - 1;
      var before := ops[..n];
      assert forall i :: 0 <= i <= n ==> before[..i] == ops[..i];
      assert forall i :: 0 <= i < n ==> before[i] == ops[i];
      assert ops[..|ops|] == ops;
      StrictRuns(d, before);
      if NeverDoubles(TableOf(d), before) {
        RunsAsTable(d, before);
        StepLists(ApplyAll(d, before), ops[n]);
      }
    }
  }

  /** Any run, with any keys, keeps the list linked and in order. */
  method Run(inst: SkipTable, ops: seq<Op>)
    requires inst.Valid()
    modifies inst, inst.links.Keys, set n | n in inst.links :: n.forward
    ensures inst.Valid() && inst.data == ApplyAll(old(inst.data), ops)
  {
    hide Apply;
    ghost var d, links := inst.data, inst.links;
    for i := 0 to |ops|
      invariant inst.Valid() && inst.data == ApplyAll(d, ops[..i])
      invariant forall n :: n in inst.links && n !in links ==> fresh(n) && fresh(n.forward)
    {
      assert ops[..i + 1][..i] == ops[..i];
      Perform(inst, ops[i]);
    }
    assert ops[..|ops|] == ops;
  }

  method Perform(inst: SkipTable, op: Op)
    requires inst.Valid()
    modifies inst, inst.links.Keys, set n | n in inst.links :: n.forward
    ensures inst.Valid() && inst.data == Apply(old(inst.data), op)
    ensures forall n :: n in inst.links && n !in old(inst.links) ==> fresh(n) && fresh(n.forward)
  {
    hide Put, Rank, ItemsOf, Sorted, Ascending;
    match op {
      case Set(key, val, ts) =>
        var _ := inst.Set(key, val, ts);
      case Modify(key, val, ts) =>
        var _ := inst.Modify(key, val, ts);
      case Delete(key) =>
        var _ := inst.Delete(key);
    }
  }

  /** On an empty list: a key that fills its field, then a longer one that begins with it. Both are
      accepted, and the list has two towers with the same key. */
  method TwoTowers(inst: SkipTable, c: Key, first: Value, second: Value) returns (code0: int, code1: int)
    requires inst.Valid() && inst.data == [] && |c| == FIELD
    modifies inst, inst.links.Keys, set n | n in inst.links :: n.forward
    ensures inst.Valid() && code0 == 0 && code1 == 0
    ensures forall n :: n in inst.links && n !in old(inst.links) ==> fresh(n) && fresh(n.forward)
    ensures ItemsOf(inst.data) == [Item(c, Cut(first)), Item(c, Cut(second))]
  {
    hide SkipTable.Holds, SkipTable.Levelled, Rank, Strcmp;
    NoneThere(c);
    code0 := inst.Set(c, first, 1);
    OneThere(inst.data, c);
    code1 := inst.Set(c + [1], second, 2);
  }

  lemma NoneThere(c: Key)
    ensures Rank([], c) == 0 && !Has([], c)
  {
  }

  lemma OneThere(d: seq<Record>, c: Key)
    requires |d| == 1 && d[0].it.key == c && |c| == FIELD
    ensures Rank(ItemsOf(d), c + [1]) == 1 && !Has(ItemsOf(d), c + [1])
  {
    Longer(c);
    RankUnique(ItemsOf(d), c + [1], 1);
  }

  lemma {:induction false} Longer(c: Key)
    ensures Less(c, c + [1])
  {
    if c != [] {
      assert (c + [1])[1..] == c[1..] + [1];
      Longer(c[1..]);
    }
  }

  /** Deleting the key then succeeds, and the key is still there. */
  method DeletedStays(c: Key, first: Value, second: Value) returns (deleted: int, exists0: int)
    requires |c| == FIELD
    ensures deleted == 0 && exists0 == 0
  {
    var inst := new SkipTable();
    var code0, code1 := TwoTowers(inst, c, first, second);
    TwiceThere(inst.data, c, Cut(first), Cut(second));
    deleted := inst.Delete(c);
    exists0 := inst.Exist(c);
  }

  lemma TwiceThere(d: seq<Record>, c: Key, first: Value, second: Value)
    requires ItemsOf(d) == [Item(c, first), Item(c, second)]
    ensures |d| == 2 && Has(ItemsOf(d), c) && Rank(ItemsOf(d), c) == 0 && Has(ItemsOf(RemoveAt(d, 0)), c)
  {
    StrcmpZero(c, c);
    assert |d| == |ItemsOf(d)|;
    RemoveItems(d, 0);
    assert RemoveAt(ItemsOf(d), 0) == [Item(c, second)];
    RankUnique(ItemsOf(d), c, 0);
    RankUnique(ItemsOf(RemoveAt(d, 0)), c, 0);
  }
}
