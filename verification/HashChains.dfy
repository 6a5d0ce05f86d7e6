/** The chains of the hash engine, and the table their records stand for. */
module HashChains {
  import opened Keys
  import opened SortedItems
  import opened Division
  import opened Records
  import opened RecordTables

  const TABLE_SIZE: nat := 1024

  class HashNode {
    const key: Key
    var value: Value
    var timestamp: nat
    var next: HashNode?

    constructor (key: Key, value: Value)
      ensures this.key == key && this.value == value && next == null
    {
      this.key, this.value, timestamp, next := key, value, *, null;
    }
  }

  /** A byte as a plain `char`, which is signed. */
  function Char(b: Byte): int { if b < 128 then b else b - 256 }

  function Sum(key: Key): int {
    if key == [] then 0 else Sum(key[..|key| - 1]) + Char(key[|key| - 1])
  }

  /** The remainder of C, which has the sign of the dividend. */
  function Rem(a: int, n: nat): int
    requires n > 0
  {
    if a >= 0 then a % n else -((-a) % n)
  }

  /** No partial sum leaves the range of an `int`. */
  ghost predicate SumFits(key: Key) {
    forall i {:trigger key[..i]} :: 0 <= i <= |key| ==> -0x8000_0000 <= Sum(key[..i]) < 0x8000_0000
  }

  /** The byte sum fits an `int` and is not negative, or at least a multiple of the table size. */
  ghost predicate Hashable(key: Key) { SumFits(key) && (Sum(key) >= 0 || Sum(key) % TABLE_SIZE == 0) }

  /** Of all remainders only that of such a sum is an index of the table. */
  lemma HashableRem(key: Key)
    requires SumFits(key)
    ensures 0 <= Rem(Sum(key), TABLE_SIZE) < TABLE_SIZE <==> Hashable(key)
  {
    hide SumFits, Sum;
    IndexRem(Sum(key));
  }

  lemma IndexRem(a: int)
    ensures 0 <= Rem(a, TABLE_SIZE) < TABLE_SIZE <==> a >= 0 || a % TABLE_SIZE == 0
  {
    var q, m := -a / TABLE_SIZE, -a % TABLE_SIZE;
    assert a == -q * TABLE_SIZE - m;
    if m == 0 {
      assert a % TABLE_SIZE == 0;
    } else {
      assert a == (-q - 1) * TABLE_SIZE + (TABLE_SIZE - m);
      assert a % TABLE_SIZE == TABLE_SIZE - m;
    }
  }

  function SlotOf(key: Key): (s: nat)
    ensures s < TABLE_SIZE
  {
    var r := Rem(Sum(key), TABLE_SIZE);
    if r >= 0 then r else 0
  }

  /** The sum goes over all bytes, each as a signed number of eight bits. */
  lemma {:induction false} SumAppend(a: Key, b: Key)
    ensures Sum(a + b) == Sum(a) + Sum(b)
  {
    if b == [] {
      assert a + b == a;
    } else {
      assert (a + b)[..|a + b| - 1] == a + b[..|b| - 1];
      SumAppend(a, b[..|b| - 1]);
    }
  }

  lemma SumSingle(x: Byte)
    ensures -128 <= Sum([x]) < 128 && (Sum([x]) - x) % 256 == 0
  {
    assert [x][..0] == [];
    assert Sum([x]) == Sum([x][..0]) + Char(x);
  }

  /** The order of the bytes does not matter. */
  lemma {:induction false} SumPermutes(a: Key, b: Key)
    requires multiset(a) == multiset(b)
    ensures Sum(a) == Sum(b) && SlotOf(a) == SlotOf(b)
  {
    if a == [] {
      assert b == [] by { assert |b| == |multiset(b)| == 0; }
    } else {
      var n := |a| - 1;
      var x := a[n];
      assert a == a[..n] + [x];
      assert x in multiset(b);
      var i :| 0 <= i < |b| && b[i] == x;
      assert b == b[..i] + [x] + b[i + 1..];
      var c := b[..i] + b[i + 1..];
      CancelOne(a[..n], x, b[..i], b[i + 1..]);
      SumPermutes(a[..n], c);
      SumAppend(a[..n], [x]);
      SumAppend(b[..i], b[i + 1..]);
      SumAppend(b[..i] + [x], b[i + 1..]);
      SumAppend(b[..i], [x]);
    }
  }

  lemma {:induction false} CancelOne(a: Key, x: Byte, b: Key, c: Key)
    requires multiset(a + [x]) == multiset(b + [x] + c)
    ensures multiset(a) == multiset(b + c)
  {
    assert multiset(a + [x]) == multiset(a) + multiset{x};
    assert multiset(b + [x] + c) == multiset(b + c) + multiset{x};
    assert multiset(a) == multiset(a + [x]) - multiset{x};
    assert multiset(b + c) == multiset(b + [x] + c) - multiset{x};
  }

  /** C's remainder truncates: it is smaller than the divisor, and has the sign of the dividend. */
  lemma RemMeans(a: int, n: nat, q: int, r: int)
    requires n > 0 && a == q * n + r && 0 - n < r < n && (a >= 0 ==> r >= 0) && (a <= 0 ==> r <= 0)
    ensures Rem(a, n) == r
  {
    if a >= 0 {
      Quotient(a, n, q, r);
    } else {
      assert -a == -q * n - r;
      Quotient(-a, n, -q, -r);
    }
  }

  /** The slot of a key is what its sum leaves modulo the table size; one more byte moves it on by the
      byte's value. */
  lemma SlotMeans(key: Key, x: Byte)
    requires Hashable(key) && Hashable(key + [x])
    ensures SlotOf(key) == Sum(key) % 1024 && SlotOf(key + [x]) == (SlotOf(key) + Sum([x])) % 1024
  {
    hide Sum, SumFits;
    SumAppend(key, [x]);
    SlotMod(Sum(key));
    SlotMod(Sum(key + [x]));
    ModStep(Sum(key), Sum([x]));
  }

  lemma ModStep(a: int, v: int)
    ensures (a + v) % 1024 == (a % 1024 + v) % 1024
  {
    assert a == a / 1024 * 1024 + a % 1024;
    var q, r := (a % 1024 + v) / 1024, (a % 1024 + v) % 1024;
    assert a + v == (a / 1024 + q) * 1024 + r;
  }

  lemma SlotMod(a: int)
    requires a >= 0 || a % TABLE_SIZE == 0
    ensures (if Rem(a, TABLE_SIZE) >= 0 then Rem(a, TABLE_SIZE) else 0) == a % 1024
  {
    IndexRem(a);
  }

  lemma {:induction false} AsciiSum(key: Key)
    requires forall i :: 0 <= i < |key| ==> key[i] < 128
    ensures 0 <= Sum(key) <= 127 * |key|
  {
    if key != [] {
      AsciiSum(key[..|key| - 1]);
    }
  }

  /** ASCII keys of up to 16 million bytes have a slot. */
  lemma AsciiHashable(key: Key)
    requires |key| <= 0x100_0000 && forall i :: 0 <= i < |key| ==> key[i] < 128
    ensures Hashable(key)
  {
    forall i | 0 <= i <= |key|
      ensures -0x8000_0000 <= Sum(key[..i]) < 0x8000_0000
    {
      AsciiSum(key[..i]);
    }
    AsciiSum(key);
  }

  /** A single byte above 127 has none. */
  lemma {:induction false} NoSlot(key: Key)
    requires |key| == 1 && key[0] >= 128
    ensures Rem(Sum(key), TABLE_SIZE) == Char(key[0]) < 0 && !Hashable(key)
  {
    assert key[..0] == [];
    assert Sum(key) == Sum(key[..0]) + Char(key[0]);
  }

  ghost predicate Keeps(n: HashNode, rec: Record)
    reads n
  {
    rec == Record(Item(n.key, n.value), n.timestamp)
  }

  function NodeAt(chain: seq<HashNode>, j: nat): HashNode? { if j < |chain| then chain[j] else null }

  /** `head` starts the linked list `chain`, which holds `recs`. */
  ghost predicate Chained(head: HashNode?, chain: seq<HashNode>, recs: seq<Record>)
    reads chain
  {
    && |chain| == |recs| && head == NodeAt(chain, 0)
    && forall j {:trigger recs[j]} :: 0 <= j < |recs| ==>
         Keeps(chain[j], recs[j]) && chain[j].next == NodeAt(chain, j + 1)
  }

  // ----- the slots together

  function Concat(rs: seq<seq<Record>>): seq<Record> {
    if rs == [] then [] else Concat(rs[..|rs| - 1]) + rs[|rs| - 1]
  }

  lemma {:induction false} ConcatCut(rs: seq<seq<Record>>, s: nat)
    requires s < |rs|
    ensures Concat(rs) == Concat(rs[..s]) + rs[s] + Concat(rs[s + 1..])
  {
    var m := |rs| - 1;
    if s == m {
      assert rs[s + 1..] == [];
    } else {
      ConcatCut(rs[..m], s);
      assert rs[..m][..s] == rs[..s] && rs[..m][s + 1..] == rs[s + 1..][..m - s - 1];
      assert rs[s + 1..][m - s - 1] == rs[m];
    }
  }

  lemma {:induction false} ConcatMember(rs: seq<seq<Record>>, rec: Record)
    ensures rec in Concat(rs) <==> exists s :: 0 <= s < |rs| && rec in rs[s]
  {
    if rs != [] {
      var m := |rs| - 1;
      ConcatMember(rs[..m], rec);
      if rec in Concat(rs[..m]) {
        var s :| 0 <= s < m && rec in rs[..m][s];
        assert rec in rs[s];
      }
      if s :| 0 <= s < |rs| && rec in rs[s] && s != m {
        assert rec in rs[..m][s];
      }
    }
  }

  /** Slot by slot: the records' keys belong there, and none occurs twice. */
  ghost predicate InSlot(recs: seq<Record>, s: nat) {
    UniqueKeys(recs) && forall j :: 0 <= j < |recs| ==> SlotOf(recs[j].it.key) == s && Hashable(recs[j].it.key)
  }

  ghost predicate Placed(rs: seq<seq<Record>>) {
    forall s {:trigger rs[s]} :: 0 <= s < |rs| ==> InSlot(rs[s], s)
  }

  lemma {:induction false} ConcatUnique(rs: seq<seq<Record>>)
    requires Placed(rs)
    ensures UniqueKeys(Concat(rs))
    ensures forall i :: 0 <= i < |Concat(rs)| ==> SlotOf(Concat(rs)[i].it.key) < |rs| && Hashable(Concat(rs)[i].it.key)
  {
    if rs != [] {
      var m := |rs| - 1;
      assert Placed(rs[..m]) by {
        forall s | 0 <= s < m ensures InSlot(rs[..m][s], s) { assert rs[..m][s] == rs[s]; }
      }
      ConcatUnique(rs[..m]);
      assert InSlot(rs[m], m);
    }
  }

  lemma {:induction false} InConcat(rs: seq<seq<Record>>, s: nat, j: nat)
    requires s < |rs| && j < |rs[s]|
    ensures rs[s][j] in Concat(rs)
  {
    assert rs[s][j] in rs[s];
    ConcatMember(rs, rs[s][j]);
  }

  /** A key is in the table exactly if it is in its slot. */
  lemma {:induction false} SlotLookup(rs: seq<seq<Record>>, key: Key)
    requires Placed(rs) && |rs| == TABLE_SIZE
    ensures key in TableOf(Concat(rs)) <==> exists j :: 0 <= j < |rs[SlotOf(key)]| && rs[SlotOf(key)][j].it.key == key
  {
    var d, s := Concat(rs), SlotOf(key);
    TableKey(d, key);
    if i :| 0 <= i < |d| && d[i].it.key == key {
      ConcatMember(rs, d[i]);
      var t :| 0 <= t < |rs| && d[i] in rs[t];
      var j :| 0 <= j < |rs[t]| && rs[t][j] == d[i];
      assert InSlot(rs[t], t);
    }
    if j :| 0 <= j < |rs[s]| && rs[s][j].it.key == key {
      InConcat(rs, s, j);
      var i :| 0 <= i < |d| && d[i] == rs[s][j];
    }
  }

  /** A slot is in use exactly if some key of the table belongs there. */
  lemma {:induction false} SlotUsed(rs: seq<seq<Record>>, s: nat)
    requires Placed(rs) && |rs| == TABLE_SIZE && s < TABLE_SIZE
    ensures rs[s] != [] <==> exists k :: k in TableOf(Concat(rs)) && SlotOf(k) == s
  {
    if rs[s] != [] {
      assert InSlot(rs[s], s);
      SlotStamp(rs, s, 0);
    }
    if k :| k in TableOf(Concat(rs)) && SlotOf(k) == s {
      SlotLookup(rs, k);
    }
  }

  lemma {:induction false} SlotStamp(rs: seq<seq<Record>>, s: nat, j: nat)
    requires Placed(rs) && s < |rs| && j < |rs[s]|
    ensures rs[s][j].it.key in TableOf(Concat(rs)) && TableOf(Concat(rs))[rs[s][j].it.key] == StampOf(rs[s][j])
  {
    InConcat(rs, s, j);
    ConcatUnique(rs);
    var i :| 0 <= i < |Concat(rs)| && Concat(rs)[i] == rs[s][j];
    TableAt(Concat(rs), i);
  }

  // ----- one slot changes

  /** A record comes to the front of its slot. */
  lemma PushTable(rs: seq<seq<Record>>, s: nat, rec: Record)
    requires Placed(rs) && |rs| == TABLE_SIZE && s == SlotOf(rec.it.key) && rec.it.key !in TableOf(Concat(rs))
    requires Hashable(rec.it.key)
    ensures var rs1 := rs[s := [rec] + rs[s]];
            Placed(rs1) && TableOf(Concat(rs1)) == TableOf(Concat(rs))[rec.it.key := StampOf(rec)]
            && |Concat(rs1)| == |Concat(rs)| + 1
  {
    var rs1 := rs[s := [rec] + rs[s]];
    SlotLookup(rs, rec.it.key);
    assert InSlot(rs[s], s);
    assert InSlot([rec] + rs[s], s);
    ConcatUnique(rs);
    ConcatUnique(rs1);
    PushConcat(rs, s, rec);
    InsertTable(Concat(rs[..s]), rec, rs[s] + Concat(rs[s + 1..]));
  }

  lemma PushConcat(rs: seq<seq<Record>>, s: nat, rec: Record)
    requires s < |rs|
    ensures Concat(rs) == Concat(rs[..s]) + (rs[s] + Concat(rs[s + 1..]))
    ensures Concat(rs[s := [rec] + rs[s]]) == Concat(rs[..s]) + [rec] + (rs[s] + Concat(rs[s + 1..]))
  {
    var rs1 := rs[s := [rec] + rs[s]];
    ConcatCut(rs, s);
    ConcatCut(rs1, s);
    assert rs1[..s] == rs[..s] && rs1[s + 1..] == rs[s + 1..];
  }

  lemma {:induction false} InsertTable(a: seq<Record>, rec: Record, b: seq<Record>)
    requires UniqueKeys(a + [rec] + b) && UniqueKeys(a + b)
    ensures TableOf(a + [rec] + b) == TableOf(a + b)[rec.it.key := StampOf(rec)]
  {
    var d, e := a + [rec] + b, a + b;
    assert d[|a|] == rec;
    forall r
      ensures r in e <==> r in d && r != d[|a|]
    {
      NotTwice(a, rec, b, r);
    }
    TableDrop(d, |a|, e);
    TableAt(d, |a|);
    BackIn(TableOf(d), TableOf(e), rec.it.key);
  }

  lemma NotTwice(a: seq<Record>, rec: Record, b: seq<Record>, r: Record)
    requires UniqueKeys(a + [rec] + b)
    ensures r in a + b <==> r in a + [rec] + b && r != rec
  {
    var d := a + [rec] + b;
    assert d[|a|] == rec;
    if r in a {
      var i :| 0 <= i < |a| && a[i] == r;
      assert d[i] == r;
    }
    if r in b {
      var i :| 0 <= i < |b| && b[i] == r;
      assert d[|a| + 1 + i] == r;
    }
  }

  lemma BackIn(t: Table, u: Table, k: Key)
    requires u == t - {k} && k in t
    ensures t == u[k := t[k]]
  {
  }

  /** A record leaves its slot. */
  lemma DropTable(rs: seq<seq<Record>>, s: nat, j: nat)
    requires Placed(rs) && s < |rs| && j < |rs[s]|
    ensures var rs1 := rs[s := RemoveAt(rs[s], j)];
            Placed(rs1) && TableOf(Concat(rs1)) == TableOf(Concat(rs)) - {rs[s][j].it.key}
            && |Concat(rs1)| + 1 == |Concat(rs)|
  {
    var rec, rs1 := rs[s][j], rs[s := RemoveAt(rs[s], j)];
    assert InSlot(rs[s], s);
    RemoveInSlot(rs[s], s, j);
    ConcatUnique(rs);
    ConcatUnique(rs1);
    DropConcat(rs, s, j);
    var a, b := Concat(rs[..s]) + rs[s][..j], rs[s][j + 1..] + Concat(rs[s + 1..]);
    assert (a + [rec] + b)[|a|] == rec;
    forall r
      ensures r in a + b <==> r in a + [rec] + b && r != rec
    {
      NotTwice(a, rec, b, r);
    }
    TableDrop(a + [rec] + b, |a|, a + b);
  }

  lemma RemoveInSlot(recs: seq<Record>, s: nat, j: nat)
    requires InSlot(recs, s) && j < |recs|
    ensures InSlot(RemoveAt(recs, j), s)
  {
  }

  lemma {:induction false} DropConcat(rs: seq<seq<Record>>, s: nat, j: nat)
    requires s < |rs| && j < |rs[s]|
    ensures var a, b := Concat(rs[..s]) + rs[s][..j], rs[s][j + 1..] + Concat(rs[s + 1..]);
            Concat(rs) == a + [rs[s][j]] + b && Concat(rs[s := RemoveAt(rs[s], j)]) == a + b
  {
    var rs1 := rs[s := RemoveAt(rs[s], j)];
    ConcatCut(rs, s);
    ConcatCut(rs1, s);
    assert rs1[..s] == rs[..s] && rs1[s + 1..] == rs[s + 1..];
    assert rs[s] == rs[s][..j] + [rs[s][j]] + rs[s][j + 1..];
  }

  /** A record is overwritten in its slot. */
  lemma PutTable(rs: seq<seq<Record>>, s: nat, j: nat, rec: Record)
    requires Placed(rs) && s < |rs| && j < |rs[s]| && rec.it.key == rs[s][j].it.key
    ensures var rs1 := rs[s := rs[s][j := rec]];
            Placed(rs1) && TableOf(Concat(rs1)) == TableOf(Concat(rs))[rec.it.key := StampOf(rec)]
            && |Concat(rs1)| == |Concat(rs)|
  {
    hide Concat;
    var rs1 := rs[s := rs[s][j := rec]];
    assert InSlot(rs[s], s);
    assert InSlot(rs[s][j := rec], s);
    ConcatUnique(rs);
    ConcatCut(rs, s);
    ConcatCut(rs1, s);
    assert rs1[..s] == rs[..s] && rs1[s + 1..] == rs[s + 1..];
    var i := |Concat(rs[..s])| + j;
    assert Concat(rs1) == Concat(rs)[i := rec];
    TableUpdate(Concat(rs), i, rec);
  }

  // ----- positions in the slot-by-slot order

  function Start(rs: seq<seq<Record>>, s: nat): nat
    requires s <= |rs|
  {
    |Concat(rs[..s])|
  }

  lemma {:induction false} StartNext(rs: seq<seq<Record>>, s: nat)
    requires s < |rs|
    ensures Start(rs, s + 1) == Start(rs, s) + |rs[s]| <= |Concat(rs)|
  {
    assert rs[..s + 1][..s] == rs[..s];
    ConcatCut(rs, s);
  }

  lemma {:induction false} DataAt(rs: seq<seq<Record>>, s: nat, j: nat)
    requires s < |rs| && j < |rs[s]|
    ensures Start(rs, s) + j < |Concat(rs)| && Concat(rs)[Start(rs, s) + j] == rs[s][j]
  {
    ConcatCut(rs, s);
  }
}
