/** Records in any order as a finite map, and the one sorted listing such a map has. */
module RecordTables {
  import opened Keys
  import opened SortedItems
  import opened SortedRanges
  import opened Records
  import opened RecordRanges

  datatype Stamp = Stamp(val: Value, ts: nat)
  type Table = map<Key, Stamp>

  ghost predicate UniqueKeys(d: seq<Record>) {
    forall i, j :: 0 <= i < j < |d| ==> d[i].it.key != d[j].it.key
  }

  function StampOf(rec: Record): Stamp { Stamp(rec.it.val, rec.ts) }

  /** The table without its timestamps. */
  function ValuesOf(t: Table): map<Key, Value> { map k | k in t :: t[k].val }

  function TableOf(d: seq<Record>): Table {
    if d == [] then map[] else TableOf(d[..|d| - 1])[d[|d| - 1].it.key := StampOf(d[|d| - 1])]
  }

  lemma {:induction false} TableKey(d: seq<Record>, k: Key)
    ensures k in TableOf(d) <==> exists i :: 0 <= i < |d| && d[i].it.key == k
  {
    if d != [] {
      var n := |d| - 1;
      TableKey(d[..n], k);
      if k in TableOf(d) && d[n].it.key != k {
        var i :| 0 <= i < n && d[..n][i].it.key == k;
        assert d[i].it.key == k;
      }
      if i :| 0 <= i < n && d[i].it.key == k {
        assert d[..n][i].it.key == k;
      }
    }
  }

  lemma {:induction false} TableAt(d: seq<Record>, i: nat)
    requires UniqueKeys(d) && i < |d|
    ensures d[i].it.key in TableOf(d) && TableOf(d)[d[i].it.key] == StampOf(d[i])
  {
    var n := |d| - 1;
    if i < n {
      assert d[..n][i] == d[i];
      TableAt(d[..n], i);
    }
  }

  /** Two lists with the same records have the same table. */
  lemma {:induction false} SameTable(d: seq<Record>, e: seq<Record>)
    requires UniqueKeys(d) && UniqueKeys(e)
    requires forall rec :: rec in d <==> rec in e
    ensures TableOf(d) == TableOf(e)
  {
    forall k: Key
      ensures k in TableOf(d) <==> k in TableOf(e)
      ensures k in TableOf(d) ==> TableOf(d)[k] == TableOf(e)[k]
    {
      TableKey(d, k);
      TableKey(e, k);
      if i :| 0 <= i < |d| && d[i].it.key == k {
        assert d[i] in e;
        var j :| 0 <= j < |e| && e[j] == d[i];
        TableAt(d, i);
        TableAt(e, j);
      }
      if j :| 0 <= j < |e| && e[j].it.key == k {
        assert e[j] in d;
      }
    }
  }

  lemma {:induction false} TableAppend(d: seq<Record>, rec: Record)
    ensures TableOf(d + [rec]) == TableOf(d)[rec.it.key := StampOf(rec)]
  {
    assert (d + [rec])[..|d|] == d;
  }

  /** Overwriting the record of a key in place. */
  lemma TableUpdate(d: seq<Record>, i: nat, rec: Record)
    requires UniqueKeys(d) && i < |d| && rec.it.key == d[i].it.key
    ensures UniqueKeys(d[i := rec]) && TableOf(d[i := rec]) == TableOf(d)[rec.it.key := StampOf(rec)]
  {
    var e := d[i := rec];
    forall k: Key
      ensures k in TableOf(e) <==> k in TableOf(d)[rec.it.key := StampOf(rec)]
      ensures k in TableOf(e) ==> TableOf(e)[k] == TableOf(d)[rec.it.key := StampOf(rec)][k]
    {
      TableKey(d, k);
      TableKey(e, k);
      if j :| 0 <= j < |d| && d[j].it.key == k {
        assert e[j].it.key == k;
        TableAt(d, j);
        TableAt(e, j);
      }
      if j :| 0 <= j < |e| && e[j].it.key == k {
        assert d[j].it.key == k;
      }
    }
  }

  /** Dropping one record of a list, in whatever order the others end up. */
  lemma {:induction false} TableDrop(d: seq<Record>, i: nat, e: seq<Record>)
    requires UniqueKeys(d) && i < |d| && UniqueKeys(e)
    requires forall rec :: rec in e <==> rec in d && rec != d[i]
    ensures TableOf(e) == TableOf(d) - {d[i].it.key}
  {
    forall k: Key
      ensures k in TableOf(e) <==> k in TableOf(d) - {d[i].it.key}
      ensures k in TableOf(e) ==> TableOf(e)[k] == TableOf(d)[k]
    {
      TableKey(d, k);
      TableKey(e, k);
      if j :| 0 <= j < |e| && e[j].it.key == k {
        assert e[j] in d;
        var j1 :| 0 <= j1 < |d| && d[j1] == e[j];
        TableAt(d, j1);
        TableAt(e, j);
      }
      if j :| 0 <= j < |d| && d[j].it.key == k && j != i {
        assert d[j] in e;
      }
    }
  }

  // ----- sorting

  lemma SortedUnique(d: seq<Record>)
    requires Sorted(ItemsOf(d))
    ensures UniqueKeys(d)
  {
    TotalOrder();
    forall i, j | 0 <= i < j < |d|
      ensures d[i].it.key != d[j].it.key
    {
      assert Less(ItemsOf(d)[i].key, ItemsOf(d)[j].key);
    }
  }

  lemma {:induction false} GreatestRecord(d: seq<Record>, k: Key)
    requires Sorted(ItemsOf(d)) && k in TableOf(d)
    ensures d != [] && (k == d[|d| - 1].it.key || Less(k, d[|d| - 1].it.key))
  {
    TableKey(d, k);
    var i :| 0 <= i < |d| && d[i].it.key == k;
    if i < |d| - 1 { assert Less(ItemsOf(d)[i].key, ItemsOf(d)[|d| - 1].key); }
  }

  /** A table has only one sorted listing. */
  lemma {:induction false} TableDetermines(d: seq<Record>, e: seq<Record>)
    requires Sorted(ItemsOf(d)) && Sorted(ItemsOf(e)) && TableOf(d) == TableOf(e)
    ensures d == e
    decreases |d|
  {
    if d == [] {
      LastKey(e);
    } else {
      var n, m := |d| - 1, |e| - 1;
      assert d[n].it.key in TableOf(d);
      SameGreatest(d, e);
      var d1, e1 := d[..n], e[..m];
      SortedUnique(d);
      SortedUnique(e);
      DropLast(d);
      DropLast(e);
      assert Sorted(ItemsOf(d1)) && Sorted(ItemsOf(e1)) by {
        assert ItemsOf(d1) == ItemsOf(d)[..n] && ItemsOf(e1) == ItemsOf(e)[..m];
      }
      TableDetermines(d1, e1);
      assert d == d1 + [d[n]] && e == e1 + [e[m]];
    }
  }

  lemma LastKey(d: seq<Record>)
    ensures d != [] ==> d[|d| - 1].it.key in TableOf(d)
  {
  }

  lemma {:induction false} DropLast(d: seq<Record>)
    requires UniqueKeys(d) && d != []
    ensures TableOf(d[..|d| - 1]) == TableOf(d) - {d[|d| - 1].it.key}
  {
    var n := |d| - 1;
    TableKey(d[..n], d[n].it.key);
    NotIn(TableOf(d[..n]), d[n].it.key, StampOf(d[n]));
  }

  lemma NotIn(t: Table, k: Key, v: Stamp)
    requires k !in t
    ensures t[k := v] - {k} == t
  {
  }

  lemma {:induction false} SameGreatest(d: seq<Record>, e: seq<Record>)
    requires Sorted(ItemsOf(d)) && Sorted(ItemsOf(e)) && TableOf(d) == TableOf(e) && d != []
    ensures e != [] && d[|d| - 1] == e[|e| - 1]
  {
    var x := d[|d| - 1];
    assert x.it.key in TableOf(d) && TableOf(d)[x.it.key] == StampOf(x);
    GreatestRecord(e, x.it.key);
    var y := e[|e| - 1];
    assert y.it.key in TableOf(e) && TableOf(e)[y.it.key] == StampOf(y);
    GreatestRecord(d, y.it.key);
    StrcmpFlip(x.it.key, y.it.key);
  }

  lemma {:induction false} AppendUnique(d: seq<Record>, rec: Record)
    requires UniqueKeys(d) && rec.it.key !in TableOf(d)
    ensures UniqueKeys(d + [rec])
  {
    forall i | 0 <= i < |d|
      ensures d[i].it.key != rec.it.key
    {
      TableKey(d, d[i].it.key);
    }
  }

  lemma {:induction false} HasAt(w: seq<Item>, i: nat)
    requires Sorted(w) && i < |w|
    ensures Has(w, w[i].key) && Rank(w, w[i].key) == i
  {
    assert w == w[..i] + [w[i]] + w[i + 1..];
    CutSides(w[..i], w[i], w[i + 1..]);
    RankHere(w[..i], w[i], w[i + 1..]);
  }

  /** Looking a key up by its rank in a sorted list. */
  lemma {:induction false} TableRank(d: seq<Record>, k: Key)
    requires Sorted(ItemsOf(d))
    ensures Has(ItemsOf(d), k) <==> k in TableOf(d)
    ensures Has(ItemsOf(d), k) ==> TableOf(d)[k] == StampOf(d[Rank(ItemsOf(d), k)])
  {
    var w := ItemsOf(d);
    var r := Rank(w, k);
    SortedUnique(d);
    TableKey(d, k);
    if Has(w, k) {
      TableAt(d, r);
    } else if i :| 0 <= i < |d| && d[i].it.key == k {
      HasAt(w, i);
    }
  }

  lemma {:induction false} PutSorted(d: seq<Record>, rec: Record)
    requires Sorted(ItemsOf(d))
    ensures Sorted(ItemsOf(Put(d, rec))) && TableOf(Put(d, rec)) == TableOf(d)[rec.it.key := StampOf(rec)]
  {
    var r, e := Rank(ItemsOf(d), rec.it.key), Put(d, rec);
    SortedUnique(d);
    TableRank(d, rec.it.key);
    PutItems(d, rec);
    UpsertSorted(ItemsOf(d), rec.it);
    if Has(ItemsOf(d), rec.it.key) {
      TableUpdate(d, r, rec);
    } else {
      AppendUnique(d, rec);
      SortedUnique(e);
      assert d == d[..r] + d[r..];
      SameTable(e, d + [rec]);
      TableAppend(d, rec);
    }
  }

  /** The part of a table with keys in `[lo, hi]`. */
  function Restrict(t: Table, lo: Key, hi: Key): Table {
    map k | k in t && Within(k, lo, hi) :: t[k]
  }

  lemma {:induction false} SelectMember(d: seq<Record>, lo: Key, hi: Key, rec: Record)
    ensures rec in Select(d, lo, hi) <==> rec in d && Within(rec.it.key, lo, hi)
  {
    if d != [] {
      SelectMember(d[..|d| - 1], lo, hi, rec);
      assert d == d[..|d| - 1] + [d[|d| - 1]];
    }
  }

  lemma {:induction false} SelectUnique(d: seq<Record>, lo: Key, hi: Key)
    requires UniqueKeys(d)
    ensures UniqueKeys(Select(d, lo, hi))
  {
    if d != [] {
      var n := |d| - 1;
      SelectUnique(d[..n], lo, hi);
      var s := Select(d[..n], lo, hi);
      forall i | 0 <= i < |s|
        ensures s[i].it.key != d[n].it.key
      {
        SelectMember(d[..n], lo, hi, s[i]);
        assert s[i] in d[..n];
      }
    }
  }

  lemma {:induction false} SelectTable(d: seq<Record>, lo: Key, hi: Key)
    requires UniqueKeys(d)
    ensures TableOf(Select(d, lo, hi)) == Restrict(TableOf(d), lo, hi)
  {
    var s := Select(d, lo, hi);
    SelectUnique(d, lo, hi);
    forall k: Key
      ensures k in TableOf(s) <==> k in Restrict(TableOf(d), lo, hi)
      ensures k in TableOf(s) ==> TableOf(s)[k] == TableOf(d)[k]
    {
      TableKey(d, k);
      TableKey(s, k);
      if i :| 0 <= i < |s| && s[i].it.key == k {
        SelectMember(d, lo, hi, s[i]);
        var j :| 0 <= j < |d| && d[j] == s[i];
        TableAt(s, i);
        TableAt(d, j);
      }
      if j :| 0 <= j < |d| && d[j].it.key == k {
        SelectMember(d, lo, hi, d[j]);
      }
    }
  }

  lemma {:induction false} SelectSorted(d: seq<Record>, lo: Key, hi: Key)
    requires Sorted(ItemsOf(d))
    ensures Sorted(ItemsOf(Select(d, lo, hi)))
  {
    if d != [] {
      var n := |d| - 1;
      var s := Select(d[..n], lo, hi);
      assert ItemsOf(d[..n]) == ItemsOf(d)[..n];
      SelectSorted(d[..n], lo, hi);
      forall i | 0 <= i < |s|
        ensures Less(s[i].it.key, d[n].it.key)
      {
        SelectMember(d[..n], lo, hi, s[i]);
        var j :| 0 <= j < n && d[..n][j] == s[i];
        assert Less(ItemsOf(d)[j].key, ItemsOf(d)[n].key);
      }
      SortedSnoc(s, d[n]);
    }
  }

  lemma SortedSnoc(s: seq<Record>, rec: Record)
    requires Sorted(ItemsOf(s)) && forall i :: 0 <= i < |s| ==> Less(s[i].it.key, rec.it.key)
    ensures Sorted(ItemsOf(s + [rec])) && Sorted(ItemsOf(s + []))
  {
    assert ItemsOf(s + [rec]) == ItemsOf(s) + [rec.it] && s + [] == s;
  }

  /** Sorting the records of a range gives the one sorted listing of that part of the table. */
  lemma {:induction false} SortedSelection(d: seq<Record>, e: seq<Record>, lo: Key, hi: Key, out: seq<Record>)
    requires UniqueKeys(d) && Sorted(ItemsOf(e)) && TableOf(d) == TableOf(e)
    requires Sorted(ItemsOf(out)) && forall rec :: rec in out <==> rec in Select(d, lo, hi)
    ensures out == Select(e, lo, hi)
  {
    SortedUnique(e);
    SortedUnique(out);
    SelectUnique(d, lo, hi);
    SameTable(out, Select(d, lo, hi));
    SelectTable(d, lo, hi);
    SelectTable(e, lo, hi);
    SelectSorted(e, lo, hi);
    TableDetermines(out, Select(e, lo, hi));
  }
}
