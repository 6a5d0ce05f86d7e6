/** Ordering collected records by key, as the C library's `qsort` does for the unordered engines. */
module Sorting {
  import opened Keys
  import opened SortedItems
  import opened Records
  import opened RecordTables

  ghost predicate SameRecords(d: seq<Record>, e: seq<Record>) {
    |d| == |e| && (forall rec :: rec in d <==> rec in e) && (UniqueKeys(d) ==> UniqueKeys(e))
  }

  /** Puts the first `n` records in key order, in place. */
  method Qsort(a: array<Record>, n: nat)
    requires n <= a.Length && UniqueKeys(a[..n])
    modifies a
    ensures Sorted(ItemsOf(a[..n])) && SameRecords(old(a[..n]), a[..n])
  {
    var i := 0;
    ghost var d := a[..n];
    while i < n
      invariant i <= n && SameRecords(d, a[..n]) && Sorted(ItemsOf(a[..i]))
    {
      SinkIn(a, i, n);
      i := i + 1;
    }
  }

  /** Moves record `i` down to its place among the sorted ones before it. */
  method SinkIn(a: array<Record>, i: nat, n: nat)
    requires i < n <= a.Length && UniqueKeys(a[..n]) && Sorted(ItemsOf(a[..i]))
    modifies a
    ensures Sorted(ItemsOf(a[..i + 1])) && SameRecords(old(a[..n]), a[..n])
  {
    var j: nat := i;
    ghost var d := a[..n];
    assert a[..n][..i] == a[..i];
    Opened(a[..n], i);
    while j > 0 && Strcmp(a[j - 1].it.key, a[j].it.key) > 0
      invariant j <= i && SameRecords(d, a[..n]) && Gapped(a[..n], i, j)
    {
      SwapDown(a[..n], i, j);
      a[j - 1], a[j] := a[j], a[j - 1];
      j := j - 1;
    }
    Settled(a[..n], i, j);
    assert a[..n][..i + 1] == a[..i + 1];
  }

  /** The records up to `i` are sorted except that record `j` may be less than ones before it. */
  ghost predicate Gapped(s: seq<Record>, i: nat, j: nat) {
    && j <= i < |s|
    && forall p, q :: 0 <= p < q <= i && q != j ==> Less(s[p].it.key, s[q].it.key)
  }

  lemma Opened(s: seq<Record>, i: nat)
    requires i < |s| && Sorted(ItemsOf(s[..i]))
    ensures Gapped(s, i, i)
  {
    var w := ItemsOf(s[..i]);
    forall p, q | 0 <= p < q <= i && q != i
      ensures Less(s[p].it.key, s[q].it.key)
    {
      assert Less(w[p].key, w[q].key);
    }
  }

  lemma SwapDown(s: seq<Record>, i: nat, j: nat)
    requires Gapped(s, i, j) && 0 < j && UniqueKeys(s) && Strcmp(s[j - 1].it.key, s[j].it.key) > 0
    ensures var t := s[j - 1 := s[j]][j := s[j - 1]]; Gapped(t, i, j - 1) && SameRecords(s, t)
  {
    var t := s[j - 1 := s[j]][j := s[j - 1]];
    StrcmpFlip(s[j - 1].it.key, s[j].it.key);
    forall rec
      ensures rec in s <==> rec in t
    {
      if rec in s {
        var k :| 0 <= k < |s| && s[k] == rec;
        assert t[if k == j then j - 1 else if k == j - 1 then j else k] == rec;
      }
    }
  }

  lemma Settled(s: seq<Record>, i: nat, j: nat)
    requires Gapped(s, i, j) && UniqueKeys(s) && (j == 0 || Strcmp(s[j - 1].it.key, s[j].it.key) <= 0)
    ensures Sorted(ItemsOf(s[..i + 1]))
  {
    if j > 0 {
      StrcmpZero(s[j - 1].it.key, s[j].it.key);
      forall p | 0 <= p < j
        ensures Less(s[p].it.key, s[j].it.key)
      {
        if p < j - 1 { LessTransitive(s[p].it.key, s[j - 1].it.key, s[j].it.key); }
      }
    }
  }
}
