/** The records of a key range, and the pass over a sorted list that finds them. */
module RecordRanges {
  import opened Keys
  import opened SortedRanges
  import opened Records
  import opened LongKeys

  /** The records with keys in `[lo, hi]`, in their order. */
  function Select(d: seq<Record>, lo: Key, hi: Key): (r: seq<Record>)
    ensures |r| <= |d|
  {
    if d == [] then []
    else Select(d[..|d| - 1], lo, hi) + if Within(d[|d| - 1].it.key, lo, hi) then [d[|d| - 1]] else []
  }

  /** Both ends of a range belong to it. */
  lemma {:induction false} SelectMeans(d: seq<Record>, lo: Key, hi: Key, rec: Record)
    ensures rec in Select(d, lo, hi) <==> rec in d && Strcmp(lo, rec.it.key) <= 0 && Strcmp(rec.it.key, hi) <= 0
  {
    if d != [] {
      var n := |d| - 1;
      assert d == d[..n] + [d[n]];
      SelectMeans(d[..n], lo, hi, rec);
      StrcmpFlip(lo, rec.it.key);
      StrcmpFlip(rec.it.key, hi);
    }
  }

  lemma {:induction false} SelectItems(d: seq<Record>, lo: Key, hi: Key)
    ensures ItemsOf(Select(d, lo, hi)) == Between(ItemsOf(d), lo, hi)
  {
    if d != [] {
      var n := |d| - 1;
      SelectItems(d[..n], lo, hi);
      assert ItemsOf(d)[..n] == ItemsOf(d[..n]);
      ItemsSnoc(Select(d[..n], lo, hi), d[n]);
    } else {
      assert ItemsOf(d) == [] && ItemsOf(Select(d, lo, hi)) == [];
    }
  }

  lemma ItemsSnoc(s: seq<Record>, rec: Record)
    ensures ItemsOf(s + [rec]) == ItemsOf(s) + [rec.it] && ItemsOf(s + []) == ItemsOf(s)
  {
    assert s + [] == s;
  }

  lemma {:induction false} SelectJoin(a: seq<Record>, b: seq<Record>, lo: Key, hi: Key)
    ensures Select(a + b, lo, hi) == Select(a, lo, hi) + Select(b, lo, hi)
  {
    if b == [] {
      assert a + b == a;
    } else {
      var n := |b| - 1;
      assert (a + b)[..|a + b| - 1] == a + b[..n];
      SelectJoin(a, b[..n], lo, hi);
    }
  }

  lemma {:induction false} SelectNext(d: seq<Record>, lo: Key, hi: Key, end: nat)
    requires end < |d|
    ensures Select(d[..end + 1], lo, hi)
         == Select(d[..end], lo, hi) + if Within(d[end].it.key, lo, hi) then [d[end]] else []
  {
    assert d[..end + 1][..end] == d[..end];
  }

  lemma {:induction false} SelectNone(d: seq<Record>, lo: Key, hi: Key)
    requires forall i :: 0 <= i < |d| ==> !Within(d[i].it.key, lo, hi)
    ensures Select(d, lo, hi) == []
  {
    if d != [] { SelectNone(d[..|d| - 1], lo, hi); }
  }

  /** From the first record above `hi` on there is nothing to find. */
  lemma {:induction false} SelectEnd(d: seq<Record>, lo: Key, hi: Key, end: nat)
    requires Ascending(ItemsOf(d)) && end <= |d| && (end < |d| ==> Less(hi, d[end].it.key))
    ensures Select(d, lo, hi) == Select(d[..end], lo, hi)
  {
    assert d == d[..end] + d[end..];
    SelectJoin(d[..end], d[end..], lo, hi);
    forall i | 0 <= i < |d| - end
      ensures !Within(d[end..][i].it.key, lo, hi)
    {
      var w := ItemsOf(d);
      TotalOrder();
      assert i > 0 ==> !Less(w[end + i].key, w[end].key);
    }
    SelectNone(d[end..], lo, hi);
  }

  lemma {:induction false} SelectGrows(d: seq<Record>, lo: Key, hi: Key, i: nat)
    requires i <= |d|
    ensures |Select(d[..i], lo, hi)| <= |Select(d, lo, hi)|
  {
    assert d == d[..i] + d[i..];
    SelectJoin(d[..i], d[i..], lo, hi);
  }

  /** One record of a collecting pass: it is appended if it matches. */
  method Keep(items: array<Record>, index0: nat, rec: Record, matches: bool,
              ghost d: seq<Record>, ghost lo: Key, ghost hi: Key, ghost i: nat) returns (index: nat)
    requires i < |d| && rec == d[i] && matches == Within(rec.it.key, lo, hi)
    requires index0 <= items.Length && items[..index0] == Select(d[..i], lo, hi)
    requires |Select(d, lo, hi)| <= items.Length
    modifies items
    ensures index <= items.Length && items[..index] == Select(d[..i + 1], lo, hi)
  {
    index := index0;
    SelectNext(d, lo, hi, i);
    SelectGrows(d, lo, hi, i + 1);
    if matches {
      items[index] := rec;
      index := index + 1;
    }
  }
}
