/** Sorted item sequences as finite maps: what the sequence operations mean to a caller who only
    sees keys and values. */
module SortedMaps {
  import opened Keys
  import opened SortedItems

  lemma {:induction false} KeyInMap(s: seq<Item>, k: Key)
    ensures k in ToMap(s) <==> exists i :: 0 <= i < |s| && s[i].key == k
  {
    if s != [] {
      var n := |s| - 1;
      KeyInMap(s[..n], k);
      if k in ToMap(s) && s[n].key != k {
        var i :| 0 <= i < n && s[..n][i].key == k;
        assert s[i].key == k;
      }
      if i :| 0 <= i < n && s[i].key == k {
        assert s[..n][i].key == k;
      }
    }
  }

  lemma {:induction false} ValueInMap(s: seq<Item>, i: nat)
    requires Sorted(s) && i < |s|
    ensures s[i].key in ToMap(s) && ToMap(s)[s[i].key] == s[i].val
  {
    TotalOrder();
    var n := |s| - 1;
    if i < n {
      assert Less(s[i].key, s[n].key);
      assert s[..n][i] == s[i];
      ValueInMap(s[..n], i);
    }
  }

  /** Looking a key up in the sequence is looking it up in the map. */
  lemma {:induction false} LookupMeans(s: seq<Item>, k: Key)
    requires Sorted(s)
    ensures k in ToMap(s) <==> Lookup(s, k).Some?
    ensures k in ToMap(s) ==> Lookup(s, k) == Some(Item(k, ToMap(s)[k]))
  {
    KeyInMap(s, k);
    if Has(s, k) {
      ValueInMap(s, Rank(s, k));
    } else if i :| 0 <= i < |s| && s[i].key == k {
      TotalOrder();
      RankUnique(s, k, i);
    }
  }

  lemma UpsertKeys(s: seq<Item>, it: Item, k: Key)
    requires Sorted(s)
    ensures Lookup(Upsert(s, it), k) == if k == it.key then Some(it) else Lookup(s, k)
  {
    TotalOrder();
    var r, t := Rank(s, it.key), Upsert(s, it);
    UpsertSorted(s, it);
    if k == it.key {
      RankUnique(t, k, r);
    } else {
      var j := Rank(s, k);
      var shift := if Has(s, it.key) || Less(k, it.key) then 0 else 1;
      UpsertRank(s, it, k, j + shift);
    }
  }

  lemma {:induction false} UpsertRank(s: seq<Item>, it: Item, k: Key, j: nat)
    requires Sorted(s) && k != it.key
    requires j == Rank(s, k) + if Has(s, it.key) || Less(k, it.key) then 0 else 1
    ensures Rank(Upsert(s, it), k) == j
    ensures j < |Upsert(s, it)| && Upsert(s, it)[j].key == k <==> Has(s, k)
    ensures Has(s, k) ==> Upsert(s, it)[j] == s[Rank(s, k)]
  {
    hide Rank;
    TotalOrder();
    UpsertSorted(s, it);
    RankUnique(Upsert(s, it), k, j);
  }

  /** Inserting or replacing an item updates the map at its key and nowhere else. */
  lemma {:induction false} UpsertMeans(s: seq<Item>, it: Item)
    requires Sorted(s)
    ensures ToMap(Upsert(s, it)) == ToMap(s)[it.key := it.val]
  {
    var t := Upsert(s, it);
    UpsertSorted(s, it);
    forall k: Key
      ensures k in ToMap(t) <==> k in ToMap(s)[it.key := it.val]
      ensures k in ToMap(t) ==> ToMap(t)[k] == ToMap(s)[it.key := it.val][k]
    {
      LookupMeans(s, k);
      LookupMeans(t, k);
      UpsertKeys(s, it, k);
    }
  }

  lemma RemoveKeys(s: seq<Item>, j: nat, k: Key)
    requires Sorted(s) && j < |s|
    ensures Lookup(RemoveAt(s, j), k) == if k == s[j].key then None else Lookup(s, k)
  {
    TotalOrder();
    var t, r := RemoveAt(s, j), Rank(s, k);
    if k == s[j].key {
      RankUnique(t, k, j);
    } else {
      var i := if Less(k, s[j].key) then r else r - 1;
      assert Less(s[j].key, k) ==> r > j by {
        if r <= j && Less(s[j].key, k) { assert false; }
      }
      RankUnique(t, k, i);
    }
  }

  /** Removing an item takes exactly its key out of the map. */
  lemma {:induction false} RemoveMeans(s: seq<Item>, j: nat)
    requires Sorted(s) && j < |s|
    ensures ToMap(RemoveAt(s, j)) == ToMap(s) - {s[j].key}
  {
    var t := RemoveAt(s, j);
    RemoveSorted(s, j);
    forall k: Key
      ensures k in ToMap(t) <==> k in ToMap(s) - {s[j].key}
      ensures k in ToMap(t) ==> ToMap(t)[k] == (ToMap(s) - {s[j].key})[k]
    {
      LookupMeans(s, k);
      LookupMeans(t, k);
      RemoveKeys(s, j, k);
    }
  }

  /** The map has as many keys as the sequence has items. */
  lemma {:induction false} CountMeans(s: seq<Item>)
    requires Sorted(s)
    ensures |ToMap(s)| == |s|
  {
    if s != [] {
      var n := |s| - 1;
      CountMeans(s[..n]);
      KeyInMap(s[..n], s[n].key);
      TotalOrder();
      assert s[n].key !in ToMap(s[..n]);
    }
  }

  /** A map has only one sorted listing. */
  lemma {:induction false} MapDetermines(s: seq<Item>, r: seq<Item>)
    requires Sorted(s) && Sorted(r) && ToMap(s) == ToMap(r)
    ensures s == r
  {
    hide ToMap;
    CountMeans(s);
    CountMeans(r);
    if s != [] {
      var n := |s| - 1;
      SameLast(s, r);
      assert s[n] == r[n];
      RemoveMeans(s, n);
      RemoveMeans(r, n);
      assert RemoveAt(s, n) == s[..n] && RemoveAt(r, n) == r[..n];
      MapDetermines(s[..n], r[..n]);
      assert s == s[..n] + [s[n]] && r == r[..n] + [r[n]];
    }
  }

  lemma {:induction false} GreatestKey(s: seq<Item>, k: Key)
    requires Sorted(s) && k in ToMap(s)
    ensures s != [] && (k == s[|s| - 1].key || Less(k, s[|s| - 1].key))
  {
    KeyInMap(s, k);
  }

  lemma NotBothLess(a: Key, b: Key)
    requires a == b || Less(a, b)
    requires b == a || Less(b, a)
    ensures a == b
  {
    StrcmpFlip(a, b);
  }

  lemma {:induction false} SameLast(s: seq<Item>, r: seq<Item>)
    requires Sorted(s) && Sorted(r) && ToMap(s) == ToMap(r) && s != [] && |r| == |s|
    ensures s[|s| - 1] == r[|s| - 1]
  {
    var n := |s| - 1;
    var x, y := s[n], r[n];
    assert x.key in ToMap(s) && ToMap(s)[x.key] == x.val by { ValueInMap(s, n); }
    assert y.key in ToMap(r) && ToMap(r)[y.key] == y.val by { ValueInMap(r, n); }
    assert x.key == y.key by {
      GreatestKey(r, x.key);
      GreatestKey(s, y.key);
      NotBothLess(x.key, y.key);
    }
  }
}
