/** Lists whose keys are kept in fields of a fixed size. A key that is too long is compared as it is and
    kept cut, so a key can come to stand in the list more than once. */
module LongKeys {
  import opened Keys
  import opened SortedItems

  const FIELD: nat := 255

  /** Keys and values are kept in fixed-size fields. */
  function Cut(v: Value): Value { if |v| > FIELD then v[..FIELD] else v }

  ghost predicate Kept(w: seq<Item>) { forall i {:trigger w[i]} :: 0 <= i < |w| ==> |w[i].key| <= FIELD }

  /** In order, but a key may come several times. */
  ghost predicate Ascending(w: seq<Item>) {
    forall i, j :: 0 <= i < j < |w| ==> !Less(w[j].key, w[i].key)
  }

  lemma SortedAscends(w: seq<Item>)
    requires Sorted(w)
    ensures Ascending(w)
  {
    TotalOrder();
  }

  lemma PastRank(w: seq<Item>, key: Key, i: nat)
    requires Ascending(w) && Rank(w, key) <= i < |w|
    ensures !Less(w[i].key, key)
  {
    TotalOrder();
    var r := Rank(w, key);
    assert r < i ==> !Less(w[i].key, w[r].key);
  }

  /** The first item at or above a key shows whether the key is there. */
  lemma HasSome(w: seq<Item>, key: Key, i: nat)
    requires Ascending(w) && i < |w| && w[i].key == key
    ensures Has(w, key)
  {
    TotalOrder();
    var r := Rank(w, key);
    assert r <= i && !Less(w[r].key, key);
    assert r < i ==> !Less(w[i].key, w[r].key);
  }

  lemma RemoveAscends(w: seq<Item>, j: nat)
    requires Ascending(w) && j < |w|
    ensures Ascending(RemoveAt(w, j))
  {
  }

  lemma SameKeysAscend(w: seq<Item>, v: seq<Item>)
    requires |v| == |w| && forall i :: 0 <= i < |w| ==> v[i].key == w[i].key
    ensures Ascending(w) ==> Ascending(v)
    ensures Sorted(w) <==> Sorted(v)
  {
    if Ascending(w) {
      forall i, j | 0 <= i < j < |v|
        ensures !Less(v[j].key, v[i].key)
      {
        assert !Less(w[j].key, w[i].key);
      }
    }
    if Sorted(w) { SameKeysSorted(w, v); }
    if Sorted(v) { SameKeysSorted(v, w); }
  }

  // ----- keys too long for their field

  /** Keys that fit the field compare alike with a longer key and with what is kept of it. */
  lemma {:induction false} LessCut(x: Key, key: Key, n: nat)
    requires |x| <= n < |key| && x != key[..n]
    ensures Less(x, key) == Less(x, key[..n]) && x != key
  {
    if x != [] && x[0] == key[0] {
      assert key[..n][1..] == key[1..][..n - 1] && x == [x[0]] + x[1..] && key[..n] == [key[0]] + key[1..][..n - 1];
      LessCut(x[1..], key[1..], n - 1);
    }
  }

  /** A long key is never found. */
  lemma LongAbsent(w: seq<Item>, key: Key)
    requires Kept(w) && |key| > FIELD
    ensures !Has(w, key)
  {
  }

  /** What is kept of a key is not below the keys below it, nor above those that are not. */
  lemma CutBounds(x: Key, key: Key)
    requires |x| <= FIELD
    ensures if Less(x, key) then !Less(Cut(key), x) else !Less(x, Cut(key))
  {
    hide Less;
    TotalOrder();
    if |key| > FIELD && x != Cut(key) {
      LessCut(x, key, FIELD);
    }
  }

  function Spliced<T>(s: seq<T>, r: nat, x: T): seq<T>
    requires r <= |s|
  {
    s[..r] + [x] + s[r..]
  }

  /** Put where the search for the whole key ends, what is kept of it never leaves the order. */
  lemma SplicedAscends(w: seq<Item>, key: Key, val: Value)
    requires Ascending(w) && Kept(w)
    ensures Ascending(Spliced(w, Rank(w, key), Item(Cut(key), val)))
  {
    hide Less, Cut, Rank;
    var r, v := Rank(w, key), Spliced(w, Rank(w, key), Item(Cut(key), val));
    forall i | 0 <= i < |w|
      ensures if i < r then !Less(Cut(key), w[i].key) else !Less(w[i].key, Cut(key))
    {
      CutBounds(w[i].key, key);
      if i >= r { PastRank(w, key, i); }
    }
    forall i, j | 0 <= i < j < |v|
      ensures !Less(v[j].key, v[i].key)
    {
      assert v[i] == if i < r then w[i] else if i == r then Item(Cut(key), val) else w[i - 1];
      assert v[j] == if j < r then w[j] else if j == r then Item(Cut(key), val) else w[j - 1];
    }
  }

  /** What is kept of a long key belongs where the search for the long key ends, unless it is there already. */
  lemma CutRank(w: seq<Item>, key: Key)
    requires Ascending(w) && Kept(w) && !Has(w, key) && (|key| > FIELD ==> !Has(w, Cut(key)))
    ensures !Has(w, Cut(key)) && Rank(w, Cut(key)) == Rank(w, key)
  {
    if |key| > FIELD {
      var cut := Cut(key);
      forall i | 0 <= i < |w|
        ensures Less(w[i].key, key) == Less(w[i].key, cut)
      {
        if w[i].key == cut { HasSome(w, cut, i); }
        LessCut(w[i].key, key, FIELD);
      }
      RankUnique(w, cut, Rank(w, key));
    }
  }

  /** The keys are all different afterwards exactly if they were before and what is kept of the new key
      was not there. */
  lemma SplicedStrict(w: seq<Item>, key: Key, val: Value)
    requires Ascending(w) && Kept(w) && !Has(w, key)
    ensures Sorted(Spliced(w, Rank(w, key), Item(Cut(key), val))) <==>
              Sorted(w) && (|key| <= FIELD || !Has(w, Cut(key)))
  {
    hide Sorted, Rank, Less, Kept, Cut, Has;
    var r, it := Rank(w, key), Item(Cut(key), val);
    if Sorted(Spliced(w, r, it)) { SplicedFrom(w, r, it); }
    if |key| > FIELD && Has(w, it.key) {
      var j := AtRank(w, it.key);
      assert w[..r] + w[r..] == w;
      Doubled(w[..r], it, w[r..], j);
    } else {
      CutRank(w, key);
      if Sorted(w) { UpsertSorted(w, it); }
    }
  }

  lemma AtRank(w: seq<Item>, key: Key) returns (j: nat)
    requires Has(w, key)
    ensures j < |w| && w[j].key == key
  {
    j := Rank(w, key);
  }

  lemma SplicedFrom(w: seq<Item>, r: nat, it: Item)
    requires r <= |w| && Sorted(Spliced(w, r, it))
    ensures Sorted(w)
  {
    RemoveSorted(Spliced(w, r, it), r);
    assert RemoveAt(Spliced(w, r, it), r) == w;
  }

  lemma Doubled(a: seq<Item>, it: Item, b: seq<Item>, j: nat)
    requires j < |a + b| && (a + b)[j].key == it.key
    ensures !Sorted(a + [it] + b)
  {
    var w := a + [it] + b;
    StrcmpZero(it.key, it.key);
    if j < |a| {
      assert w[j].key == w[|a|].key;
    } else {
      assert w[j + 1].key == w[|a|].key;
    }
  }
}
