/** The value every ordered structure of the repository stands for: a sequence of items in
    strictly increasing key order. It is the specification the in-place code is proved against. */
module SortedItems {
  import opened Keys

  datatype Option<T> = None | Some(value: T)
  datatype Item = Item(key: Key, val: Value)

  ghost predicate Sorted(s: seq<Item>) {
    forall i, j :: 0 <= i < j < |s| ==> Less(s[i].key, s[j].key)
  }

  ghost predicate Below(s: seq<Item>, k: Key) {
    forall i :: 0 <= i < |s| ==> Less(s[i].key, k)
  }

  ghost predicate Above(k: Key, s: seq<Item>) {
    forall i :: 0 <= i < |s| ==> Less(k, s[i].key)
  }

  /** How many leading items lie below `k`. */
  function Rank(s: seq<Item>, k: Key): (r: nat)
    ensures r <= |s|
    ensures forall i :: 0 <= i < r ==> Less(s[i].key, k)
    ensures r < |s| ==> !Less(s[r].key, k)
  {
    if s == [] || !Less(s[0].key, k) then 0 else 1 + Rank(s[1..], k)
  }

  predicate Has(s: seq<Item>, k: Key) {
    Rank(s, k) < |s| && s[Rank(s, k)].key == k
  }

  function Lookup(s: seq<Item>, k: Key): Option<Item> {
    if Has(s, k) then Some(s[Rank(s, k)]) else None
  }

  function Upsert(s: seq<Item>, it: Item): seq<Item> {
    var r := Rank(s, it.key);
    if Has(s, it.key) then s[r := it] else s[..r] + [it] + s[r..]
  }

  function RemoveAt<T>(s: seq<T>, j: nat): seq<T>
    requires j < |s|
  {
    s[..j] + s[j + 1..]
  }

  function ToMap(s: seq<Item>): map<Key, Value> {
    if s == [] then map[] else ToMap(s[..|s| - 1])[s[|s| - 1].key := s[|s| - 1].val]
  }

  // ----- cutting and joining sorted sequences

  lemma SortedParts(l: seq<Item>, m: seq<Item>, r: seq<Item>)
    requires Sorted(l + m + r)
    ensures Sorted(l) && Sorted(m) && Sorted(r) && Sorted(l + m) && Sorted(m + r)
    ensures forall i, j :: 0 <= i < |l| && 0 <= j < |m| ==> Less(l[i].key, m[j].key)
    ensures forall i, j :: 0 <= i < |m| && 0 <= j < |r| ==> Less(m[i].key, r[j].key)
    ensures forall i, j :: 0 <= i < |l| && 0 <= j < |r| ==> Less(l[i].key, r[j].key)
  {
    var s := l + m + r;
    assert forall i :: 0 <= i < |l| ==> s[i] == l[i];
    assert forall i :: 0 <= i < |m| ==> s[|l| + i] == m[i];
    assert forall i :: 0 <= i < |r| ==> s[|l| + |m| + i] == r[i];
  }

  lemma RankUnique(s: seq<Item>, k: Key, i: nat)
    requires i <= |s|
    requires forall j :: 0 <= j < i ==> Less(s[j].key, k)
    requires i < |s| ==> !Less(s[i].key, k)
    ensures Rank(s, k) == i
  {
  }

  lemma {:induction false} RankMiddle(l: seq<Item>, m: seq<Item>, r: seq<Item>, k: Key)
    requires Below(l, k) && Above(k, r)
    ensures Rank(l + m + r, k) == |l| + Rank(m, k)
    ensures Has(l + m + r, k) == Has(m, k)
  {
    TotalOrder();
    RankUnique(l + m + r, k, |l| + Rank(m, k));
  }

  lemma UpsertMiddle(l: seq<Item>, m: seq<Item>, r: seq<Item>, it: Item)
    requires Below(l, it.key) && Above(it.key, r)
    ensures Upsert(l + m + r, it) == l + Upsert(m, it) + r
    ensures Lookup(l + m + r, it.key) == Lookup(m, it.key)
  {
    RankMiddle(l, m, r, it.key);
    var j := Rank(m, it.key);
    if Has(m, it.key) {
      assert (l + m + r)[|l| + j := it] == l + m[j := it] + r;
    } else {
      InsertMiddle(l, m, r, j, it);
    }
  }

  lemma InsertMiddle<T>(l: seq<T>, m: seq<T>, r: seq<T>, j: nat, x: T)
    requires j <= |m|
    ensures (l + m + r)[..|l| + j] + [x] + (l + m + r)[|l| + j..] == l + (m[..j] + [x] + m[j..]) + r
  {
    assert (l + m + r)[..|l| + j] == l + m[..j];
    assert (l + m + r)[|l| + j..] == m[j..] + r;
  }

  lemma UpsertSorted(s: seq<Item>, it: Item)
    requires Sorted(s)
    ensures Sorted(Upsert(s, it))
  {
    hide Less;
    TotalOrder();
    var r := Rank(s, it.key);
    if Has(s, it.key) {
    } else {
      var t := s[..r] + [it] + s[r..];
      assert forall j :: r <= j < |s| ==> Less(it.key, s[j].key);
    }
  }

  lemma RemoveSorted(s: seq<Item>, j: nat)
    requires Sorted(s) && j < |s|
    ensures Sorted(RemoveAt(s, j))
  {
  }

  lemma RemoveMiddle<T>(l: seq<T>, m: seq<T>, r: seq<T>, j: nat)
    requires j < |m|
    ensures RemoveAt(l + m + r, |l| + j) == l + RemoveAt(m, j) + r
  {
  }

  lemma BelowCut(l: seq<Item>, it: Item, key: Key)
    requires Below(l, it.key) && Less(it.key, key)
    ensures Below(l + [it], key)
  {
    forall i | 0 <= i < |l|
      ensures Less(l[i].key, key)
    {
      LessTransitive(l[i].key, it.key, key);
    }
  }

  lemma AboveCut(it: Item, r: seq<Item>, key: Key)
    requires Above(it.key, r) && Less(key, it.key)
    ensures Above(key, [it] + r)
  {
    forall i | 0 <= i < |r|
      ensures Less(key, r[i].key)
    {
      LessTransitive(key, it.key, r[i].key);
    }
  }

  lemma CutSides(l: seq<Item>, it: Item, r: seq<Item>)
    requires Sorted(l + [it] + r)
    ensures Below(l, it.key) && Above(it.key, r)
  {
    SortedParts(l, [it], r);
    assert [it][0] == it;
  }

  lemma RemoveCut<T>(l: seq<T>, it: T, r: seq<T>)
    ensures RemoveAt(l + [it] + r, |l|) == l + r
  {
  }

  lemma {:induction false} RankHere(l: seq<Item>, it: Item, r: seq<Item>)
    requires Below(l, it.key)
    ensures Has(l + [it] + r, it.key) && Rank(l + [it] + r, it.key) == |l|
  {
    StrcmpZero(it.key, it.key);
    RankUnique(l + [it] + r, it.key, |l|);
  }

  /** Replacing the item at a cut. */
  lemma UpsertCut(l: seq<Item>, it0: Item, r: seq<Item>, it: Item)
    requires Sorted(l + [it0] + r) && it.key == it0.key
    ensures Upsert(l + [it0] + r, it) == l + [it] + r
  {
    CutSides(l, it0, r);
    RankHere(l, it0, r);
  }

  lemma SameKeysSorted(s: seq<Item>, t: seq<Item>)
    requires Sorted(s) && |t| == |s| && forall i :: 0 <= i < |s| ==> t[i].key == s[i].key
    ensures Sorted(t)
  {
    forall i, j | 0 <= i < j < |t|
      ensures Less(t[i].key, t[j].key)
    {
      assert Less(s[i].key, s[j].key);
    }
  }
}
