/** The items of a key range, and how the engines' different walks arrive at them. */
module SortedRanges {
  import opened Keys
  import opened SortedItems

  predicate Within(k: Key, lo: Key, hi: Key) { !Less(k, lo) && !Less(hi, k) }

  /** The items whose keys lie in `[lo, hi]`, in their order. */
  function Between(s: seq<Item>, lo: Key, hi: Key): seq<Item> {
    if s == [] then []
    else Between(s[..|s| - 1], lo, hi) + if Within(s[|s| - 1].key, lo, hi) then [s[|s| - 1]] else []
  }

  lemma {:induction false} BetweenJoin(s: seq<Item>, r: seq<Item>, lo: Key, hi: Key)
    ensures Between(s + r, lo, hi) == Between(s, lo, hi) + Between(r, lo, hi)
  {
    if r == [] {
      assert s + r == s;
    } else {
      var n := |r| - 1;
      assert (s + r)[..|s + r| - 1] == s + r[..n];
      BetweenJoin(s, r[..n], lo, hi);
    }
  }

  lemma {:induction false} BetweenAll(s: seq<Item>, lo: Key, hi: Key)
    requires forall i :: 0 <= i < |s| ==> Within(s[i].key, lo, hi)
    ensures Between(s, lo, hi) == s
  {
    if s != [] {
      BetweenAll(s[..|s| - 1], lo, hi);
      assert s == s[..|s| - 1] + [s[|s| - 1]];
    }
  }

  lemma {:induction false} BetweenNone(s: seq<Item>, lo: Key, hi: Key)
    requires forall i :: 0 <= i < |s| ==> !Within(s[i].key, lo, hi)
    ensures Between(s, lo, hi) == []
  {
    if s != [] {
      BetweenNone(s[..|s| - 1], lo, hi);
    }
  }

  /** The items from `r` up to `p` are at or below `hi`. */
  ghost predicate Reaches(s: seq<Item>, r: nat, p: nat, hi: Key) {
    r <= p <= |s| && forall i :: r <= i < p ==> !Less(hi, s[i].key)
  }

  lemma ReachesOne(s: seq<Item>, r: nat, p: nat, hi: Key)
    requires Reaches(s, r, p, hi) && p < |s| && !Less(hi, s[p].key)
    ensures Reaches(s, r, p + 1, hi)
  {
  }

  /** An ordered walk from the first item at or above `lo` to the last at or below `hi` finds the range. */
  lemma {:induction false} WalkIsRange(s: seq<Item>, lo: Key, hi: Key, p: nat)
    requires Sorted(s) && Reaches(s, Rank(s, lo), p, hi)
    requires p < |s| ==> Less(hi, s[p].key)
    ensures Between(s, lo, hi) == s[Rank(s, lo)..p]
  {
    var r := Rank(s, lo);
    assert s == s[..r] + s[r..p] + s[p..];
    BetweenJoin(s[..r] + s[r..p], s[p..], lo, hi);
    BetweenJoin(s[..r], s[r..p], lo, hi);
    BelowRange(s, lo, hi, r);
    InRange(s, lo, hi, r, p);
    AboveRange(s, lo, hi, p);
  }

  lemma {:induction false} BelowRange(s: seq<Item>, lo: Key, hi: Key, r: nat)
    requires r == Rank(s, lo)
    ensures Between(s[..r], lo, hi) == []
  {
    BetweenNone(s[..r], lo, hi);
  }

  lemma {:induction false} NotBelowRank(s: seq<Item>, k: Key, i: nat)
    requires Sorted(s) && Rank(s, k) <= i < |s|
    ensures !Less(s[i].key, k)
  {
    var r := Rank(s, k);
    if Less(s[i].key, k) && r < i {
      assert Less(s[r].key, s[i].key);
      LessTransitive(s[r].key, s[i].key, k);
    }
  }

  lemma {:induction false} InRange(s: seq<Item>, lo: Key, hi: Key, r: nat, p: nat)
    requires Sorted(s) && r == Rank(s, lo) <= p <= |s|
    requires forall i :: r <= i < p ==> !Less(hi, s[i].key)
    ensures Between(s[r..p], lo, hi) == s[r..p]
  {
    forall i | 0 <= i < p - r
      ensures Within(s[r..p][i].key, lo, hi)
    {
      NotBelowRank(s, lo, r + i);
    }
    BetweenAll(s[r..p], lo, hi);
  }

  lemma {:induction false} AboveRange(s: seq<Item>, lo: Key, hi: Key, p: nat)
    requires Sorted(s) && p <= |s| && (p < |s| ==> Less(hi, s[p].key))
    ensures Between(s[p..], lo, hi) == []
  {
    forall i | 0 <= i < |s| - p
      ensures !Within(s[p..][i].key, lo, hi)
    {
      if i > 0 {
        assert Less(s[p].key, s[p + i].key);
        LessTransitive(hi, s[p].key, s[p + i].key);
      }
    }
    BetweenNone(s[p..], lo, hi);
  }
}
