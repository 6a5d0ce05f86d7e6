/** In which order a reloaded store holds what was saved: an array as before, a hash table with every
    chain turned around. */
module SaveOrders {
  import opened Keys
  import opened SortedItems
  import opened Records
  import opened RecordTables
  import opened HashChains
  import opened SaveEngines

  ghost predicate DifferentKeys(w: seq<Item>) {
    forall i, j :: 0 <= i < j < |w| ==> w[i].key != w[j].key
  }

  /** Different keys that find room are stored one behind the other. */
  lemma {:induction false} StoredBack(w: seq<Item>, room: nat)
    requires DifferentKeys(w) && |w| <= room
    ensures StoreAll([], w, room) == w
  {
    hide StoreOne;
    if w != [] {
      var n := |w| - 1;
      StoredBack(w[..n], room);
      assert w == w[..n] + [w[n]];
      StoredNext(w[..n], w[n], room);
    }
  }

  lemma StoredNext(d: seq<Item>, it: Item, room: nat)
    requires |d| < room && forall i :: 0 <= i < |d| ==> d[i].key != it.key
    ensures StoreOne(d, it, room) == d + [it]
  {
  }

  /** `a` is `b` backwards. */
  ghost predicate Mirrored(a: seq<Item>, b: seq<Item>) {
    |a| == |b| && forall j {:trigger a[j]} :: 0 <= j < |a| ==> a[j] == b[|b| - 1 - j]
  }

  lemma {:induction false} PushJoin(cs: seq<seq<Item>>, a: seq<Item>, b: seq<Item>)
    ensures PushAll(cs, a + b) == PushAll(PushAll(cs, a), b)
  {
    if b == [] {
      assert a + b == a;
    } else {
      assert (a + b)[..|a + b| - 1] == a + b[..|b| - 1];
      PushJoin(cs, a, b[..|b| - 1]);
    }
  }

  /** Keys of one slot end up in its chain, the last one first; the other chains are not touched. */
  lemma {:induction false} PushChain(cs: seq<seq<Item>>, s: nat, w: seq<Item>)
    requires s < |cs| && cs[s] == [] && DifferentKeys(w) && forall i :: 0 <= i < |w| ==> SlotOf(w[i].key) == s
    ensures Mirrored(PushAll(cs, w)[s], w) && PushAll(cs, w) == cs[s := PushAll(cs, w)[s]]
  {
    hide Rem, SlotOf, Sum;
    if w == [] {
      assert cs[s := cs[s]] == cs;
    } else {
      var n := |w| - 1;
      PushChain(cs, s, w[..n]);
      var ds: seq<seq<Item>> := PushAll(cs, w[..n]);
      forall i: nat | i < |ds[s]|
        ensures ds[s][i].key != w[n].key
      {
        assert ds[s][i] == w[..n][n - 1 - i];
      }
      assert PushAll(cs, w) == ds[s := [w[n]] + ds[s]];
    }
  }

  /** The chains of the first `k` slots are those of `rs` turned around, the others empty. */
  ghost predicate Turned(rs: seq<seq<Record>>, ds: seq<seq<Item>>, k: nat) {
    |ds| == |rs| && forall s {:trigger ds[s]} :: 0 <= s < |rs| ==> Mirrored(ds[s], if s < k then ItemsOf(rs[s]) else [])
  }

  /** After the chains of the first `k` slots have been loaded, those are turned around and the others empty. */
  lemma {:induction false} PushSlots(rs: seq<seq<Record>>, cs: seq<seq<Item>>, k: nat)
    requires Placed(rs) && |cs| == |rs| && k <= |rs| && forall s :: 0 <= s < |cs| ==> cs[s] == []
    ensures Turned(rs, PushAll(cs, ItemsOf(Concat(rs[..k]))), k)
  {
    hide ItemsOf, PushAll, Mirrored, DifferentKeys, Placed;
    if k == 0 {
      assert Concat(rs[..0]) == [];
      NothingPushed(cs);
    } else {
      PushSlots(rs, cs, k - 1);
      assert rs[..k][..k - 1] == rs[..k - 1];
      var a, b := Concat(rs[..k - 1]), rs[k - 1];
      ItemsJoin(a, b);
      PushJoin(cs, ItemsOf(a), ItemsOf(b));
      SlotItems(b, k - 1, rs);
      NoneYet(rs, PushAll(cs, ItemsOf(a)), k - 1);
      PushChain(PushAll(cs, ItemsOf(a)), k - 1, ItemsOf(b));
    }
  }

  lemma NothingPushed(cs: seq<seq<Item>>)
    ensures PushAll(cs, ItemsOf([])) == cs && Mirrored([], [])
  {
    assert ItemsOf([]) == [];
  }

  lemma ItemsJoin(a: seq<Record>, b: seq<Record>)
    ensures ItemsOf(a + b) == ItemsOf(a) + ItemsOf(b)
  {
  }

  lemma NoneYet(rs: seq<seq<Record>>, ds: seq<seq<Item>>, k: nat)
    requires Turned(rs, ds, k) && k < |rs|
    ensures ds[k] == []
  {
    assert Mirrored(ds[k], []);
  }

  lemma SlotItems(recs: seq<Record>, s: nat, rs: seq<seq<Record>>)
    requires Placed(rs) && s < |rs| && recs == rs[s]
    ensures DifferentKeys(ItemsOf(recs)) && forall i :: 0 <= i < |ItemsOf(recs)| ==> SlotOf(ItemsOf(recs)[i].key) == s
  {
    assert InSlot(rs[s], s);
  }

  /** Loading what was saved turns every chain around. */
  lemma {:induction false} ChainsTurned(rs: seq<seq<Record>>, rs0: seq<seq<Record>>, rs1: seq<seq<Record>>)
    requires Placed(rs) && |rs0| == |rs1| == |rs| && Concat(rs0) == []
    requires ChainsOf(rs1) == PushAll(ChainsOf(rs0), ItemsOf(Concat(rs)))
    ensures forall s {:trigger rs1[s]} :: 0 <= s < |rs| ==> Mirrored(ItemsOf(rs1[s]), ItemsOf(rs[s]))
  {
    forall s | 0 <= s < |rs0|
      ensures ChainsOf(rs0)[s] == []
    {
      ConcatCut(rs0, s);
    }
    PushSlots(rs, ChainsOf(rs0), |rs|);
    assert rs[..|rs|] == rs;
    forall s | 0 <= s < |rs|
      ensures Mirrored(ItemsOf(rs1[s]), ItemsOf(rs[s]))
    {
      assert ChainsOf(rs1)[s] == ItemsOf(rs1[s]);
    }
  }
}
