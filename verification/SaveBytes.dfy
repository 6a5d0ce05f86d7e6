/** What the saved file is, byte for byte, and what is read from bytes of any other origin. */
module SaveBytes {
  import opened Keys
  import opened SortedItems
  import opened Division
  import opened Records
  import opened SaveFormat
  import opened SaveEngines
  import opened RecordTables
  import opened RbShapes
  import opened RbBalance
  import opened RbTreeModel
  import RbRuns
  import ArrayEngine

  /** The low byte first; four bytes of which the last is 128 or more stand for a negative number. */
  lemma IntMeans(b0: int, b1: int, b2: int, b3: int)
    requires 0 <= b0 < 256 && 0 <= b1 < 256 && 0 <= b2 < 256 && 0 <= b3 < 256
    ensures IntBytes(b0 + 0x100 * b1 + 0x1_0000 * b2 + 0x100_0000 * b3) == [b0, b1, b2, b3]
    ensures IntOf([b0, b1, b2, b3]) ==
            b0 + 0x100 * b1 + 0x1_0000 * b2 + 0x100_0000 * if b3 < 128 then b3 else b3 - 256
  {
    var n, m1, m2 := b0 + 0x100 * b1 + 0x1_0000 * b2 + 0x100_0000 * b3, b1 + 0x100 * b2 + 0x1_0000 * b3, b2 + 0x100 * b3;
    Quotient(n, 0x100, m1, b0);
    Quotient(m1, 0x100, m2, b1);
    Quotient(n, 0x1_0000, m2, b0 + 0x100 * b1);
    Quotient(m2, 0x100, b3, b2);
    Quotient(n, 0x100_0000, b3, b0 + 0x100 * b1 + 0x1_0000 * b2);
    Quotient(b3, 0x100, 0, b3);
  }

  /** The key `k` with the value `vw`: each length counts the NUL. */
  lemma ImageSample()
    ensures Image(Item([107], [118, 119])) == [2, 0, 0, 0, 107, 0, 3, 0, 0, 0, 118, 119, 0]
  {
  }

  /** The file of an array with one record. */
  method SaveSample(timestamp: nat) returns (ret: int, file: Bytes)
    ensures ret == 0 && file == [1, 0, 0, 0, 2, 0, 0, 0, 107, 0, 3, 0, 0, 0, 118, 119, 0]
  {
    var store := new ArrayEngine.Store();
    var _ := store.Set([107], [118, 119], timestamp);
    assert store.data == [Record(Item([107], [118, 119]), timestamp)];
    ret, file := SaveArray(store);
    ImageSample();
    assert ItemsOf(store.data) == [Item([107], [118, 119])];
    OneImage(Item([107], [118, 119]));
  }

  lemma {:induction false} OneImage(it: Item)
    ensures Saved([it]) == IntBytes(1) + Image(it)
  {
    assert [it][..0] == [];
    assert Images([it]) == [] + Image(it);
  }

  /** A string ends at the first NUL; without one it goes on behind the buffer. */
  lemma {:induction false} StringMeans(k: Key, more: Bytes, j: Key)
    ensures IsString(j, k + [NUL] + more) <==> j == k
    ensures IsString(j, k) <==> k <= j
  {
    if k == [] {
      assert ([] + [NUL] + more)[0] == NUL;
    } else {
      assert (k + [NUL] + more)[1..] == k[1..] + [NUL] + more && (k + [NUL] + more)[0] == k[0];
      if j != [] {
        StringMeans(k[1..], more, j[1..]);
        assert k == [k[0]] + k[1..] && j == [j[0]] + j[1..];
        assert k[1..] <= j[1..] && j[0] == k[0] <==> k <= j by {
          if k <= j { assert j[..|k|] == k; assert j[1..][..|k| - 1] == k[1..]; }
          if k[1..] <= j[1..] && j[0] == k[0] { assert j[..|k|] == [j[0]] + j[1..][..|k| - 1]; }
        }
      }
    }
  }

  /** Whatever the bytes are, the code tells which read failed: too few bytes for the length of the key,
      a negative length, a length of zero or too few bytes for the key; then the same for the value. */
  lemma ShortCodes(s: Bytes, code: int)
    ensures ReadOne(s) == Short(code) ==> code in {-3, -4, -5, -6, -7, -8}
    ensures ReadOne(s) == Short(-3) <==> |s| < 4
    ensures ReadOne(s) == Short(-4) <==> |s| >= 4 && IntOf(s[..4]) < 0
    ensures ReadOne(s) == Short(-5) <==> |s| >= 4 && (IntOf(s[..4]) == 0 || |s| < 4 + IntOf(s[..4]))
    ensures |s| >= 4 && 0 < IntOf(s[..4]) <= |s| - 4 ==>
              var t := s[4 + IntOf(s[..4])..];
              && (ReadOne(s) == Short(-6) <==> |t| < 4)
              && (ReadOne(s) == Short(-7) <==> |t| >= 4 && IntOf(t[..4]) < 0)
              && (ReadOne(s) == Short(-8) <==> |t| >= 4 && (IntOf(t[..4]) == 0 || |t| < 4 + IntOf(t[..4])))
  {
  }

  /** Of a red-black tree with three keys the middle one is written first, then the lesser, then the greater. */
  lemma MiddleFirst(t: Shape)
    requires RedBlack(t) && Items(t) == [Item([1], [7]), Item([2], [8]), Item([3], [9])]
    ensures Preorder(t) == [Item([2], [8]), Item([1], [7]), Item([3], [9])]
  {
    RbRuns.ThreeItems(t);
    var l, r := t.left, t.right;
    assert Items(t) == Items(l) + [t.it] + Items(r);
    assert Items(t)[0] == Items(l)[0] && Items(t)[1] == t.it && Items(t)[2] == Items(r)[0];
    Single(l);
    Single(r);
  }

  lemma {:induction false} Single(t: Shape)
    requires |Items(t)| == 1
    ensures Preorder(t) == Items(t)
  {
    assert |Items(t)| == |Items(t.left)| + 1 + |Items(t.right)|;
    PreorderSize(t.left);
    PreorderSize(t.right);
    assert Items(t.left) == [] && Items(t.right) == [];
  }

  /** The file of the tree that the insertions of 2, 1 and 3 leave. */
  method SaveThree() returns (ret: int, file: Bytes)
    ensures ret == 0
    ensures file == [3, 0, 0, 0] + [2, 0, 0, 0, 2, 0, 2, 0, 0, 0, 8, 0] + [2, 0, 0, 0, 1, 0, 2, 0, 0, 0, 7, 0]
                    + [2, 0, 0, 0, 3, 0, 2, 0, 0, 0, 9, 0]
  {
    hide *;
    var inst := RbRuns.BuildSample();
    KeptSample(inst);
    ret, file := SaveRb(inst);
    ThreeImages();
  }

  lemma KeptSample(inst: RbTree)
    requires RbRuns.Keeps(inst, [Item([1], [7]), Item([2], [8]), Item([3], [9])],
                          map[[2] := Stamp([8], 200)][[1] := Stamp([7], 100)][[3] := Stamp([9], 300)])
    ensures inst.Valid() && Preorder(inst.shape) == [Item([2], [8]), Item([1], [7]), Item([3], [9])]
  {
    MiddleFirst(inst.shape);
  }

  lemma ShortImage(k: Octet, v: Octet)
    requires k > 0 && v > 0
    ensures Image(Item([k], [v])) == [2, 0, 0, 0, k, 0, 2, 0, 0, 0, v, 0]
  {
  }

  lemma ThreeImages()
    ensures Saved([Item([2], [8]), Item([1], [7]), Item([3], [9])]) ==
            [3, 0, 0, 0] + [2, 0, 0, 0, 2, 0, 2, 0, 0, 0, 8, 0] + [2, 0, 0, 0, 1, 0, 2, 0, 0, 0, 7, 0]
            + [2, 0, 0, 0, 3, 0, 2, 0, 0, 0, 9, 0]
  {
    hide Image, Saved;
    var a, b, c := Item([2], [8]), Item([1], [7]), Item([3], [9]);
    var w := [a, b, c];
    ShortImage(2, 8);
    ShortImage(1, 7);
    ShortImage(3, 9);
    ThreeJoined(w, IntBytes(3), Image(a), Image(b), Image(c));
  }

  lemma {:induction false} ThreeJoined(w: seq<Item>, h: Bytes, x: Bytes, y: Bytes, z: Bytes)
    requires |w| == 3 && h == IntBytes(3) && x == Image(w[0]) && y == Image(w[1]) && z == Image(w[2])
    ensures Saved(w) == h + x + y + z
  {
    hide Image, IntBytes;
    assert w[..2][..1] == w[..1] && w[..1][..0] == [];
    assert Images(w[..1]) == [] + x;
    assert Images(w[..2]) == x + y;
    assert Images(w) == x + y + z;
  }
}
