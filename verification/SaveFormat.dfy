/** The binary file the engines are saved to: a count, then for every item the key and the value,
    each with its length in front and its terminating NUL behind. */
module SaveFormat {
  import opened Keys
  import opened SortedItems

  const NUL: Octet := 0

  // ----- integers

  /** A four-byte little-endian `int`, of which only the low 32 bits are kept. */
  function IntBytes(n: nat): (b: Bytes)
    ensures |b| == 4
  {
    [n % 256, n / 256 % 256, n / 0x1_0000 % 256, n / 0x100_0000 % 256]
  }

  function IntOf(b: Bytes): int
    requires |b| == 4
  {
    var b0: int, b1: int, b2: int, b3: int := b[0], b[1], b[2], b[3];
    var u := b0 + 256 * b1 + 0x1_0000 * b2 + 0x100_0000 * b3;
    if u < 0x8000_0000 then u else u - 0x1_0000_0000
  }

  lemma IntRoundTrip(n: nat)
    requires n < 0x8000_0000
    ensures IntOf(IntBytes(n)) == n
  {
    var a, c := n / 256, n / 0x1_0000;
    assert c == a / 256 && n / 0x100_0000 == c / 256;
  }

  // ----- writing

  function Image(it: Item): Bytes {
    IntBytes(|it.key| + 1) + it.key + [NUL] + IntBytes(|it.val| + 1) + it.val + [NUL]
  }

  function Images(w: seq<Item>): Bytes {
    if w == [] then [] else Images(w[..|w| - 1]) + Image(w[|w| - 1])
  }

  function Saved(w: seq<Item>): Bytes { IntBytes(|w|) + Images(w) }

  /** Lengths and counts that an `int` can hold. */
  predicate Small(it: Item) { |it.key| + 1 < 0x8000_0000 && |it.val| + 1 < 0x8000_0000 }

  ghost predicate AllSmall(w: seq<Item>) {
    |w| < 0x8000_0000 && forall i {:trigger w[i]} :: 0 <= i < |w| ==> Small(w[i])
  }

  // ----- reading

  /** The C string that starts in a buffer. Without a NUL in the buffer it goes on with whatever comes
      behind it. */
  ghost predicate IsString(k: Key, b: Bytes) {
    b == [] || (if b[0] == NUL then k == [] else k != [] && k[0] == b[0] && IsString(k[1..], b[1..]))
  }

  /** The bytes up to the NUL; `beyond` is what comes behind a buffer that has none. */
  function StringFrom(b: Bytes, beyond: Key): (k: Key)
    ensures IsString(k, b)
  {
    if b == [] then beyond
    else if b[0] == NUL then []
    else
      var c: Byte, more := b[0], StringFrom(b[1..], beyond);
      assert ([c] + more)[1..] == more;
      [c] + more
  }

  /** A length-prefixed buffer, or the code of the step that failed: reading the length, allocating a
      negative number of bytes, or reading the bytes. */
  datatype Field = Missing(code: int) | Field(buf: Bytes, rest: Bytes)

  function ReadField(s: Bytes, code: int): (f: Field)
    requires code < 0
    ensures match f case Missing(code) => code < 0 case Field(_, rest) => |rest| < |s|
  {
    if |s| < 4 then Missing(code)
    else if IntOf(s[..4]) < 0 then Missing(code - 1)
    else if IntOf(s[..4]) == 0 || |s| - 4 < IntOf(s[..4]) then Missing(code - 2)
    else Field(s[4..4 + IntOf(s[..4])], s[4 + IntOf(s[..4])..])
  }

  /** One item, or the code of the read that failed. */
  datatype Chunk = Short(code: int) | Got(key: Bytes, val: Bytes, rest: Bytes)

  function ReadOne(s: Bytes): (c: Chunk)
    ensures match c case Short(code) => code < 0 case Got(_, _, rest) => |rest| < |s|
  {
    match ReadField(s, -3)
    case Missing(code) => Short(code)
    case Field(k, t) => match ReadField(t, -6) {
      case Missing(code) => Short(code)
      case Field(v, u) => Got(k, v, u)
    }
  }

  /** The items at the front of `s`, behind which `rest` is left. */
  ghost predicate Reads(s: Bytes, w: seq<Item>, rest: Bytes)
    decreases |w|
  {
    if w == [] then s == rest
    else match ReadOne(s)
      case Short(_) => false
      case Got(k, v, t) => IsString(w[0].key, k) && IsString(w[0].val, v) && Reads(t, w[1..], rest)
  }

  /** Loading a file yields the items `w` and the code `ret`. */
  ghost predicate Loads(s: Bytes, w: seq<Item>, rest: Bytes, ret: int) {
    if |s| < 4 then w == [] && ret == -2
    else
      && Reads(s[4..], w, rest)
      && (if ret == 0 then |w| == (if IntOf(s[..4]) < 0 then 0 else IntOf(s[..4]))
          else |w| < IntOf(s[..4]) && ReadOne(rest) == Short(ret))
  }

  lemma {:induction false} ReadsSnoc(s: Bytes, w: seq<Item>, rest: Bytes, it: Item)
    requires Reads(s, w, rest) && ReadOne(rest).Got?
    requires IsString(it.key, ReadOne(rest).key) && IsString(it.val, ReadOne(rest).val)
    ensures Reads(s, w + [it], ReadOne(rest).rest)
    decreases |w|
  {
    if w == [] {
      assert (w + [it])[1..] == [];
    } else {
      assert (w + [it])[1..] == w[1..] + [it];
      ReadsSnoc(ReadOne(s).rest, w[1..], rest, it);
    }
  }

  // ----- reading what was written

  lemma {:induction false} ImagesCons(it: Item, w: seq<Item>)
    ensures Images([it] + w) == Image(it) + Images(w)
  {
    hide Image;
    if w == [] {
      assert [it] + w == [it] && [it][..0] == [];
      assert Images([it]) == [] + Image(it);
    } else {
      var w0, z := w[..|w| - 1], w[|w| - 1];
      ImagesCons(it, w0);
      assert ([it] + w)[..|w|] == [it] + w0;
      Reassociate(Image(it), Images(w0), Image(z));
    }
  }

  lemma Reassociate<T>(x: seq<T>, y: seq<T>, z: seq<T>)
    ensures (x + y) + z == x + (y + z)
  {
  }

  /** A stored string is read back as itself. */
  lemma {:induction false} StringBack(k: Key, j: Key)
    ensures IsString(j, k + [NUL]) <==> j == k
  {
    if k != [] {
      assert (k + [NUL])[1..] == k[1..] + [NUL];
      if j != [] {
        StringBack(k[1..], j[1..]);
        assert k == [k[0]] + k[1..] && j == [j[0]] + j[1..];
      }
    }
  }

  /** Reading a length-prefixed string in a file that is cut off after `n` bytes. */
  lemma FieldCut(k: Key, more: Bytes, n: nat, s: Bytes, code: int)
    requires |k| + 1 < 0x8000_0000 && n <= |IntBytes(|k| + 1) + k + [NUL] + more| && code < 0
    requires s == (IntBytes(|k| + 1) + k + [NUL] + more)[..n]
    ensures n < |k| + 5 ==> ReadField(s, code) == Missing(if n < 4 then code else code - 2)
    ensures n >= |k| + 5 ==> ReadField(s, code) == Field(k + [NUL], more[..n - |k| - 5])
  {
    IntRoundTrip(|k| + 1);
    var head, body: Bytes := IntBytes(|k| + 1), k + [NUL];
    assert head + k + [NUL] + more == head + (body + more);
    HeadCut(head, body + more, n, s);
    if n >= |k| + 5 {
      HeadCut(body, more, n - 4, s[4..]);
      assert s[4..][..|k| + 1] == s[4..|k| + 5] && s[4..][|k| + 1..] == s[|k| + 5..];
    }
  }

  /** The front of a sequence that is cut off after `n` elements. */
  lemma HeadCut<T>(head: seq<T>, more: seq<T>, n: nat, s: seq<T>)
    requires n <= |head + more| && s == (head + more)[..n]
    ensures n >= |head| ==> s[..|head|] == head && s[|head|..] == more[..n - |head|]
  {
  }

  /** The code for an item of which only `n` bytes are there: the file ends in the length of the key, in
      the key, in the length of the value or in the value. */
  function CutCode(it: Item, n: nat): int {
    if n < 4 then -3
    else if n < 4 + |it.key| + 1 then -5
    else if n < 4 + |it.key| + 1 + 4 then -6
    else -8
  }

  /** The first of several items, in a file cut off after `n` bytes. */
  lemma ReadOneImage(it: Item, more: Bytes, n: nat, s: Bytes)
    requires Small(it) && n <= |Image(it) + more| && s == (Image(it) + more)[..n]
    ensures n < |Image(it)| ==> ReadOne(s) == Short(CutCode(it, n))
    ensures n >= |Image(it)| ==> ReadOne(s) == Got(it.key + [NUL], it.val + [NUL], more[..n - |Image(it)|])
  {
    var k, v := it.key, it.val;
    var more1 := IntBytes(|v| + 1) + v + [NUL] + more;
    assert Image(it) + more == IntBytes(|k| + 1) + k + [NUL] + more1;
    FieldCut(k, more1, n, s, -3);
    if n >= |k| + 5 {
      FieldCut(v, more, n - |k| - 5, more1[..n - |k| - 5], -6);
    }
  }

  /** What can be read from the images of `w`, cut off after `n` bytes: some of its items, with the
      rest cut off after `m` bytes. */
  lemma {:induction false} ReadsImages(w: seq<Item>, n: nat, s: Bytes, u: seq<Item>, rest: Bytes)
    returns (tail: seq<Item>, m: nat)
    requires AllSmall(w) && n <= |Images(w)| && s == Images(w)[..n] && Reads(s, u, rest)
    ensures w == u + tail && m + |Images(u)| == n && m <= |Images(tail)| && rest == Images(tail)[..m]
    ensures |Images(w)| == |Images(u)| + |Images(tail)|
    decreases |u|
  {
    hide Image, ReadOne;
    if u == [] {
      tail, m := w, n;
      assert [] + w == w;
    } else if w == [] {
      assert false;
    } else {
      var z, w1, x, u1 := w[0], w[1..], u[0], u[1..];
      Uncons(w);
      Uncons(u);
      ImagesCons(z, w1);
      var t := ReadFirst(z, Images(w1), n, s, x, u1, u, rest);
      ImagesCons(x, u1);
      AllSmallTail(w, w1);
      tail, m := ReadsImages(w1, n - |Image(z)|, t, u1, rest);
      Reassociate([z], u1, tail);
    }
  }

  lemma Uncons<T>(w: seq<T>)
    requires w != []
    ensures w == [w[0]] + w[1..]
  {
  }

  lemma AllSmallTail(w: seq<Item>, w1: seq<Item>)
    requires AllSmall(w) && w != [] && w1 == w[1..]
    ensures AllSmall(w1)
  {
  }

  lemma ReadFirst(z: Item, more: Bytes, n: nat, s: Bytes, x: Item, u1: seq<Item>, u: seq<Item>, rest: Bytes)
    returns (t: Bytes)
    requires Small(z) && n <= |Image(z) + more| && s == (Image(z) + more)[..n]
    requires Reads(s, u, rest) && u != [] && u[0] == x && u[1..] == u1
    ensures x == z && |Image(z)| <= n <= |Image(z)| + |more| && t == more[..n - |Image(z)|] && Reads(t, u1, rest)
  {
    ReadOneImage(z, more, n, s);
    StringBack(z.key, x.key);
    StringBack(z.val, x.val);
    t := more[..n - |Image(z)|];
  }

  /** The next item is not complete in what is left. */
  lemma {:induction false} NextCut(u: seq<Item>, tail: seq<Item>, m: nat, rest: Bytes)
    requires tail != [] && Small(tail[0]) && m <= |Images(tail)| && rest == Images(tail)[..m]
    ensures ReadOne(rest).Short? <==> m < |Image(tail[0])|
    ensures ReadOne(rest).Short? ==> ReadOne(rest) == Short(CutCode(tail[0], m))
    ensures |Images(u + [tail[0]])| == |Images(u)| + |Image(tail[0])| <= |Images(u)| + |Images(tail)|
  {
    Uncons(tail);
    ImagesCons(tail[0], tail[1..]);
    ReadOneImage(tail[0], Images(tail[1..]), m, rest);
    assert (u + [tail[0]])[..|u|] == u;
  }

  /** A file cut off anywhere yields exactly the items that are complete in it, and the load succeeds
      exactly if nothing is missing. */
  lemma LoadTruncated(w: seq<Item>, n: nat, u: seq<Item>, rest: Bytes, ret: int)
    requires AllSmall(w) && n <= |Saved(w)| && Loads(Saved(w)[..n], u, rest, ret)
    ensures |u| <= |w| && u == w[..|u|]
    ensures n < 4 ==> u == [] && ret == -2
    ensures n >= 4 ==> |Saved(u)| <= n && (|u| < |w| ==> n < |Saved(w[..|u| + 1])|)
    ensures ret == 0 <==> n == |Saved(w)|
    ensures ret == 0 <==> u == w && n >= 4
    ensures n >= 4 && ret != 0 ==> |u| < |w| && |Saved(u)| <= n && ret == CutCode(w[|u|], n - |Saved(u)|)
  {
    if n >= 4 {
      var s := Saved(w)[..n];
      SavedHead(w, n, s);
      var tail, m := ReadsImages(w, n - 4, s[4..], u, rest);
      if tail != [] {
        Ends(w, u, tail);
        NextCut(u, tail, m, rest);
      } else {
        assert u + [] == u;
      }
    }
  }

  lemma Ends(w: seq<Item>, u: seq<Item>, tail: seq<Item>)
    requires AllSmall(w) && w == u + tail && tail != []
    ensures w[..|u|] == u && w[..|u| + 1] == u + [tail[0]] && Small(tail[0])
  {
    assert w[|u|] == tail[0];
  }

  lemma {:induction false} SavedHead(w: seq<Item>, n: nat, s: Bytes)
    requires |w| < 0x8000_0000 && 4 <= n <= |Saved(w)| && s == Saved(w)[..n]
    ensures IntOf(s[..4]) == |w| && s[4..] == Images(w)[..n - 4]
  {
    IntRoundTrip(|w|);
    assert s[..4] == IntBytes(|w|);
  }
}
