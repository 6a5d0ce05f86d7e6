/** Keys and values are C strings: byte sequences without the terminating NUL, ordered by
    `strcmp`, which compares bytes as unsigned and ranks a proper prefix first. */
module Keys {

  /** A byte of a file or a connection, NUL included. */
  type Octet = b: int | 0 <= b < 256
  type Bytes = seq<Octet>

  type Byte = b: int | 0 < b < 256 witness 1
  type Key = seq<Byte>
  type Value = seq<Byte>

  /** The sign convention of the C library function. */
  function Strcmp(a: Key, b: Key): int {
    if a == [] then (if b == [] then 0 else -b[0])
    else if b == [] then a[0]
    else if a[0] != b[0] then a[0] - b[0]
    else Strcmp(a[1..], b[1..])
  }

  predicate Less(a: Key, b: Key) { Strcmp(a, b) < 0 }

  lemma {:induction false} StrcmpZero(a: Key, b: Key)
    ensures Strcmp(a, b) == 0 <==> a == b
  {
    if a != [] && b != [] && a[0] == b[0] {
      StrcmpZero(a[1..], b[1..]);
      assert a == [a[0]] + a[1..] && b == [b[0]] + b[1..];
    }
  }

  lemma {:induction false} StrcmpFlip(a: Key, b: Key)
    ensures Strcmp(a, b) == -Strcmp(b, a)
  {
    if a != [] && b != [] && a[0] == b[0] {
      StrcmpFlip(a[1..], b[1..]);
    }
  }

  lemma {:induction false} LessTransitive(a: Key, b: Key, c: Key)
    requires Less(a, b) && Less(b, c)
    ensures Less(a, c)
  {
    if a != [] && b != [] && c != [] && a[0] == b[0] == c[0] {
      LessTransitive(a[1..], b[1..], c[1..]);
    }
  }

  /** `strcmp` orders keys totally, and its three outcomes are "less", "equal" and "greater". */
  lemma TotalOrder()
    ensures forall a: Key, b: Key {:trigger Less(a, b)} :: Less(a, b) ==> !Less(b, a) && a != b
    ensures forall a: Key, b: Key {:trigger Less(a, b)} :: Less(a, b) || Less(b, a) || a == b
    ensures forall a: Key, b: Key, c: Key {:trigger Less(a, b), Less(b, c)} ::
              Less(a, b) && Less(b, c) ==> Less(a, c)
    ensures forall a: Key, b: Key {:trigger Strcmp(a, b)} :: Strcmp(a, b) == 0 <==> a == b
    ensures forall a: Key, b: Key {:trigger Strcmp(a, b)} :: Strcmp(a, b) > 0 <==> Less(b, a)
  {
    forall a: Key, b: Key
      ensures Less(a, b) ==> !Less(b, a) && a != b
      ensures Less(a, b) || Less(b, a) || a == b
      ensures Strcmp(a, b) == 0 <==> a == b
      ensures Strcmp(a, b) > 0 <==> Less(b, a)
    {
      StrcmpZero(a, b);
      StrcmpFlip(a, b);
    }
    forall a: Key, b: Key, c: Key | Less(a, b) && Less(b, c)
      ensures Less(a, c)
    {
      LessTransitive(a, b, c);
    }
  }

  /** The keys agree before position `i`; there `a` has ended, or has the smaller byte. */
  predicate BelowAt(a: Key, b: Key, i: nat) {
    i <= |a| && i < |b| && a[..i] == b[..i] && (i == |a| || a[i] < b[i])
  }

  /** The order is the dictionary order on unsigned bytes, a proper prefix first. */
  lemma {:induction false} LessMeans(a: Key, b: Key)
    ensures Less(a, b) <==> exists i: nat :: BelowAt(a, b, i)
  {
    if a == [] {
      if b != [] { assert BelowAt(a, b, 0); }
    } else if b != [] && a[0] == b[0] {
      LessMeans(a[1..], b[1..]);
      if i: nat :| BelowAt(a[1..], b[1..], i) {
        LaterBelow(a, b, i);
      }
      if i: nat :| BelowAt(a, b, i) {
        EarlierBelow(a, b, i);
      }
    } else if b != [] {
      if a[0] < b[0] { assert BelowAt(a, b, 0); }
      if i: nat :| BelowAt(a, b, i) {
        assert i > 0 ==> a[..i][0] == b[..i][0];
      }
    }
  }

  lemma LaterBelow(a: Key, b: Key, i: nat)
    requires a != [] && b != [] && a[0] == b[0] && BelowAt(a[1..], b[1..], i)
    ensures BelowAt(a, b, i + 1)
  {
    assert a[..i + 1] == [a[0]] + a[1..][..i] && b[..i + 1] == [b[0]] + b[1..][..i];
  }

  lemma EarlierBelow(a: Key, b: Key, i: nat)
    requires a != [] && b != [] && a[0] == b[0] && BelowAt(a, b, i)
    ensures i > 0 && BelowAt(a[1..], b[1..], i - 1)
  {
    assert a[1..][..i - 1] == a[..i][1..] && b[1..][..i - 1] == b[..i][1..];
  }
}
