/** The in-order reading of one B-tree node: its items woven between the readings of its
    children. Cutting the weave at a child is what every structural step reasons about. */
module Weave {

  /** part item part item ... part item */
  function Zip<T>(items: seq<T>, parts: seq<seq<T>>): seq<T>
    requires |items| == |parts|
  {
    if items == [] then []
    else Zip(items[..|items| - 1], parts[..|items| - 1]) + parts[|items| - 1] + [items[|items| - 1]]
  }

  /** item part item part ... item part */
  function Paz<T>(items: seq<T>, parts: seq<seq<T>>): seq<T>
    requires |items| == |parts|
  {
    if items == [] then [] else [items[0]] + parts[0] + Paz(items[1..], parts[1..])
  }

  /** part item part ... item part */
  function WeaveAll<T>(items: seq<T>, parts: seq<seq<T>>): seq<T>
    requires |parts| == |items| + 1
  {
    Zip(items, parts[..|items|]) + parts[|items|]
  }

  lemma {:induction false} ZipSnoc<T>(items: seq<T>, parts: seq<seq<T>>, m: T, p: seq<T>)
    requires |items| == |parts|
    ensures Zip(items + [m], parts + [p]) == Zip(items, parts) + p + [m]
  {
    assert (items + [m])[..|items|] == items && (parts + [p])[..|parts|] == parts;
  }

  lemma {:induction false} PazCons<T>(m: T, p: seq<T>, items: seq<T>, parts: seq<seq<T>>)
    requires |items| == |parts|
    ensures Paz([m] + items, [p] + parts) == [m] + p + Paz(items, parts)
  {
    assert ([m] + items)[1..] == items && ([p] + parts)[1..] == parts;
  }

  /** Cutting the weave at one part. */
  lemma {:induction false} CutOne<T>(i1: seq<T>, p1: seq<seq<T>>, p: seq<T>, i2: seq<T>, p2: seq<seq<T>>)
    requires |i1| == |p1| && |i2| == |p2|
    ensures WeaveAll(i1 + i2, p1 + [p] + p2) == Zip(i1, p1) + p + Paz(i2, p2)
    decreases |i2|
  {
    if i2 == [] {
      assert i1 + i2 == i1 && (p1 + [p] + p2)[..|i1|] == p1;
    } else {
      var m, q, i3, p3 := i2[0], p2[0], i2[1..], p2[1..];
      calc {
        WeaveAll(i1 + i2, p1 + [p] + p2);
        { HeadMoves(i1, i2); HeadMoves(p1 + [p], p2); }
        WeaveAll(i1 + [m] + i3, p1 + [p] + [q] + p3);
        { CutOne(i1 + [m], p1 + [p], q, i3, p3); }
        Zip(i1 + [m], p1 + [p]) + q + Paz(i3, p3);
        { ZipSnoc(i1, p1, m, p); }
        Zip(i1, p1) + p + [m] + q + Paz(i3, p3);
        { Regroup(Zip(i1, p1) , p, [m], q, Paz(i3, p3)); Assoc([m], q, Paz(i3, p3)); }
        Zip(i1, p1) + p + Paz(i2, p2);
      }
    }
  }

  /** The weave also reads as its first part followed by the rest. */
  lemma {:induction false} CutFirst<T>(items: seq<T>, parts: seq<seq<T>>)
    requires |parts| == |items| + 1
    ensures WeaveAll(items, parts) == parts[0] + Paz(items, parts[1..])
  {
    var p, p2 := parts[0], parts[1..];
    calc {
      WeaveAll(items, parts);
      { EmptyLeft(items); EmptyLeft([p]); assert parts == [p] + p2; }
      WeaveAll([] + items, [] + [p] + p2);
      { CutOne([], [], p, items, p2); }
      Zip<T>([], []) + p + Paz(items, p2);
      { EmptyLeft(p); }
      p + Paz(items, p2);
    }
  }

  lemma EmptyLeft<T>(s: seq<T>)
    ensures [] + s == s
  {
  }

  /** Cutting the weave at two adjacent parts and the item between them. */
  lemma {:induction false} CutTwo<T>(i1: seq<T>, p1: seq<seq<T>>, p: seq<T>, m: T, q: seq<T>, i2: seq<T>, p2: seq<seq<T>>)
    requires |i1| == |p1| && |i2| == |p2|
    ensures WeaveAll(i1 + [m] + i2, p1 + [p, q] + p2) == Zip(i1, p1) + (p + [m] + q) + Paz(i2, p2)
  {
    calc {
      WeaveAll(i1 + [m] + i2, p1 + [p, q] + p2);
      { Assoc(i1, [m], i2);
        assert p1 + [p, q] + p2 == p1 + [p] + ([q] + p2); }
      WeaveAll(i1 + ([m] + i2), p1 + [p] + ([q] + p2));
      { CutOne(i1, p1, p, [m] + i2, [q] + p2); }
      Zip(i1, p1) + p + Paz([m] + i2, [q] + p2);
      { PazCons(m, q, i2, p2); }
      Zip(i1, p1) + p + ([m] + q + Paz(i2, p2));
      { Regroup(Zip(i1, p1), p, [m], q, Paz(i2, p2)); }
      Zip(i1, p1) + (p + [m] + q) + Paz(i2, p2);
    }
  }

  lemma Assoc<T>(a: seq<T>, b: seq<T>, c: seq<T>)
    ensures a + b + c == a + (b + c)
  {
  }

  lemma Regroup<T>(a: seq<T>, b: seq<T>, c: seq<T>, d: seq<T>, e: seq<T>)
    ensures a + b + (c + d + e) == a + (b + c + d) + e == a + b + c + d + e
  {
  }

  lemma HeadMoves<T>(a: seq<T>, b: seq<T>)
    requires b != []
    ensures a + b == a + [b[0]] + b[1..]
  {
  }
}
