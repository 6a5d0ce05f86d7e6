/** Runs of the iterator, as a client makes them: stepping over and back, and whole traversals. */
module IterRuns {
  import opened Keys
  import opened SortedItems
  import opened Iterators

  /** Stepping forward and back comes to the same item. */
  method NextThenPrev(iter: Iter) returns (next: bool, prev: bool)
    requires iter.Valid() && iter.seeked && iter.nstack > 0
    modifies iter, iter.stack
    ensures iter.Valid() && (next <==> old(iter.Pos()) + 1 < |iter.forest.Contents(iter.t)|)
    ensures next ==> prev && iter.OnItem() && iter.Pos() == old(iter.Pos()) && iter.item == old(iter.item)
  {
    prev := false;
    next := iter.Next();
    if next {
      prev := iter.Prev();
    }
  }

  /** Stepping back and forward comes to the same item. */
  method PrevThenNext(iter: Iter) returns (prev: bool, next: bool)
    requires iter.Valid() && iter.seeked && iter.nstack > 0
    modifies iter, iter.stack
    ensures iter.Valid() && (prev <==> old(iter.Pos()) > 0)
    ensures prev ==> next && iter.OnItem() && iter.Pos() == old(iter.Pos()) && iter.item == old(iter.item)
  {
    next := false;
    prev := iter.Prev();
    if prev {
      next := iter.Next();
    }
  }

  datatype Run = Live | Over

  /** The run stands on item `i` of `w`, or is over with `i` items. */
  ghost predicate Forth(iter: Iter, run: Run, w: seq<Item>, i: nat)
    reads iter, iter.forest, iter.stack
  {
    match run
    case Live => iter.Valid() && iter.forest.Contents(iter.t) == w && iter.seeked && iter.OnItem() && iter.Pos() == i
    case Over => iter.Valid() && iter.forest.Contents(iter.t) == w && i == |w|
  }

  /** The run stands on item `n - 1` of `w`, or is over with none left. */
  ghost predicate Back(iter: Iter, run: Run, w: seq<Item>, n: nat)
    reads iter, iter.forest, iter.stack
  {
    match run
    case Live => iter.Valid() && iter.forest.Contents(iter.t) == w && iter.seeked && iter.OnItem() && iter.Pos() + 1 == n
    case Over => iter.Valid() && iter.forest.Contents(iter.t) == w && n == 0
  }

  method StepForth(iter: Iter, ghost run0: Run, ghost w: seq<Item>, ghost i: nat) returns (it: Item, more: bool, ghost run: Run)
    requires Forth(iter, run0, w, i) && run0 == Live
    modifies iter, iter.stack
    ensures i < |w| && it == w[i] && Forth(iter, run, w, i + 1) && (more <==> run == Live)
  {
    it := iter.item;
    more := iter.Next();
    run := if more then Live else Over;
  }

  method StepBack(iter: Iter, ghost run0: Run, ghost w: seq<Item>, ghost n: nat) returns (it: Item, more: bool, ghost run: Run)
    requires Back(iter, run0, w, n) && run0 == Live
    modifies iter, iter.stack
    ensures 0 < n <= |w| && it == w[n - 1] && Back(iter, run, w, n - 1) && (more <==> run == Live)
  {
    it := iter.item;
    more := iter.Prev();
    run := if more then Live else Over;
  }

  method SeekForth(iter: Iter, key: Key, ghost w: seq<Item>) returns (more: bool, ghost run: Run)
    requires iter.Ready() && w == iter.forest.Contents(iter.t)
    modifies iter, iter.stack
    ensures Forth(iter, run, w, Rank(w, key)) && (more <==> run == Live)
  {
    more := iter.Seek(key);
    run := if more then Live else Over;
  }

  /** From item `r` on, `Next` visits every item once, in order. */
  method Collect(iter: Iter, more0: bool, ghost run0: Run, ghost w: seq<Item>, ghost r: nat) returns (seen: seq<Item>)
    requires Forth(iter, run0, w, r) && (more0 <==> run0 == Live) && r <= |w|
    modifies iter, iter.stack
    ensures Forth(iter, Over, w, |w|) && seen == w[r..]
  {
    hide Iter.Ready, Iter.Pos, Sorted;
    var more := more0;
    ghost var run, i := run0, r;
    seen := [];
    while more
      invariant Forth(iter, run, w, i) && (more <==> run == Live) && Taken(seen, w, r, i)
      decreases |w| - i, more
    {
      seen, more, run := TakeForth(iter, seen, run, w, r, i);
      i := i + 1;
    }
    assert Forth(iter, run, w, i);
  }

  ghost predicate Taken(seen: seq<Item>, w: seq<Item>, r: nat, i: nat) {
    r <= i <= |w| && seen == w[r..i]
  }

  method TakeForth(iter: Iter, seen0: seq<Item>, ghost run0: Run, ghost w: seq<Item>, ghost r: nat, ghost i: nat)
    returns (seen: seq<Item>, more: bool, ghost run: Run)
    requires Forth(iter, run0, w, i) && run0 == Live && Taken(seen0, w, r, i)
    modifies iter, iter.stack
    ensures i < |w| && Taken(seen, w, r, i + 1) && Forth(iter, run, w, i + 1) && (more <==> run == Live)
  {
    var it;
    it, more, run := StepForth(iter, run0, w, i);
    SliceNext(w, r, i);
    seen := seen0 + [it];
  }

  lemma SliceNext<T>(w: seq<T>, r: nat, i: nat)
    requires r <= i < |w|
    ensures w[r..i + 1] == w[r..i] + [w[i]]
  {
  }

  /** A traversal from the first item at or above a key. */
  method Forward(iter: Iter, key: Key) returns (seen: seq<Item>)
    requires iter.Ready()
    modifies iter, iter.stack
    ensures iter.Valid() && iter.forest.Contents(iter.t) == old(iter.forest.Contents(iter.t))
    ensures seen == old(iter.forest.Contents(iter.t)[Rank(iter.forest.Contents(iter.t), key)..])
  {
    ghost var w, run := iter.forest.Contents(iter.t), Over;
    var more;
    more, run := SeekForth(iter, key, w);
    seen := Collect(iter, more, run, w, Rank(w, key));
    assert Forth(iter, Over, w, |w|);
  }

  /** From the last item on, `Prev` visits every item once, in reverse order. */
  method Backward(iter: Iter) returns (seen: seq<Item>)
    requires iter.Ready()
    modifies iter, iter.stack
    ensures iter.Valid() && |seen| == |iter.forest.Contents(iter.t)|
    ensures forall i :: 0 <= i < |seen| ==> seen[i] == iter.forest.Contents(iter.t)[|seen| - 1 - i]
  {
    hide Iter.Valid, Iter.OnItem, Iter.Pos;
    ghost var w := iter.forest.Contents(iter.t);
    ghost var n: nat := |w|;
    seen := [];
    var more := iter.Last();
    ghost var run := if more then Live else Over;
    assert Back(iter, run, w, n);
    while more
      invariant Back(iter, run, w, n) && (more <==> run == Live) && n + |seen| == |w|
      invariant forall i :: 0 <= i < |seen| ==> seen[i] == w[|w| - 1 - i]
      decreases n, more
    {
      var it;
      it, more, run := StepBack(iter, run, w, n);
      seen, n := seen + [it], n - 1;
    }
    assert Back(iter, run, w, n);
  }

  // ----- any sequence of calls

  datatype Call = First | Last | Seek(key: Key) | Next | Prev

  /** Where an iterator stands: nowhere yet, on an item, off an end of the tree, or beyond help, with a
      frame asked for at index -1 of its stack. */
  datatype Cursor = Unset | On(i: nat) | Off | Broken

  function Move(w: seq<Item>, cur: Cursor, call: Call): Cursor {
    if cur.Broken? then Broken
    else
      match call
      case First => Reach(w, 0)
      case Last => Reach(w, if w == [] then 0 else |w| - 1)
      case Seek(key) => Reach(w, Rank(w, key))
      case Next =>
        (match cur
         case Unset => Reach(w, 0)
         case On(i) => Reach(w, i + 1)
         case _ => Broken)
      case Prev =>
        (match cur
         case Unset => Unset
         case On(i) => if i > 0 then On(i - 1) else Off
         case _ => Broken)
  }

  function Reach(w: seq<Item>, i: nat): Cursor {
    if w == [] then Unset else if i < |w| then On(i) else Off
  }

  function Moves(w: seq<Item>, calls: seq<Call>): Cursor {
    if calls == [] then Unset else Move(w, Moves(w, calls[..|calls| - 1]), calls[|calls| - 1])
  }

  /** The iterator stands where the cursor says. */
  ghost predicate Shows(iter: Iter, w: seq<Item>, cur: Cursor)
    reads iter, iter.forest, iter.stack
  {
    match cur
    case Unset => iter.Valid() && iter.forest.Contents(iter.t) == w && !iter.seeked
    case On(i) => iter.Valid() && iter.forest.Contents(iter.t) == w && iter.seeked && iter.OnItem() && iter.Pos() == i
    case Off => iter.Valid() && iter.forest.Contents(iter.t) == w && iter.seeked && iter.nstack == 0
    case Broken => false
  }

  /** The top frame of the stack, where the next step would start, exists. */
  predicate TopInBounds(iter: Iter)
    reads iter
  {
    0 <= iter.nstack as int - 1 < iter.stack.Length
  }

  lemma ShownTop(iter: Iter, w: seq<Item>, cur: Cursor)
    requires Shows(iter, w, cur)
    ensures cur.On? ==> TopInBounds(iter)
    ensures cur.Off? ==> !TopInBounds(iter)
    ensures iter.seeked <==> !cur.Unset?
  {
  }

  /** One call, unless it would break the iterator. It answers whether there is an item to stand on. */
  method Perform(iter: Iter, call: Call, ghost w: seq<Item>, ghost cur: Cursor) returns (r: bool, ghost cur1: Cursor)
    requires Shows(iter, w, cur) && !Move(w, cur, call).Broken?
    modifies iter, iter.stack
    ensures cur1 == Move(w, cur, call) && Shows(iter, w, cur1) && (r <==> cur1.On?)
  {
    cur1 := Move(w, cur, call);
    match call {
      case First => r := iter.First();
      case Last => r := iter.Last();
      case Seek(key) => r := iter.Seek(key);
      case Next => r := iter.Next();
      case Prev => r := iter.Prev();
    }
  }

  lemma BreaksAt(w: seq<Item>, cur: Cursor, call: Call)
    requires !cur.Broken?
    ensures Move(w, cur, call).Broken? <==> (call.Next? || call.Prev?) && cur.Off?
  {
  }

  /** A sequence of calls breaks the iterator exactly if it steps on after having run off an end. */
  lemma {:induction false} BrokenRuns(w: seq<Item>, calls: seq<Call>)
    ensures Moves(w, calls).Broken? <==>
              exists i :: 0 <= i < |calls| && (calls[i].Next? || calls[i].Prev?) && Moves(w, calls[..i]).Off?
  {
    if calls != [] {
      var n := |calls| - 1;
      BrokenRuns(w, calls[..n]);
      forall i | 0 <= i < n
        ensures calls[..n][..i] == calls[..i]
      {
      }
      if !Moves(w, calls[..n]).Broken? {
        BreaksAt(w, Moves(w, calls[..n]), calls[n]);
      }
    }
  }

  /** Plays the calls up to the first that would start at index -1 of the stack. At every moment of every
      run the index is in bounds if and only if the iterator has never been positioned or its last
      answer was yes. */
  method Play(iter: Iter, calls: seq<Call>) returns (done: nat, answer: bool)
    requires iter.Valid() && !iter.seeked
    modifies iter, iter.stack
    ensures iter.Valid() && iter.forest.Contents(iter.t) == old(iter.forest.Contents(iter.t)) && done <= |calls|
    ensures Shows(iter, iter.forest.Contents(iter.t), Moves(iter.forest.Contents(iter.t), calls[..done]))
    ensures done < |calls| ==> Moves(iter.forest.Contents(iter.t), calls[..done + 1]).Broken?
    ensures (iter.seeked ==> TopInBounds(iter)) <==> !iter.seeked || answer
  {
    ghost var w := iter.forest.Contents(iter.t);
    ghost var cur := Unset;
    done, answer := 0, false;
    assert Shows(iter, w, cur);
    while done < |calls|
      invariant done <= |calls| && cur == Moves(w, calls[..done]) && Shows(iter, w, cur) && (answer <==> cur.On?)
    {
      ShownTop(iter, w, cur);
      BreaksAt(w, cur, calls[done]);
      MovesNext(w, calls, done);
      if (calls[done].Next? || calls[done].Prev?) && iter.seeked && iter.nstack == 0 {
        break;
      }
      answer, cur := Perform(iter, calls[done], w, cur);
      done := done + 1;
    }
    ShownTop(iter, w, cur);
  }

  lemma {:induction false} MovesNext(w: seq<Item>, calls: seq<Call>, i: nat)
    requires i < |calls|
    ensures Moves(w, calls[..i + 1]) == Move(w, Moves(w, calls[..i]), calls[i])
  {
    assert calls[..i + 1][..i] == calls[..i];
  }

  /** On a tree of one item, stepping on from it leaves no frame: another step would start at index -1. */
  method OffTheEnd(iter: Iter) returns (r: bool)
    requires iter.Ready() && |iter.forest.Contents(iter.t)| == 1
    modifies iter, iter.stack
    ensures iter.Valid() && !r && iter.seeked && !TopInBounds(iter)
  {
    r := iter.First();
    r := iter.Next();
  }

  function Times(call: Call, n: nat): seq<Call> {
    if n == 0 then [] else Times(call, n - 1) + [call]
  }

  lemma MovesSnoc(w: seq<Item>, calls: seq<Call>, call: Call)
    ensures Moves(w, calls + [call]) == Move(w, Moves(w, calls), call)
  {
    assert (calls + [call])[..|calls|] == calls;
  }

  /** From the first item, `n` steps forward come to item `n`, then off the end, then to grief. */
  lemma {:induction false} WalksForth(w: seq<Item>, n: nat)
    requires w != []
    ensures Moves(w, [First] + Times(Next, n)) == if n < |w| then On(n) else if n == |w| then Off else Broken
  {
    if n == 0 {
      MovesSnoc(w, [], First);
      assert [First] + Times(Next, 0) == [] + [First];
    } else {
      WalksForth(w, n - 1);
      assert [First] + Times(Next, n) == ([First] + Times(Next, n - 1)) + [Next];
      MovesSnoc(w, [First] + Times(Next, n - 1), Next);
    }
  }

  /** A traversal that starts with a step forward is the same. */
  lemma {:induction false} WalksUnplaced(w: seq<Item>, n: nat)
    ensures Moves(w, Times(Next, n + 1)) == Moves(w, [First] + Times(Next, n))
  {
    hide Times, Moves, Reach;
    TimesNext(Next, n);
    if n == 0 {
      UnplacedStart(w);
    } else {
      var a, b := Times(Next, n), [First] + Times(Next, n - 1);
      TimesNext(Next, n - 1);
      WalksUnplaced(w, n - 1);
      assert [First] + Times(Next, n) == b + [Next];
      MovesSnoc(w, a, Next);
      MovesSnoc(w, b, Next);
    }
  }

  lemma TimesNext(call: Call, n: nat)
    ensures Times(call, n + 1) == Times(call, n) + [call] && Times(call, 0) == []
  {
  }

  lemma UnplacedStart(w: seq<Item>)
    ensures Moves(w, Times(Next, 1)) == Moves(w, [First] + Times(Next, 0))
  {
    MovesSnoc(w, [], First);
    MovesSnoc(w, [], Next);
    assert [First] + Times(Next, 0) == [] + [First] && Times(Next, 1) == [] + [Next];
  }

  /** From the last item backwards. */
  lemma {:induction false} WalksBack(w: seq<Item>, n: nat)
    requires w != []
    ensures Moves(w, [Last] + Times(Prev, n)) == if n < |w| then On(|w| - 1 - n) else if n == |w| then Off else Broken
  {
    if n == 0 {
      MovesSnoc(w, [], Last);
      assert [Last] + Times(Prev, 0) == [] + [Last];
    } else {
      WalksBack(w, n - 1);
      assert [Last] + Times(Prev, n) == ([Last] + Times(Prev, n - 1)) + [Prev];
      MovesSnoc(w, [Last] + Times(Prev, n - 1), Prev);
    }
  }

  /** Wherever the iterator stands, seeking comes to the first item that is not below the key, and a step
      on from there to its neighbours. */
  lemma {:induction false} SeekMoves(w: seq<Item>, calls: seq<Call>, key: Key, i: nat)
    requires Sorted(w) && i < |w| && !Less(w[i].key, key) && (forall j :: 0 <= j < i ==> Less(w[j].key, key))
    requires !Moves(w, calls).Broken?
    ensures Moves(w, calls + [Seek(key)]) == On(i)
    ensures Moves(w, calls + [Seek(key)] + [Next]) == if i + 1 < |w| then On(i + 1) else Off
    ensures Moves(w, calls + [Seek(key)] + [Prev]) == if i > 0 then On(i - 1) else Off
  {
    RankUnique(w, key, i);
    MovesSnoc(w, calls, Seek(key));
    MovesSnoc(w, calls + [Seek(key)], Next);
    MovesSnoc(w, calls + [Seek(key)], Prev);
  }
}
