/** One connection of the server: a byte stream in, cut into commands at newlines, and a queue of
    responses out. */
module Framing {
  import opened Keys

  const LF: Octet := 10

  /** Where the first newline is; the length if there is none. */
  function Find(s: Bytes): (e: nat)
    ensures e <= |s| && LF !in s[..e] && (e < |s| ==> s[e] == LF)
  {
    if s == [] || s[0] == LF then 0 else 1 + Find(s[1..])
  }

  /** The complete commands at the front of a stream, and the unfinished one behind them. */
  function Commands(s: Bytes): seq<Bytes>
    decreases |s|
  {
    if Find(s) == |s| then [] else [s[..Find(s)]] + Commands(s[Find(s) + 1..])
  }

  function Pending(s: Bytes): Bytes
    decreases |s|
  {
    if Find(s) == |s| then s else Pending(s[Find(s) + 1..])
  }

  /** The stream a list of commands is sent as. */
  function Framed(cs: seq<Bytes>): Bytes {
    if cs == [] then [] else cs[0] + [LF] + Framed(cs[1..])
  }

  function Flatten(chunks: seq<Bytes>): Bytes {
    if chunks == [] then [] else Flatten(chunks[..|chunks| - 1]) + chunks[|chunks| - 1]
  }

  /** Responses as they are queued. */
  function Ended(rs: seq<Bytes>): seq<Bytes> {
    seq(|rs|, i requires 0 <= i < |rs| => rs[i] + [LF])
  }

  class Connection {
    var buffer: Bytes
    var sendQueue: seq<Bytes>
    ghost var stream: Bytes
    ghost var commands: seq<Bytes>
    ghost var responses: seq<Bytes>

    /** The commands run so far are exactly those that are complete in the stream so far, the buffer
        holds the rest of the stream, and every command has its response in the queue. */
    ghost predicate Valid()
      reads this
    {
      && commands == Commands(stream) && buffer == Pending(stream)
      && |responses| == |commands| && sendQueue == Ended(responses)
    }

    constructor ()
      ensures Valid() && stream == []
    {
      buffer, sendQueue, stream, commands, responses := [], [], [], [], [];
    }

    /** Runs one command against the engines, whose answer may be anything. */
    method ProcessCommand(command: Bytes) returns (response: Bytes)
      modifies this`commands, this`responses
      ensures commands == old(commands) + [command] && responses == old(responses) + [response]
      ensures old(responses) <= responses && Ended(responses) == Ended(old(responses)) + [response + [LF]]
    {
      response := *;
      commands, responses := commands + [command], responses + [response];
    }

    method ProcessReceivedData()
      requires commands + Commands(buffer) == Commands(stream) && Pending(buffer) == Pending(stream)
      requires |responses| == |commands| && sendQueue == Ended(responses)
      modifies this`buffer, this`sendQueue, this`commands, this`responses
      ensures Valid() && old(responses) <= responses
    {
      var it := Find(buffer);
      assert commands + [] == commands;
      if it == |buffer| {
        return;
      }
      while it != |buffer|
        invariant it == Find(buffer) && Pending(buffer) == Pending(stream)
        invariant commands + Commands(buffer) == Commands(stream)
        invariant |responses| == |commands| && sendQueue == Ended(responses) && old(responses) <= responses
        decreases |buffer|
      {
        RunFirst(it);
        it := Find(buffer);
      }
      assert commands + [] == commands;
    }

    /** Takes the first command, and the newline behind it, out of the buffer and runs it. */
    method RunFirst(it: nat)
      requires it == Find(buffer) < |buffer| && |responses| == |commands| && sendQueue == Ended(responses)
      modifies this`buffer, this`sendQueue, this`commands, this`responses
      ensures commands + Commands(buffer) == old(commands + Commands(buffer)) && Pending(buffer) == old(Pending(buffer))
      ensures |responses| == |commands| && sendQueue == Ended(responses) && old(responses) <= responses
      ensures |buffer| < |old(buffer)|
    {
      var command := buffer[..it];
      Regroup(commands, [command], Commands(buffer[it + 1..]));
      buffer := buffer[it + 1..];
      var response := ProcessCommand(command);
      sendQueue := sendQueue + [response + [LF]];
    }

    /** Whatever is read is appended to the buffer, which is then processed. */
    method HandleRead(chunk: Bytes)
      requires Valid()
      modifies this
      ensures Valid() && stream == old(stream) + chunk && old(responses) <= responses
    {
      CommandsAppend(stream, chunk);
      buffer, stream := buffer + chunk, stream + chunk;
      ProcessReceivedData();
    }

    /** Reads the chunks as they come: only the bytes count, not where they were cut. */
    method HandleReads(chunks: seq<Bytes>)
      requires Valid()
      modifies this
      ensures Valid() && stream == old(stream) + Flatten(chunks)
      ensures commands == Commands(old(stream) + Flatten(chunks))
    {
      ghost var s := stream;
      for i := 0 to |chunks|
        invariant Valid() && stream == s + Flatten(chunks[..i])
      {
        assert chunks[..i + 1][..i] == chunks[..i];
        HandleRead(chunks[i]);
      }
      assert chunks[..|chunks|] == chunks;
    }
  }

  // ----- framing

  lemma {:induction false} FindAt(c: Bytes, s: Bytes)
    requires LF !in c
    ensures Find(c + [LF] + s) == |c|
  {
    if c != [] {
      assert (c + [LF] + s)[1..] == c[1..] + [LF] + s;
      FindAt(c[1..], s);
    }
  }

  lemma {:induction false} FirstCommand(c: Bytes, t: Bytes)
    requires LF !in c
    ensures Commands(c + [LF] + t) == [c] + Commands(t) && Pending(c + [LF] + t) == Pending(t)
  {
    FindAt(c, t);
    var s := c + [LF] + t;
    assert s[..|c|] == c && s[|c| + 1..] == t;
  }

  lemma {:induction false} NoCommand(c: Bytes)
    requires LF !in c
    ensures Commands(c) == [] && Pending(c) == c && Framed([]) + c == c
  {
    assert [] + c == c;
  }

  /** The first command of a stream, and the stream after it. */
  lemma FirstCut(s: Bytes) returns (c: Bytes, t: Bytes)
    requires LF in s
    ensures s == c + [LF] + t && LF !in c && |t| < |s|
  {
    c, t := s[..Find(s)], s[Find(s) + 1..];
  }

  lemma {:induction false} FramedFirst(c: Bytes, cs: seq<Bytes>, rest: Bytes)
    ensures Framed([c] + cs) + rest == c + [LF] + (Framed(cs) + rest)
  {
    assert ([c] + cs)[1..] == cs;
    assert (c + [LF] + Framed(cs)) + rest == c + [LF] + (Framed(cs) + rest);
  }

  /** No command has a newline in it. */
  lemma {:induction false} CommandsPlain(s: Bytes, i: nat)
    requires i < |Commands(s)|
    ensures LF !in Commands(s)[i]
    decreases |s|
  {
    if LF in s {
      var c, t := FirstCut(s);
      FirstCommand(c, t);
      if i > 0 { CommandsPlain(t, i - 1); }
    } else {
      NoCommand(s);
    }
  }

  /** Nothing is lost, added or cut in two: the commands and the rest make up the stream. */
  lemma {:induction false} CommandsSplit(s: Bytes)
    ensures Framed(Commands(s)) + Pending(s) == s && LF !in Pending(s)
    ensures forall i :: 0 <= i < |Commands(s)| ==> LF !in Commands(s)[i]
    decreases |s|
  {
    forall i | 0 <= i < |Commands(s)|
      ensures LF !in Commands(s)[i]
    {
      CommandsPlain(s, i);
    }
    if LF in s {
      var c, t := FirstCut(s);
      CommandsSplit(t);
      SplitStep(s, c, t, Commands(t), Pending(t));
    } else {
      NoCommand(s);
    }
  }

  lemma {:induction false} SplitStep(s: Bytes, c: Bytes, t: Bytes, cs: seq<Bytes>, rest: Bytes)
    requires s == c + [LF] + t && LF !in c && Framed(cs) + rest == t && Commands(t) == cs && Pending(t) == rest
    ensures Commands(s) == [c] + cs && Pending(s) == rest && Framed([c] + cs) + rest == s
  {
    FirstCommand(c, t);
    FramedFirst(c, cs, rest);
  }

  /** And the only way to make it up like that: what was sent is what is run. */
  lemma {:induction false} FramedCommands(cs: seq<Bytes>, rest: Bytes)
    requires LF !in rest && forall i :: 0 <= i < |cs| ==> LF !in cs[i]
    ensures Commands(Framed(cs) + rest) == cs && Pending(Framed(cs) + rest) == rest
  {
    if cs == [] {
      NoCommand(rest);
    } else {
      assert cs == [cs[0]] + cs[1..];
      FramedCommands(cs[1..], rest);
      FramedFirst(cs[0], cs[1..], rest);
      FirstCommand(cs[0], Framed(cs[1..]) + rest);
    }
  }

  /** Bytes read later only add to what was read before. */
  lemma {:induction false} CommandsAppend(a: Bytes, b: Bytes)
    ensures Commands(a + b) == Commands(a) + Commands(Pending(a) + b)
    ensures Pending(a + b) == Pending(Pending(a) + b)
    decreases |a|
  {
    if LF in a {
      var c, t := FirstCut(a);
      CommandsAppend(t, b);
      AppendStep(a, b, c, t);
      Regroup([c], Commands(t), Commands(Pending(t) + b));
    } else {
      NoCommand(a);
      assert [] + Commands(a + b) == Commands(a + b);
    }
  }

  lemma {:induction false} AppendStep(a: Bytes, b: Bytes, c: Bytes, t: Bytes)
    requires a == c + [LF] + t && LF !in c
    ensures Commands(a) == [c] + Commands(t) && Pending(a) == Pending(t)
    ensures Commands(a + b) == [c] + Commands(t + b) && Pending(a + b) == Pending(t + b)
  {
    FirstCommand(c, t);
    FirstCommand(c, t + b);
    Reassociate(c, [LF], t, b);
  }

  lemma Reassociate<T>(x: seq<T>, y: seq<T>, z: seq<T>, w: seq<T>)
    ensures (x + y + z) + w == x + y + (z + w)
  {
  }

  lemma Regroup<T>(x: seq<T>, y: seq<T>, z: seq<T>)
    ensures x + (y + z) == (x + y) + z
  {
  }

  /** The stream may be cut anywhere: the same commands are run. */
  method ChunkingIrrelevant(chunks: seq<Bytes>, others: seq<Bytes>)
    returns (c: Connection, e: Connection)
    requires Flatten(chunks) == Flatten(others)
    ensures c.commands == e.commands == Commands(Flatten(chunks)) && c.buffer == e.buffer
    ensures |c.sendQueue| == |e.sendQueue| == |c.commands|
  {
    c := new Connection();
    e := new Connection();
    assert [] + Flatten(chunks) == Flatten(chunks);
    c.HandleReads(chunks);
    e.HandleReads(others);
  }

  /** Reads are joined in their order, nothing between them; each command and each response ends in a newline. */
  lemma {:induction false} Joined(a: seq<Bytes>, b: seq<Bytes>, c: Bytes)
    ensures Flatten(a + b) == Flatten(a) + Flatten(b) && Flatten([c]) == c
    ensures Framed(a + b) == Framed(a) + Framed(b) && Framed([c]) == c + [10]
    ensures Ended(a + b) == Ended(a) + Ended(b) && Ended([c]) == [c + [10]]
  {
    FlattenJoin(a, b);
    FramedJoin(a, b);
    assert [c][..0] == [] && [c][1..] == [];
    assert Flatten([c]) == [] + c && Framed([c]) == c + [LF] + [];
  }

  lemma {:induction false} FlattenJoin(a: seq<Bytes>, b: seq<Bytes>)
    ensures Flatten(a + b) == Flatten(a) + Flatten(b)
  {
    if b == [] {
      assert a + b == a;
    } else {
      assert (a + b)[..|a + b| - 1] == a + b[..|b| - 1];
      FlattenJoin(a, b[..|b| - 1]);
    }
  }

  lemma {:induction false} FramedJoin(a: seq<Bytes>, b: seq<Bytes>)
    ensures Framed(a + b) == Framed(a) + Framed(b)
  {
    if a == [] {
      assert a + b == b;
    } else {
      assert (a + b)[1..] == a[1..] + b;
      FramedJoin(a[1..], b);
    }
  }
}
