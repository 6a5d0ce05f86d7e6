/** The text a server answers a dump request with, and how the pulling side reads it back. */
module Wire {
  import opened Keys
  import opened SortedItems
  import opened Records

  type Text = seq<Byte>

  const NEWLINE: Byte := 10
  const SPACE: Byte := 32
  const ZERO: Byte := 48
  const PLUS: Byte := 43
  const MINUS: Byte := 45
  const EMPTY: Text := [69, 77, 80, 84, 89]
  const UINT64: nat := 0x1_0000_0000_0000_0000

  // ----- writing

  /** Decimal digits, most significant first. */
  function Digits(n: nat): Text {
    (if n < 10 then [] else Digits(n / 10)) + [ZERO + n % 10]
  }

  function LineOf(rec: Record): Text {
    rec.it.key + [SPACE] + rec.it.val + [SPACE] + Digits(rec.ts)
  }

  function Dump(d: seq<Record>): Text {
    if d == [] then [] else Dump(d[..|d| - 1]) + LineOf(d[|d| - 1]) + [NEWLINE]
  }

  /** What goes over the wire: the response and the newline that ends every response. */
  function Answer(d: seq<Record>): Text {
    (if d == [] then EMPTY else Dump(d)) + [NEWLINE]
  }

  method Render(d: seq<Record>) returns (response: Text)
    ensures response + [NEWLINE] == Answer(d)
  {
    if d == [] {
      return EMPTY;
    }
    response := [];
    for i := 0 to |d|
      invariant response == Dump(d[..i])
    {
      assert d[..i + 1][..i] == d[..i];
      ghost var r := response;
      response := response + d[i].it.key;
      response := response + [SPACE];
      response := response + d[i].it.val;
      response := response + [SPACE];
      response := response + Digits(d[i].ts);
      response := response + [NEWLINE];
      assert response == r + LineOf(d[i]) + [NEWLINE];
    }
    assert d[..|d|] == d;
  }

  // ----- reading

  predicate IsSpace(b: Byte) { 9 <= b <= 13 || b == SPACE }

  predicate IsDigit(b: Byte) { ZERO <= b <= ZERO + 9 }

  function LineEnd(s: Text): (e: nat)
    ensures e <= |s| && NEWLINE !in s[..e] && (e < |s| ==> s[e] == NEWLINE)
  {
    if s == [] || s[0] == NEWLINE then 0 else 1 + LineEnd(s[1..])
  }

  function AfterLine(s: Text): (r: Text)
    requires s != []
    ensures |r| < |s|
  {
    var e := LineEnd(s);
    if e < |s| then s[e + 1..] else []
  }

  /** The lines of a text that are not empty. */
  function Lines(s: Text): seq<Text>
    decreases |s|
  {
    if s == [] then []
    else (if LineEnd(s) == 0 then [] else [s[..LineEnd(s)]]) + Lines(AfterLine(s))
  }

  function SkipSpaces(s: Text): (r: Text)
    ensures |r| <= |s| && (r != [] ==> !IsSpace(r[0]))
  {
    if s != [] && IsSpace(s[0]) then SkipSpaces(s[1..]) else s
  }

  function WordEnd(s: Text): (e: nat)
    ensures e <= |s| && Clean(s[..e]) && (s != [] && !IsSpace(s[0]) ==> e > 0)
  {
    if s == [] || IsSpace(s[0]) then 0 else 1 + WordEnd(s[1..])
  }

  ghost predicate Clean(t: Text) {
    forall i :: 0 <= i < |t| ==> !IsSpace(t[i])
  }

  function NumberFrom(s: Text, v: nat): nat {
    if s != [] && IsDigit(s[0]) then NumberFrom(s[1..], 10 * v + (s[0] - ZERO)) else v
  }

  /** Extraction of an unsigned 64-bit number: a sign is allowed and negates modulo 2^64; too large a
      number gives the largest one, no digits give 0. */
  function ReadUnsigned(s: Text): nat {
    var sign := if s == [] then ZERO else s[0];
    var v := NumberFrom(if sign == PLUS || sign == MINUS then s[1..] else s, 0);
    if v >= UINT64 then UINT64 - 1 else if sign == MINUS && v > 0 then UINT64 - v else v
  }

  /** What is extracted from a line. Words that are missing stay empty; a missing number is not
      written at all. */
  datatype Fields = Fields(key: Key, val: Value, ts: Option<nat>)

  function Scan(line: Text): Fields {
    var s := SkipSpaces(line);
    var t := SkipSpaces(s[WordEnd(s)..]);
    var u := SkipSpaces(t[WordEnd(t)..]);
    Fields(s[..WordEnd(s)], t[..WordEnd(t)], if u == [] then None else Some(ReadUnsigned(u)))
  }

  /** The timestamp of a line without a number is whatever the uninitialised variable held. */
  ghost predicate Fits(rec: Record, f: Fields) {
    rec.it == Item(f.key, f.val) && rec.ts < UINT64 && (f.ts.Some? ==> rec.ts == f.ts.value)
  }

  ghost predicate Parsed(r: seq<Record>, lines: seq<Text>) {
    if r == [] || lines == [] then r == [] && lines == []
    else Parsed(r[..|r| - 1], lines[..|lines| - 1]) && Fits(r[|r| - 1], Scan(lines[|lines| - 1]))
  }

  /** One line, by stream extraction. */
  method ParseLine(line: Text) returns (rec: Record)
    ensures Fits(rec, Scan(line))
  {
    var timestamp: nat :| timestamp < UINT64;
    var f := Scan(line);
    if f.ts.Some? {
      timestamp := f.ts.value;
    }
    rec := Record(Item(f.key, f.val), timestamp);
  }

  lemma {:induction false} ParsedNext(r: seq<Record>, lines: seq<Text>, rec: Record, line: Text)
    requires Parsed(r, lines) && Fits(rec, Scan(line))
    ensures Parsed(r + [rec], lines + [line])
  {
    assert (r + [rec])[..|r|] == r && (lines + [line])[..|lines|] == lines;
  }

  method Parse(text: Text) returns (result: seq<Record>)
    ensures Parsed(result, Lines(text))
  {
    result := [];
    var rest := text;
    ghost var done: seq<Text> := [];
    while rest != []
      invariant Parsed(result, done) && Lines(text) == done + Lines(rest)
      decreases |rest|
    {
      var line := rest[..LineEnd(rest)];
      LinesNext(rest, done, line);
      rest := AfterLine(rest);
      if line != [] {
        var rec := ParseLine(line);
        ParsedNext(result, done, rec, line);
        result, done := result + [rec], done + [line];
      }
    }
    assert done + [] == done;
  }

  lemma {:induction false} LinesNext(rest: Text, done: seq<Text>, line: Text)
    requires rest != [] && line == rest[..LineEnd(rest)]
    ensures done + Lines(rest) == (if line == [] then done else done + [line]) + Lines(AfterLine(rest))
  {
    hide Lines, LineEnd, AfterLine;
    LinesHead(rest, line);
    var more := Lines(AfterLine(rest));
    if line != [] {
      assert done + ([line] + more) == (done + [line]) + more;
    }
  }

  lemma {:induction false} LinesHead(rest: Text, line: Text)
    requires rest != [] && line == rest[..LineEnd(rest)]
    ensures Lines(rest) == if line == [] then Lines(AfterLine(rest)) else [line] + Lines(AfterLine(rest))
  {
  }
}
