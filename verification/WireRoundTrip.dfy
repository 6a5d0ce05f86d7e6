/** When reading a dump back gives the records that were dumped. */
module WireRoundTrip {
  import opened Keys
  import opened SortedItems
  import opened Records
  import opened RecordTables
  import opened Replication
  import opened Wire

  ghost predicate Word(t: Text) { t != [] && Clean(t) }

  /** Keys and values are single words. */
  ghost predicate Plain(d: seq<Record>) {
    forall i {:trigger d[i]} :: 0 <= i < |d| ==> Word(d[i].it.key) && Word(d[i].it.val)
  }

  /** Keys and values may be empty, but have no white space. */
  ghost predicate AllClean(d: seq<Record>) {
    forall i {:trigger d[i]} :: 0 <= i < |d| ==> Clean(d[i].it.key) && Clean(d[i].it.val)
  }

  /** Timestamps have 64 bits. */
  ghost predicate Stamped(d: seq<Record>) {
    forall i {:trigger d[i]} :: 0 <= i < |d| ==> d[i].ts < UINT64
  }

  // ----- numbers

  ghost predicate AllDigits(s: Text) {
    forall i :: 0 <= i < |s| ==> IsDigit(s[i])
  }

  lemma {:induction false} DigitsOnly(n: nat)
    ensures Digits(n) != [] && AllDigits(Digits(n))
  {
    if n >= 10 { DigitsOnly(n / 10); }
  }

  lemma {:induction false} NumberSnoc(a: Text, c: Byte, v: nat)
    requires AllDigits(a) && IsDigit(c)
    ensures NumberFrom(a + [c], v) == 10 * NumberFrom(a, v) + (c - ZERO)
  {
    if a == [] {
      assert [] + [c] == [c];
      assert NumberFrom([c], v) == NumberFrom([c][1..], 10 * v + (c - ZERO));
    } else {
      assert (a + [c])[1..] == a[1..] + [c];
      NumberSnoc(a[1..], c, 10 * v + (a[0] - ZERO));
    }
  }

  lemma {:induction false} NumberOfDigits(n: nat)
    ensures NumberFrom(Digits(n), 0) == n
  {
    if n < 10 {
      NumberSnoc([], ZERO + n, 0);
    } else {
      DigitsOnly(n / 10);
      NumberOfDigits(n / 10);
      NumberSnoc(Digits(n / 10), ZERO + n % 10, 0);
    }
  }

  /** Reading back a decimal timestamp. */
  lemma {:induction false} NumberRoundTrip(n: nat)
    requires n < UINT64
    ensures ReadUnsigned(Digits(n)) == n
  {
    DigitsOnly(n);
    NumberOfDigits(n);
    assert IsDigit(Digits(n)[0]);
  }

  // ----- words

  lemma {:induction false} WordEndAt(w: Text, s: Text)
    requires Clean(w) && (s == [] || IsSpace(s[0]))
    ensures WordEnd(w + s) == |w|
  {
    if w == [] {
      assert [] + s == s;
    } else {
      assert (w + s)[1..] == w[1..] + s;
      assert (w + s)[0] == w[0];
      WordEndAt(w[1..], s);
    }
  }

  lemma {:induction false} SkipOne(w: Text)
    requires w != [] && !IsSpace(w[0])
    ensures SkipSpaces([SPACE] + w) == w
  {
    assert ([SPACE] + w)[1..] == w;
  }

  /** A clean, non-empty word at the front of a text with a space behind it. */
  lemma {:induction false} FirstWord(w: Text, s: Text)
    requires Word(w) && s != [] && IsSpace(s[0])
    ensures SkipSpaces(w + s) == w + s && (w + s)[..WordEnd(w + s)] == w && (w + s)[WordEnd(w + s)..] == s
  {
    WordEndAt(w, s);
  }

  lemma {:induction false} DigitsClean(n: nat)
    ensures Word(Digits(n))
  {
    DigitsOnly(n);
    var s := Digits(n);
    forall i | 0 <= i < |s|
      ensures !IsSpace(s[i])
    {
      assert IsDigit(s[i]);
    }
  }

  lemma ScanLine(rec: Record)
    requires Word(rec.it.key) && Word(rec.it.val) && rec.ts < UINT64
    ensures Scan(LineOf(rec)) == Fields(rec.it.key, rec.it.val, Some(rec.ts))
  {
    var k, v, n := rec.it.key, rec.it.val, Digits(rec.ts);
    var s, t := [SPACE] + (v + ([SPACE] + n)), [SPACE] + n;
    DigitsClean(rec.ts);
    NumberRoundTrip(rec.ts);
    assert LineOf(rec) == k + s;
    FirstWord(k, s);
    SkipOne(v + t);
    FirstWord(v, t);
    SkipOne(n);
  }

  /** An empty key or an empty value lets a later word slip into its place. */
  lemma ScanSlips(rec: Record)
    requires Clean(rec.it.key) && Clean(rec.it.val) && (rec.it.key == [] || rec.it.val == [])
    ensures Item(Scan(LineOf(rec)).key, Scan(LineOf(rec)).val) != rec.it
  {
    var k, v, n := rec.it.key, rec.it.val, Digits(rec.ts);
    DigitsClean(rec.ts);
    if k == [] {
      var s := v + ([SPACE] + n);
      assert LineOf(rec) == [SPACE] + s;
      SkipStays(s, n);
    } else {
      var s := [SPACE] + ([SPACE] + n);
      assert LineOf(rec) == k + s;
      FirstWord(k, s);
      assert s[1..] == [SPACE] + n;
      SkipOne(n);
    }
  }

  lemma {:induction false} SkipStays(s: Text, n: Text)
    requires |n| <= |s| && n == s[|s| - |n|..] && Word(n)
    ensures SkipSpaces([SPACE] + s) != [] && WordEnd(SkipSpaces([SPACE] + s)) > 0
  {
    assert ([SPACE] + s)[1..] == s;
    SkipKeeps(s, n);
  }

  lemma {:induction false} SkipKeeps(s: Text, n: Text)
    requires |n| <= |s| && n == s[|s| - |n|..] && Word(n)
    ensures SkipSpaces(s) != []
  {
    if IsSpace(s[0]) {
      assert s[1..][|s| - 1 - |n|..] == n;
      SkipKeeps(s[1..], n);
    }
  }

  // ----- lines

  lemma {:induction false} LineEndAt(l: Text, s: Text)
    requires NEWLINE !in l
    ensures LineEnd(l + [NEWLINE] + s) == |l|
  {
    if l != [] {
      assert (l + [NEWLINE] + s)[1..] == l[1..] + [NEWLINE] + s;
      LineEndAt(l[1..], s);
    }
  }

  lemma {:induction false} LinesCut(l: Text, s: Text)
    requires NEWLINE !in l && l != []
    ensures Lines(l + [NEWLINE] + s) == [l] + Lines(s)
  {
    var t := l + [NEWLINE] + s;
    LineEndAt(l, s);
    assert t[..|l|] == l && AfterLine(t) == s;
  }

  function LinesOf(d: seq<Record>): (r: seq<Text>)
    ensures |r| == |d| && forall i :: 0 <= i < |d| ==> r[i] == LineOf(d[i])
  {
    if d == [] then [] else LinesOf(d[..|d| - 1]) + [LineOf(d[|d| - 1])]
  }

  lemma LineClean(rec: Record)
    requires Clean(rec.it.key) && Clean(rec.it.val)
    ensures NEWLINE !in LineOf(rec) && LineOf(rec) != []
  {
    DigitsClean(rec.ts);
    var k, v, n := rec.it.key, rec.it.val, Digits(rec.ts);
    NoNewline(k);
    NoNewline(v);
    NoNewline(n);
  }

  lemma NoNewline(t: Text)
    requires Clean(t)
    ensures NEWLINE !in t
  {
  }

  lemma {:induction false} LinesOfDump(d: seq<Record>, s: Text)
    requires AllClean(d)
    ensures Lines(Dump(d) + s) == LinesOf(d) + Lines(s)
  {
    if d == [] {
      assert [] + s == s && [] + Lines(s) == Lines(s);
    } else {
      var d0, l := d[..|d| - 1], LineOf(d[|d| - 1]);
      LineClean(d[|d| - 1]);
      calc {
        Lines(Dump(d) + s);
        { Regroup(Dump(d0), l, [NEWLINE], s); }
        Lines(Dump(d0) + (l + [NEWLINE] + s));
        { LinesOfDump(d0, l + [NEWLINE] + s); }
        LinesOf(d0) + Lines(l + [NEWLINE] + s);
        { LinesCut(l, s); }
        LinesOf(d0) + ([l] + Lines(s));
        { Regroup2(LinesOf(d0), [l], Lines(s)); }
        LinesOf(d) + Lines(s);
      }
    }
  }

  lemma Regroup<T>(a: seq<T>, b: seq<T>, c: seq<T>, e: seq<T>)
    ensures (a + b + c) + e == a + (b + c + e)
  {
  }

  lemma Regroup2<T>(a: seq<T>, b: seq<T>, c: seq<T>)
    ensures a + (b + c) == (a + b) + c
  {
  }

  lemma {:induction false} AnswerLines(d: seq<Record>)
    ensures d != [] && AllClean(d) ==> Lines(Answer(d)) == LinesOf(d)
    ensures d == [] ==> Lines(Answer(d)) == [EMPTY]
  {
    var end: Text := [NEWLINE];
    assert Lines(end) == [] by {
      assert LineEnd(end) == 0 && AfterLine(end) == [];
    }
    if d == [] {
      LinesCut(EMPTY, []);
      assert EMPTY + [NEWLINE] + [] == Answer(d);
    } else if AllClean(d) {
      LinesOfDump(d, end);
      assert LinesOf(d) + [] == LinesOf(d);
    }
  }

  // ----- the round trip

  lemma {:induction false} ParsedAt(r: seq<Record>, lines: seq<Text>, i: nat)
    requires Parsed(r, lines)
    ensures |r| == |lines|
    ensures i < |r| ==> Fits(r[i], Scan(lines[i]))
  {
    if r != [] && lines != [] {
      ParsedAt(r[..|r| - 1], lines[..|lines| - 1], if i < |r| - 1 then i else 0);
      if i < |r| - 1 {
        assert r[..|r| - 1][i] == r[i] && lines[..|lines| - 1][i] == lines[i];
      }
    }
  }

  /** Whatever is parsed has no white space in it. */
  lemma {:induction false} ParsedClean(r: seq<Record>, lines: seq<Text>)
    requires Parsed(r, lines)
    ensures AllClean(r)
  {
    forall i | 0 <= i < |r|
      ensures Clean(r[i].it.key) && Clean(r[i].it.val)
    {
      ParsedAt(r, lines, i);
    }
  }

  /** Reading back what was dumped gives the same records, timestamps included, exactly if there are
      any records and all their keys and values are single words. */
  lemma {:induction false} RoundTrip(d: seq<Record>, r: seq<Record>)
    requires Stamped(d) && Parsed(r, Lines(Answer(d)))
    ensures r == d <==> d != [] && Plain(d)
  {
    AnswerLines(d);
    ParsedAt(r, Lines(Answer(d)), 0);
    ParsedClean(r, Lines(Answer(d)));
    if d != [] && Plain(d) {
      forall i | 0 <= i < |d|
        ensures r[i] == d[i]
      {
        ParsedAt(r, LinesOf(d), i);
        ScanLine(d[i]);
      }
    } else if r == d {
      NotPlain(d);
    }
  }

  lemma {:induction false} NotPlain(d: seq<Record>)
    requires d != [] && AllClean(d) && Parsed(d, LinesOf(d))
    ensures Plain(d)
  {
    forall i | 0 <= i < |d|
      ensures Word(d[i].it.key) && Word(d[i].it.val)
    {
      ParsedAt(d, LinesOf(d), i);
      if d[i].it.key == [] || d[i].it.val == [] {
        ScanSlips(d[i]);
      }
    }
  }

  /** Pulling from a replica over the wire is the join with its table. */
  lemma {:induction false} PullOverWire(t: Table, d: seq<Record>, r: seq<Record>)
    requires UniqueKeys(d) && Stamped(d) && d != [] && Plain(d) && Parsed(r, Lines(Answer(d)))
    ensures Merge(t, r) == Join(t, TableOf(d))
  {
    RoundTrip(d, r);
    MergeIsJoin(t, d);
  }

  /** Pulling from an empty replica is not: its answer reads as a record, with the word `EMPTY` as its
      key, no value and an arbitrary timestamp, and that key is in the local table from then on. */
  lemma {:induction false} EmptyRemote(t: Table, r: seq<Record>)
    requires Parsed(r, Lines(Answer([])))
    ensures |r| == 1 && r[0].it == Item(EMPTY, []) && Merge(t, r).Keys == t.Keys + {EMPTY}
    ensures EMPTY !in t ==> Merge(t, r) != Join(t, TableOf([]))
  {
    AnswerLines([]);
    ParsedAt(r, [EMPTY], 0);
    EmptyScan();
    MergeSingle(t, r);
  }

  lemma EmptyScan()
    ensures Scan(EMPTY) == Fields(EMPTY, [], None)
  {
    WordEndAt(EMPTY, []);
    assert EMPTY + [] == EMPTY;
  }

  lemma {:induction false} MergeSingle(t: Table, r: seq<Record>)
    requires |r| == 1
    ensures Merge(t, r) == MergeOne(t, r[0])
  {
    assert r[..0] == [];
  }
}
