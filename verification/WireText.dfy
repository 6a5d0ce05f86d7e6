/** What the text on the wire is, byte for byte, and what is extracted from any line of it. */
module WireText {
  import opened Keys
  import opened SortedItems
  import opened Records
  import opened Wire
  import opened WireRoundTrip
  import opened Division

  function Pow10(i: nat): (p: nat)
    ensures p > 0
  {
    if i == 0 then 1 else 10 * Pow10(i - 1)
  }

  // ----- numbers

  lemma DivStep(n: nat, p: nat)
    requires p > 0
    ensures n / (10 * p) == n / 10 / p
  {
    var q, r := n / 10 / p, n / 10 % p;
    assert n / 10 == q * p + r;
    assert n == (q * p + r) * 10 + n % 10;
    assert n == q * (10 * p) + (10 * r + n % 10);
    Quotient(n, 10 * p, q, 10 * r + n % 10);
  }

  /** Counted from the right, digit `i` is the one for ten to the power `i`. */
  lemma {:induction false} DigitAt(n: nat, i: nat)
    requires i < |Digits(n)|
    ensures Digits(n)[|Digits(n)| - 1 - i] == 48 + n / Pow10(i) % 10
  {
    if i > 0 {
      DigitAt(n / 10, i - 1);
      DivStep(n, Pow10(i - 1));
    }
  }

  /** There are as many digits as the number needs: no leading zero, and one digit for 0. */
  lemma {:induction false} DigitsLength(n: nat)
    ensures 1 <= |Digits(n)| && n < Pow10(|Digits(n)|) && (|Digits(n)| > 1 ==> Pow10(|Digits(n)| - 1) <= n)
  {
    if n < 10 {
      assert Pow10(1) == 10 * Pow10(0);
    } else {
      DigitsLength(n / 10);
      var l := |Digits(n / 10)|;
      assert Pow10(l + 1) == 10 * Pow10(l) && Pow10(l) == 10 * Pow10(l - 1);
      if l == 1 { assert Pow10(0) == 1; }
    }
  }

  lemma NoLeadingZero(n: nat)
    requires n > 0
    ensures Digits(n)[0] != 48
  {
    DigitsLength(n);
    var l := |Digits(n)|;
    DigitAt(n, l - 1);
    var p := Pow10(l - 1);
    assert Pow10(l) == 10 * p;
    if l == 1 { assert p == 1; }
    LeadingDigit(n, p);
  }

  lemma LeadingDigit(n: nat, p: nat)
    requires 0 < p <= n < 10 * p
    ensures n / p % 10 > 0
  {
    var q := n / p;
    assert n == q * p + n % p;
    if q >= 10 { Multiple(q - 9, p); }
  }

  // ----- lines

  /** Every record ends in a newline, and there are no others unless a key or a value has one. */
  lemma {:induction false} NewlineCount(d: seq<Record>)
    requires forall i {:trigger d[i]} :: 0 <= i < |d| ==> 10 !in d[i].it.key && 10 !in d[i].it.val
    ensures multiset(Dump(d))[10] == |d|
  {
    if d != [] {
      var d0, rec := d[..|d| - 1], d[|d| - 1];
      NewlineCount(d0);
      NoneInLine(rec);
      assert multiset(Dump(d)) == multiset(Dump(d0)) + multiset(LineOf(rec)) + multiset([NEWLINE]);
    }
  }

  lemma NoneInLine(rec: Record)
    requires 10 !in rec.it.key && 10 !in rec.it.val
    ensures multiset(LineOf(rec))[10] == 0
  {
    DigitsOnly(rec.ts);
    assert 10 !in Digits(rec.ts);
    assert 10 !in LineOf(rec);
  }

  /** Two records, in the bytes that are sent. */
  method RenderSample() returns (response: Text)
    ensures response == [107, 32, 118, 32, 53, 10, 107, 50, 32, 118, 50, 32, 49, 48, 10]
  {
    var d := [Record(Item([107], [118]), 5), Record(Item([107, 50], [118, 50]), 10)];
    response := Render(d);
    assert d[..1] == [d[0]] && d[..1][..0] == [];
    assert Digits(5) == [53] && Digits(10) == [49, 48];
    assert Dump(d[..1]) == [107, 32, 118, 32, 53, 10];
    assert Dump(d) == Dump(d[..1]) + LineOf(d[1]) + [NEWLINE];
    Same(response, Dump(d), [NEWLINE]);
  }

  lemma Same(a: Text, b: Text, c: Text)
    requires a + c == b + c
    ensures a == b
  {
    assert (a + c)[..|a|] == a && (b + c)[..|b|] == b;
  }

  method RenderNothing() returns (response: Text)
    ensures response == [69, 77, 80, 84, 89]
  {
    response := Render([]);
    Same(response, EMPTY, [NEWLINE]);
  }

  /** A text is read line by line: what is before a newline, unless it is empty, then the rest. */
  lemma {:induction false} LinesMeans(l: Text, s: Text)
    requires 10 !in l
    ensures Lines(l + [10] + s) == (if l == [] then [] else [l]) + Lines(s)
    ensures Lines(l) == if l == [] then [] else [l]
  {
    var t := l + [NEWLINE] + s;
    LineEndAt(l, s);
    assert t[..|l|] == l && AfterLine(t) == s;
    if l != [] {
      LastLine(l);
      assert l[..|l|] == l && AfterLine(l) == [];
      assert Lines([]) == [];
    }
  }

  lemma {:induction false} LastLine(l: Text)
    requires 10 !in l
    ensures LineEnd(l) == |l|
  {
  }

  // ----- what is extracted from a line

  /** Tab, newline, vertical tab, form feed, carriage return and space separate words. */
  ghost predicate Blank(t: Text) { forall i :: 0 <= i < |t| ==> t[i] in {9, 10, 11, 12, 13, 32} }

  ghost predicate Solid(t: Text) { t != [] && forall i :: 0 <= i < |t| ==> t[i] !in {9, 10, 11, 12, 13, 32} }

  /** A line of three words, with any white space around them. */
  lemma ScanMeans(a: Text, k: Text, b: Text, v: Text, c: Text, n: Text, e: Text)
    requires Blank(a) && Solid(k) && Blank(b) && b != [] && Solid(v) && Blank(c) && c != [] && Solid(n) && Blank(e)
    ensures Scan(a + k + b + v + c + n + e) == Fields(k, v, Some(ReadUnsigned(n + e)))
  {
    var u := n + e;
    var t2 := v + (c + u);
    var t1 := k + (b + t2);
    assert a + k + b + v + c + n + e == a + t1;
    SkipBlank(a, t1);
    CutWord(k, b, t2);
    SkipBlank(b, t2);
    CutWord(v, c, u);
    SkipBlank(c, u);
    assert u[0] == n[0];
  }

  /** Fewer words: what is missing stays empty, a missing number is not written. */
  lemma ScanShort(a: Text, k: Text, b: Text, v: Text, e: Text)
    requires Blank(a) && Solid(k) && Blank(b) && b != [] && Solid(v) && Blank(e)
    ensures Scan(a) == Fields([], [], None)
    ensures Scan(a + k + e) == Fields(k, [], None)
    ensures Scan(a + k + b + v + e) == Fields(k, v, None)
  {
    assert a == a + [] && e == e + [];
    SkipBlank(a, []);
    SkipBlank(e, []);
    assert Scan(a) == Fields([], [], None);
    assert a + k + e == a + (k + (e + []));
    SkipBlank(a, k + (e + []));
    CutWord(k, e, []);
    assert SkipSpaces([]) == [] && WordEnd([]) == 0;
    var t := v + (e + []);
    assert a + k + b + v + e == a + (k + (b + t));
    SkipBlank(a, k + (b + t));
    CutWord(k, b, t);
    SkipBlank(b, t);
    CutWord(v, e, []);
  }

  lemma {:induction false} SkipBlank(a: Text, t: Text)
    requires Blank(a) && (t == [] || t[0] !in {9, 10, 11, 12, 13, 32})
    ensures SkipSpaces(a + t) == t
  {
    if a == [] {
      assert [] + t == t;
    } else {
      assert (a + t)[1..] == a[1..] + t && (a + t)[0] == a[0];
      SkipBlank(a[1..], t);
    }
  }

  lemma CutWord(k: Text, b: Text, t: Text)
    requires Solid(k) && Blank(b) && (b == [] ==> t == [])
    ensures var s := k + (b + t); SkipSpaces(s) == s && s[..WordEnd(s)] == k && s[WordEnd(s)..] == b + t
  {
    WordEndAt(k, b + t);
    assert (k + (b + t))[0] == k[0];
  }

  /** A decimal number is read up to what cannot belong to it; one that is too large gives the largest,
      a minus sign takes the complement, a plus sign is passed over. */
  lemma {:induction false} ReadNumber(n: nat, s: Text)
    requires s == [] || !(48 <= s[0] <= 57)
    ensures ReadUnsigned(Digits(n) + s) == if n < UINT64 then n else UINT64 - 1
    ensures ReadUnsigned([43] + Digits(n) + s) == if n < UINT64 then n else UINT64 - 1
    ensures ReadUnsigned([45] + Digits(n) + s) ==
            if n >= UINT64 then UINT64 - 1 else if n == 0 then 0 else UINT64 - n
  {
    DigitsOnly(n);
    NumberStops(Digits(n), s, 0);
    NumberOfDigits(n);
    assert IsDigit(Digits(n)[0]);
    var plus, minus := [43] + Digits(n) + s, [45] + Digits(n) + s;
    assert plus[1..] == Digits(n) + s && minus[1..] == Digits(n) + s;
  }

  lemma {:induction false} NumberStops(a: Text, s: Text, v: nat)
    requires AllDigits(a) && (s == [] || !IsDigit(s[0]))
    ensures NumberFrom(a + s, v) == NumberFrom(a, v)
  {
    if a == [] {
      assert [] + s == s;
    } else {
      assert (a + s)[1..] == a[1..] + s && (a + s)[0] == a[0];
      NumberStops(a[1..], s, 10 * v + (a[0] - ZERO));
    }
  }

  /** What does not begin as a number reads as 0. */
  lemma ReadNothing(s: Text)
    requires s == [] || !(48 <= s[0] <= 57 || s[0] == 43 || s[0] == 45)
    ensures ReadUnsigned(s) == 0
  {
  }
}
