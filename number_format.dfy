/**
 * `numberWithCommas` of the web client (frontend/web-app/app/lib/numberWithComma.ts):
 * the number's text, with "," inserted at every position matched by the
 * regular expression \B(?=(\d{3})+(?!\d)).
 *
 * The regular expression is modelled by what it tests at one position: the
 * zero-width \B (not a word boundary) and the lookahead "one or more groups
 * of three digits, then no digit". A separate reference definition groups the
 * digits by threes from the right; the two are proved equal.
 */
module NumberFormat {

  predicate IsDigit(c: char) { '0' <= c <= '9' }

  predicate AllDigits(s: string) {
    forall i :: 0 <= i < |s| ==> IsDigit(s[i])
  }

  function DigitChar(d: nat): (c: char)
    requires d < 10
    ensures IsDigit(c)
  {
    (d + '0' as int) as char
  }

  function DigitValue(c: char): (d: nat)
    requires IsDigit(c)
    ensures d < 10
  {
    c as int - '0' as int
  }

  /** Decimal digits of a natural number, most significant first, no leading zero. */
  function NatToDecimal(n: nat): (s: string)
    ensures |s| > 0 && AllDigits(s)
    decreases n
  {
    if n < 10 then [DigitChar(n)] else NatToDecimal(n / 10) + [DigitChar(n % 10)]
  }

  /** Number.prototype.toString on a safe integer (|n| <= 2^53); larger values print a rounded shortest decimal. */
  function IntToString(n: int): string {
    if n < 0 then "-" + NatToDecimal(-n) else NatToDecimal(n)
  }

  /** The value of a string of decimal digits. */
  function DecimalToNat(s: string): nat
    requires AllDigits(s)
  {
    if s == [] then 0 else DecimalToNat(s[..|s| - 1]) * 10 + DigitValue(s[|s| - 1])
  }

  /** Reads back the text IntToString produces. */
  function ParseInt(s: string): int
    requires s != [] && (s[0] == '-' ==> AllDigits(s[1..])) && (s[0] != '-' ==> AllDigits(s))
  {
    if s[0] == '-' then -(DecimalToNat(s[1..]) as int) else DecimalToNat(s)
  }

  lemma {:induction false} NatToDecimalRoundTrip(n: nat)
    ensures DecimalToNat(NatToDecimal(n)) == n
  {
    if n >= 10 {
      var s := NatToDecimal(n);
      assert s[..|s| - 1] == NatToDecimal(n / 10);
      NatToDecimalRoundTrip(n / 10);
    }
  }

  /** The text of an integer reads back as that integer. */
  lemma IntToStringRoundTrip(n: int)
    ensures var s := IntToString(n);
      s != [] && (s[0] == '-' ==> AllDigits(s[1..])) && (s[0] != '-' ==> AllDigits(s))
      && ParseInt(s) == n
  {
    if n < 0 {
      NatToDecimalRoundTrip(-n);
      assert IntToString(n)[1..] == NatToDecimal(-n);
    } else {
      NatToDecimalRoundTrip(n);
    }
  }

  lemma {:induction false} NatToDecimalShort(n: nat)
    requires n < 1000
    ensures |NatToDecimal(n)| <= 3
  {
    if n >= 10 {
      NatToDecimalShort(n / 10);
      if n / 10 >= 10 { NatToDecimalShort(n / 100); }
    }
  }

  // ---------------------------------------------------------------------
  // The regular expression \B(?=(\d{3})+(?!\d)), position by position.

  /** \w in a JavaScript regular expression. */
  predicate IsWordChar(c: char) {
    'a' <= c <= 'z' || 'A' <= c <= 'Z' || IsDigit(c) || c == '_'
  }

  /** \B at position p: the characters on both sides are alike as word characters (an end counts as non-word). */
  predicate NotWordBoundary(s: string, p: nat)
    requires p <= |s|
  {
    (p > 0 && IsWordChar(s[p - 1])) == (p < |s| && IsWordChar(s[p]))
  }

  /** (\d{3})+(?!\d) matched from p with exactly m digits consumed. */
  predicate GroupsOfThreeAt(s: string, p: nat, m: nat)
    requires p + m <= |s|
  {
    m > 0 && m % 3 == 0 && AllDigits(s[p..p + m]) && (p + m == |s| || !IsDigit(s[p + m]))
  }

  /** The lookahead (?=(\d{3})+(?!\d)) succeeds at position p. */
  predicate GroupsAhead(s: string, p: nat)
    requires p <= |s|
  {
    exists m | 1 <= m <= |s| - p :: GroupsOfThreeAt(s, p, m)
  }

  /** The whole pattern matches (an empty match) at position p. */
  predicate CommaMatch(s: string, p: nat)
    requires p <= |s|
  {
    NotWordBoundary(s, p) && GroupsAhead(s, p)
  }

  /** String.prototype.replace with a global pattern: every position from p on is tried once. */
  function ReplaceFrom(s: string, p: nat): string
    requires p <= |s|
    decreases |s| - p
  {
    (if CommaMatch(s, p) then "," else "") + (if p < |s| then [s[p]] + ReplaceFrom(s, p + 1) else "")
  }

  /** numberWithCommas, restricted to integers. */
  function NumberWithCommas(amount: int): string {
    ReplaceFrom(IntToString(amount), 0)
  }

  // ---------------------------------------------------------------------
  // Reference: digits grouped by threes from the right.

  /** Length of the leading group of a digit string of length len > 0: 1 to 3. */
  function LeadLength(len: nat): (f: nat)
    requires len > 0
    ensures 1 <= f <= 3 && f <= len && (len - f) % 3 == 0
  {
    (len - 1) % 3 + 1
  }

  /** ",ddd" for every group of three digits. */
  function Triples(e: string): string
    requires |e| % 3 == 0
  {
    if e == [] then [] else "," + e[..3] + Triples(e[3..])
  }

  /** A digit string with a comma before every group of three digits counted from the right. */
  function Grouped(d: string): string
    requires |d| > 0
  {
    var f := LeadLength(|d|);
    d[..f] + Triples(d[f..])
  }

  function RemoveCommas(s: string): (r: string)
    ensures ',' !in r
  {
    if s == [] then [] else (if s[0] == ',' then [] else [s[0]]) + RemoveCommas(s[1..])
  }

  // ---------------------------------------------------------------------
  // Where the pattern matches in the text of an integer.

  /** s is an integer's text: an optional '-' (o == 1) followed by at least one digit. */
  predicate SignedDigits(s: string, o: nat) {
    o <= 1 && o < |s| && AllDigits(s[o..]) && (o == 1 ==> s[0] == '-')
  }

  /** The run of consecutive digits starting at p. */
  function DigitRun(s: string, p: nat): (k: nat)
    requires p <= |s|
    ensures p + k <= |s|
    decreases |s| - p
  {
    if p < |s| && IsDigit(s[p]) then 1 + DigitRun(s, p + 1) else 0
  }

  lemma {:induction false} DigitRunExact(s: string, p: nat, m: nat)
    requires p + m <= |s|
    requires AllDigits(s[p..p + m]) && (p + m == |s| || !IsDigit(s[p + m]))
    ensures DigitRun(s, p) == m
    decreases m
  {
    if m > 0 {
      assert IsDigit(s[p..p + m][0]);
      assert s[p + 1..p + 1 + (m - 1)] == s[p..p + m][1..];
      DigitRunExact(s, p + 1, m - 1);
    }
  }

  lemma {:induction false} DigitRunSpans(s: string, p: nat)
    requires p <= |s|
    ensures var k := DigitRun(s, p);
      AllDigits(s[p..p + k]) && (p + k == |s| || !IsDigit(s[p + k]))
    decreases |s| - p
  {
    if p < |s| && IsDigit(s[p]) {
      DigitRunSpans(s, p + 1);
      var k := DigitRun(s, p);
      assert s[p..p + k] == [s[p]] + s[p + 1..p + 1 + (k - 1)];
    }
  }

  /** The lookahead succeeds exactly when the digit run ahead is a positive multiple of three long. */
  lemma GroupsAheadIffRun(s: string, p: nat)
    requires p <= |s|
    ensures GroupsAhead(s, p) <==> DigitRun(s, p) > 0 && DigitRun(s, p) % 3 == 0
  {
    var k := DigitRun(s, p);
    DigitRunSpans(s, p);
    if GroupsAhead(s, p) {
      var m :| 1 <= m <= |s| - p && GroupsOfThreeAt(s, p, m);
      DigitRunExact(s, p, m);
    }
    if k > 0 && k % 3 == 0 {
      assert GroupsOfThreeAt(s, p, k);
    }
  }

  /**
   * In the text of an integer the pattern matches before a digit exactly when
   * that digit is not the first one and the number of digits from it to the
   * end is a positive multiple of three.
   */
  lemma CommaMatchIff(s: string, o: nat, p: nat)
    requires SignedDigits(s, o) && p <= |s|
    ensures CommaMatch(s, p) <==> o < p < |s| && (|s| - p) % 3 == 0
  {
    GroupsAheadIffRun(s, p);
    if p < o {
      assert s[0] == '-';
      assert DigitRun(s, p) == 0;
    } else {
      assert forall i :: o <= i < |s| ==> IsDigit(s[i]) by {
        forall i | o <= i < |s| ensures IsDigit(s[i]) { assert s[o..][i - o] == s[i]; }
      }
      DigitRunExact(s, p, |s| - p);
      if p == o {
        assert o == 1 ==> !IsWordChar(s[0]);
        assert !NotWordBoundary(s, p);
      }
    }
  }

  // ---------------------------------------------------------------------
  // The replacement as a splice of commas at precomputed match positions.

  /** Inserts a comma before position q (for q >= p) wherever marks[q] holds. */
  function Splice(s: string, marks: seq<bool>, p: nat): string
    requires |marks| == |s| + 1 && p <= |s|
    decreases |s| - p
  {
    (if marks[p] then "," else "") + (if p < |s| then [s[p]] + Splice(s, marks, p + 1) else "")
  }

  /** Where the pattern matches in s, for every position 0..|s|. */
  function Matches(s: string): (marks: seq<bool>)
    ensures |marks| == |s| + 1
    ensures forall p :: 0 <= p <= |s| ==> (marks[p] <==> CommaMatch(s, p))
  {
    seq(|s| + 1, p requires 0 <= p <= |s| => CommaMatch(s, p))
  }

  lemma {:induction false} ReplaceIsSplice(s: string, p: nat)
    requires p <= |s|
    ensures ReplaceFrom(s, p) == Splice(s, Matches(s), p)
    decreases |s| - p
  {
    if p < |s| {
      ReplaceIsSplice(s, p + 1);
    }
  }

  /** The match positions of an integer's text: after the first digit, wherever a multiple of three digits remain. */
  predicate IntMarks(s: string, o: nat, marks: seq<bool>) {
    |marks| == |s| + 1 && forall p :: 0 <= p <= |s| ==> (marks[p] <==> o < p < |s| && (|s| - p) % 3 == 0)
  }

  lemma MatchesOfInt(s: string, o: nat)
    requires SignedDigits(s, o)
    ensures IntMarks(s, o, Matches(s))
  {
    forall p | 0 <= p <= |s| ensures Matches(s)[p] <==> o < p < |s| && (|s| - p) % 3 == 0 {
      CommaMatchIff(s, o, p);
    }
  }

  /** Over a stretch without marks, the text is copied unchanged. */
  lemma {:induction false} SpliceCopies(s: string, marks: seq<bool>, p: nat, e: nat)
    requires |marks| == |s| + 1 && p <= e <= |s|
    requires forall q :: p <= q < e ==> !marks[q]
    ensures Splice(s, marks, p) == s[p..e] + Splice(s, marks, e)
    decreases e - p
  {
    if p < e {
      SpliceCopies(s, marks, p + 1, e);
      assert s[p..e] == [s[p]] + s[p + 1..e];
    }
  }

  /** A mark, then two unmarked places: one comma and three characters. */
  lemma SpliceOneTriple(s: string, marks: seq<bool>, p: nat)
    requires |marks| == |s| + 1 && p + 3 <= |s|
    requires marks[p] && !marks[p + 1] && !marks[p + 2]
    ensures Splice(s, marks, p) == "," + s[p..p + 3] + Splice(s, marks, p + 3)
  {
    SpliceCopies(s, marks, p + 1, p + 3);
    assert s[p..p + 3] == [s[p]] + s[p + 1..p + 3];
  }

  /** Where a group of three starts, only its first place is marked. */
  lemma TripleMarks(s: string, o: nat, marks: seq<bool>, p: nat)
    requires IntMarks(s, o, marks) && o < p && p + 3 <= |s| && (|s| - p) % 3 == 0
    ensures marks[p] && !marks[p + 1] && !marks[p + 2] && (|s| - (p + 3)) % 3 == 0
  {
    assert |s| - p == (|s| - (p + 3)) + 3;
    ModThreeGap(|s|, p + 3, p + 1);
    ModThreeGap(|s|, p + 3, p + 2);
  }

  lemma {:induction false} SpliceTriples(s: string, o: nat, marks: seq<bool>, p: nat)
    requires IntMarks(s, o, marks) && o < p <= |s| && (|s| - p) % 3 == 0
    ensures Splice(s, marks, p) == Triples(s[p..])
    decreases |s| - p
  {
    if p < |s| {
      assert p + 3 <= |s|;
      TripleMarks(s, o, marks, p);
      SpliceOneTriple(s, marks, p);
      SpliceTriples(s, o, marks, p + 3);
      var t := s[p..];
      assert t[..3] == s[p..p + 3] && t[3..] == s[p + 3..];
    }
  }

  /** No mark falls before the end of the leading group of digits. */
  lemma LeadUnmarked(s: string, o: nat, marks: seq<bool>)
    requires IntMarks(s, o, marks) && o < |s|
    ensures forall q :: 0 <= q < o + LeadLength(|s| - o) ==> !marks[q]
  {
    var e := o + LeadLength(|s| - o);
    forall q | 0 <= q < e ensures !marks[q] {
      if o < q { ModThreeGap(|s|, e, q); }
    }
  }

  /** A sign, then the grouped digits, is the text up to the end of the leading group followed by the later groups. */
  lemma GroupedSplit(s: string, o: nat)
    requires o < |s|
    ensures var e := o + LeadLength(|s| - o);
      s[..o] + Grouped(s[o..]) == s[..e] + Triples(s[e..])
  {
    var f := LeadLength(|s| - o);
    var e := o + f;
    var d := s[o..];
    assert d[..f] == s[o..e] && d[f..] == s[e..];
    assert s[..e] == s[..o] + s[o..e];
  }

  lemma SpliceGroups(s: string, o: nat, marks: seq<bool>)
    requires IntMarks(s, o, marks) && o < |s|
    ensures Splice(s, marks, 0) == s[..o] + Grouped(s[o..])
  {
    var e := o + LeadLength(|s| - o);
    LeadUnmarked(s, o, marks);
    SpliceCopies(s, marks, 0, e);
    SpliceTriples(s, o, marks, e);
    GroupedSplit(s, o);
  }

  lemma ModThreeGap(len: int, e: int, q: int)
    requires (len - e) % 3 == 0 && 0 < e - q < 3
    ensures (len - q) % 3 != 0
  {
    assert len - q == (len - e) + (e - q);
  }

  /** The pattern's replacement on an integer's text groups its digits by threes. */
  lemma ReplaceGroups(s: string, o: nat)
    requires SignedDigits(s, o)
    ensures ReplaceFrom(s, 0) == s[..o] + Grouped(s[o..])
  {
    ReplaceIsSplice(s, 0);
    MatchesOfInt(s, o);
    SpliceGroups(s, o, Matches(s));
  }

  /** numberWithCommas agrees with the reference grouping, the sign kept in front. */
  lemma NumberWithCommasIsGrouped(n: int)
    ensures n >= 0 ==> NumberWithCommas(n) == Grouped(NatToDecimal(n))
    ensures n < 0 ==> NumberWithCommas(n) == "-" + Grouped(NatToDecimal(-n))
  {
    var s := IntToString(n);
    if n >= 0 {
      assert s[0..] == s;
      ReplaceGroups(s, 0);
    } else {
      assert s[1..] == NatToDecimal(-n);
      assert s[..1] == "-";
      ReplaceGroups(s, 1);
    }
  }

  // ---------------------------------------------------------------------
  // Properties of the output.

  lemma {:induction false} RemoveCommasAppend(a: string, b: string)
    ensures RemoveCommas(a + b) == RemoveCommas(a) + RemoveCommas(b)
  {
    if a != [] {
      assert (a + b)[0] == a[0];
      assert (a + b)[1..] == a[1..] + b;
      RemoveCommasAppend(a[1..], b);
    } else {
      assert a + b == b;
    }
  }

  lemma {:induction false} RemoveCommasOfDigits(d: string)
    requires AllDigits(d)
    ensures RemoveCommas(d) == d
  {
    if d != [] {
      RemoveCommasOfDigits(d[1..]);
      assert d == [d[0]] + d[1..];
    }
  }

  lemma RemoveCommasSkipsComma(x: string)
    ensures RemoveCommas([','] + x) == RemoveCommas(x)
  {
    assert ([','] + x)[1..] == x;
  }

  lemma {:induction false} RemoveCommasTriples(e: string)
    requires |e| % 3 == 0 && AllDigits(e)
    ensures RemoveCommas(Triples(e)) == e
  {
    if e != [] {
      var head, tail := e[..3], e[3..];
      assert Triples(e) == [','] + (head + Triples(tail));
      RemoveCommasSkipsComma(head + Triples(tail));
      RemoveCommasAppend(head, Triples(tail));
      assert AllDigits(head) && AllDigits(tail);
      RemoveCommasOfDigits(head);
      RemoveCommasTriples(tail);
      assert head + tail == e;
    }
  }

  lemma RemoveCommasGrouped(d: string)
    requires |d| > 0 && AllDigits(d)
    ensures RemoveCommas(Grouped(d)) == d
  {
    var f := LeadLength(|d|);
    RemoveCommasAppend(d[..f], Triples(d[f..]));
    RemoveCommasOfDigits(d[..f]);
    RemoveCommasTriples(d[f..]);
    assert d == d[..f] + d[f..];
  }

  /** Removing the commas gives back the integer's text. */
  lemma RemoveCommasRoundTrip(n: int)
    ensures RemoveCommas(NumberWithCommas(n)) == IntToString(n)
  {
    NumberWithCommasIsGrouped(n);
    if n >= 0 {
      RemoveCommasGrouped(NatToDecimal(n));
    } else {
      RemoveCommasGrouped(NatToDecimal(-n));
      RemoveCommasAppend("-", Grouped(NatToDecimal(-n)));
    }
  }

  /** Below one thousand (and above minus one thousand) nothing is inserted. */
  lemma SmallUnchanged(n: int)
    requires -1000 < n < 1000
    ensures NumberWithCommas(n) == IntToString(n)
  {
    NumberWithCommasIsGrouped(n);
    var d := NatToDecimal(if n < 0 then -n else n);
    NatToDecimalShort(if n < 0 then -n else n);
    assert d[LeadLength(|d|)..] == [];
    assert d[..LeadLength(|d|)] == d;
  }

  lemma {:induction false} TriplesLength(e: string)
    requires |e| % 3 == 0
    ensures |Triples(e)| == |e| / 3 * 4
  {
    if e != [] {
      TriplesLength(e[3..]);
    }
  }

  /** In the groups after the first, commas sit exactly at every fourth place. */
  lemma {:induction false} TriplesCommas(e: string)
    requires |e| % 3 == 0 && AllDigits(e)
    ensures forall i :: 0 <= i < |Triples(e)| ==> (Triples(e)[i] == ',' <==> i % 4 == 0)
  {
    if e != [] {
      var rest := Triples(e[3..]);
      TriplesCommas(e[3..]);
      assert Triples(e) == [',', e[0], e[1], e[2]] + rest;
      forall i | 0 <= i < |Triples(e)| ensures Triples(e)[i] == ',' <==> i % 4 == 0 {
        if i >= 4 {
          assert Triples(e)[i] == rest[i - 4];
          assert (i - 4) % 4 == i % 4;
        } else {
          assert IsDigit(e[0]) && IsDigit(e[1]) && IsDigit(e[2]);
        }
      }
    }
  }

  lemma {:induction false} TriplesChars(e: string)
    requires |e| % 3 == 0 && AllDigits(e)
    ensures forall i :: 0 <= i < |Triples(e)| ==> Triples(e)[i] == ',' || IsDigit(Triples(e)[i])
  {
    if e != [] {
      var rest := Triples(e[3..]);
      TriplesChars(e[3..]);
      assert Triples(e) == [',', e[0], e[1], e[2]] + rest;
      assert IsDigit(e[0]) && IsDigit(e[1]) && IsDigit(e[2]);
    }
  }

  /**
   * Shape of the grouped digits: a leading group of 1 to 3 digits, then
   * groups of a comma and exactly 3 digits; it starts and ends with a digit.
   */
  lemma GroupedShape(d: string)
    requires |d| > 0 && AllDigits(d)
    ensures var t := Grouped(d); var f := LeadLength(|d|);
      && 1 <= f <= 3
      && t[..f] == d[..f]
      && (forall i :: f <= i < |t| ==> (t[i] == ',' <==> (i - f) % 4 == 0))
      && (forall i :: 0 <= i < |t| ==> t[i] == ',' || IsDigit(t[i]))
      && IsDigit(t[0]) && IsDigit(t[|t| - 1])
  {
    var f := LeadLength(|d|);
    var t := Grouped(d);
    var rest := Triples(d[f..]);
    TriplesLength(d[f..]);
    TriplesCommas(d[f..]);
    TriplesChars(d[f..]);
    assert t == d[..f] + rest;
    forall i | f <= i < |t| ensures t[i] == rest[i - f] { }
    assert (|t| - 1 - f) % 4 != 0 || |t| - 1 < f by {
      if |t| - 1 >= f { assert |rest| == |d[f..]| / 3 * 4; }
    }
  }

  /** The output never begins or ends with a comma, and no comma follows the sign. */
  lemma NoStrayCommas(n: int)
    ensures var t := NumberWithCommas(n);
      t != [] && t[0] != ',' && t[|t| - 1] != ','
      && (n < 0 ==> t[0] == '-' && |t| > 1 && IsDigit(t[1]))
  {
    NumberWithCommasIsGrouped(n);
    var d := NatToDecimal(if n < 0 then -n else n);
    GroupedShape(d);
  }
}
