/**
 * The two line-anchored regular expressions of the metadata extractor,
 *   name:   ^([A-Z][a-z]+) ([A-Z]+)
 *   period: ^Semester (\d), (\d{4}) - Progress Report (\d)
 * compiled with MULTILINE, so `^` holds at the start of the text and just
 * after every '\n'. Neither pattern can backtrack usefully, so each is a
 * hand-rolled matcher at one position, and `search` is the earliest line
 * start at which that matcher succeeds. Only ASCII letters and digits are
 * recognised.
 */
module Patterns {
  import opened Wrappers

  predicate IsUpper(c: char) { 'A' <= c <= 'Z' }
  predicate IsLower(c: char) { 'a' <= c <= 'z' }
  predicate IsDigit(c: char) { '0' <= c <= '9' }

  datatype CharClass = Upper | Lower

  predicate InClass(c: char, k: CharClass) {
    match k
    case Upper => IsUpper(c)
    case Lower => IsLower(c)
  }

  /** Length of the longest run of class-`k` characters starting at `i`: what a greedy `[..]+` consumes. */
  function Run(s: string, i: nat, k: CharClass): (n: nat)
    requires i <= |s|
    ensures i + n <= |s|
    ensures forall j :: i <= j < i + n ==> InClass(s[j], k)
    ensures i + n == |s| || !InClass(s[i + n], k)
    decreases |s| - i
  {
    if i < |s| && InClass(s[i], k) then 1 + Run(s, i + 1, k) else 0
  }

  lemma RunExact(s: string, i: nat, k: CharClass, n: nat)
    requires i + n <= |s|
    requires forall j :: i <= j < i + n ==> InClass(s[j], k)
    requires i + n == |s| || !InClass(s[i + n], k)
    ensures Run(s, i, k) == n
  {
  }

  lemma RunAtLeast(s: string, i: nat, k: CharClass, n: nat)
    requires i + n <= |s|
    requires forall j :: i <= j < i + n ==> InClass(s[j], k)
    ensures Run(s, i, k) >= n
  {
  }

  /** Where MULTILINE `^` holds. */
  predicate IsLineStart(s: string, p: nat) {
    p == 0 || (0 < p <= |s| && s[p - 1] == '\n')
  }

  /** `t` occurs in `s` starting at `p`. */
  predicate IsPrefixAt(t: string, s: string, p: nat) {
    p + |t| <= |s| && s[p..p + |t|] == t
  }

  // ---------------------------------------------------------------------------
  // Name pattern

  /** The language of the group `([A-Z][a-z]+)`. */
  predicate IsFirstname(f: string) {
    |f| >= 2 && IsUpper(f[0]) && forall i :: 1 <= i < |f| ==> IsLower(f[i])
  }

  /** The language of the group `([A-Z]+)`. */
  predicate IsSurname(l: string) {
    |l| >= 1 && forall i :: 0 <= i < |l| ==> IsUpper(l[i])
  }

  /** The name pattern matches at `p` with groups `f` and `l` (some way, greedy or not). */
  predicate NameMatches(s: string, p: nat, f: string, l: string) {
    IsFirstname(f) && IsSurname(l) && IsPrefixAt(f + " " + l, s, p)
  }

  /** The match Python reports: the greedy `[A-Z]+` stops only at the end of the text or a non-uppercase character. */
  predicate GreedyNameMatch(s: string, p: nat, f: string, l: string) {
    NameMatches(s, p, f, l) && (p + |f| + 1 + |l| == |s| || !IsUpper(s[p + |f| + 1 + |l|]))
  }

  /** The name matcher at one position, returning the groups (firstname, surname). */
  function NameAt(s: string, p: nat): Option<(string, string)> {
    if p < |s| && IsUpper(s[p]) then
      var e1 := p + 1 + Run(s, p + 1, Lower);
      if e1 > p + 1 && e1 < |s| && s[e1] == ' ' then
        var e2 := e1 + 1 + Run(s, e1 + 1, Upper);
        if e2 > e1 + 1 then Some((s[p..e1], s[e1 + 1..e2])) else None
      else None
    else None
  }

  lemma NameAtSound(s: string, p: nat)
    requires NameAt(s, p).Some?
    ensures GreedyNameMatch(s, p, NameAt(s, p).value.0, NameAt(s, p).value.1)
  {
    var e1 := p + 1 + Run(s, p + 1, Lower);
    var e2 := e1 + 1 + Run(s, e1 + 1, Upper);
    var f, l := s[p..e1], s[e1 + 1..e2];
    assert s[p..e2] == f + " " + l;
  }

  /** The three pieces of a name match: the firstname, the single space, the surname. */
  lemma NameMatchPieces(s: string, p: nat, f: string, l: string)
    requires NameMatches(s, p, f, l)
    ensures s[p..p + |f|] == f
    ensures s[p + |f|] == ' '
    ensures s[p + |f| + 1..p + |f| + 1 + |l|] == l
  {
    var t := f + " " + l;
    var w := s[p..p + |t|];
    assert w == t;
    assert s[p..p + |f|] == w[..|f|] == t[..|f|] == f;
    assert s[p + |f|] == w[|f|] == t[|f|] == ' ';
    assert s[p + |f| + 1..p + |f| + 1 + |l|] == w[|f| + 1..] == t[|f| + 1..] == l;
  }

  /** The greedy `[a-z]+` after the initial capital stops exactly at the space. */
  lemma FirstnameRun(s: string, p: nat, f: string, l: string)
    requires NameMatches(s, p, f, l)
    ensures p < |s| && IsUpper(s[p])
    ensures Run(s, p + 1, Lower) == |f| - 1
  {
    NameMatchPieces(s, p, f, l);
    assert s[p] == s[p..p + |f|][0] == f[0];
    forall j | p + 1 <= j < p + |f|
      ensures InClass(s[j], Lower)
    {
      assert s[j] == s[p..p + |f|][j - p] == f[j - p];
    }
    RunExact(s, p + 1, Lower, |f| - 1);
  }

  /** The greedy `[A-Z]+` after the space takes at least the letters of `l`. */
  lemma SurnameRun(s: string, p: nat, f: string, l: string)
    requires NameMatches(s, p, f, l)
    ensures Run(s, p + |f| + 1, Upper) >= |l|
    ensures GreedyNameMatch(s, p, f, l) ==> Run(s, p + |f| + 1, Upper) == |l|
  {
    NameMatchPieces(s, p, f, l);
    var b := p + |f| + 1;
    forall j | b <= j < b + |l|
      ensures InClass(s[j], Upper)
    {
      assert s[j] == s[b..b + |l|][j - b] == l[j - b];
    }
    RunAtLeast(s, b, Upper, |l|);
    if GreedyNameMatch(s, p, f, l) {
      RunExact(s, b, Upper, |l|);
    }
  }

  /** Any way the pattern can match at `p`, the matcher finds it, with the same firstname and a surname the greedy one extends. */
  lemma NameAtComplete(s: string, p: nat, f: string, l: string)
    requires NameMatches(s, p, f, l)
    ensures NameAt(s, p).Some?
    ensures NameAt(s, p).value.0 == f
    ensures IsPrefixAt(l, NameAt(s, p).value.1, 0)
    ensures GreedyNameMatch(s, p, f, l) ==> NameAt(s, p) == Some((f, l))
  {
    NameMatchPieces(s, p, f, l);
    FirstnameRun(s, p, f, l);
    SurnameRun(s, p, f, l);
    var b := p + |f| + 1;
    var e2 := b + Run(s, b, Upper);
    assert NameAt(s, p) == Some((s[p..p + |f|], s[b..e2]));
    assert s[b..e2][..|l|] == s[b..b + |l|];
  }

  /** The matcher returns exactly the greedy match of the pattern at `p`. */
  lemma NameAtIff(s: string, p: nat, f: string, l: string)
    ensures NameAt(s, p) == Some((f, l)) <==> GreedyNameMatch(s, p, f, l)
  {
    if NameAt(s, p) == Some((f, l)) {
      NameAtSound(s, p);
    }
    if GreedyNameMatch(s, p, f, l) {
      NameAtComplete(s, p, f, l);
    }
  }

  // ---------------------------------------------------------------------------
  // Period pattern

  const SemesterLit := "Semester "
  const YearSep := ", "
  const ReportLit := " - Progress Report "

  /** Offsets of the three groups inside a matched period line, and its total width. */
  const SemesterAt := 9
  const YearAt := 12
  const ReportAt := 35
  const PeriodWidth := 36

  function DigitValue(c: char): nat
    requires IsDigit(c)
  {
    c as int - '0' as int
  }

  function DigitChar(n: nat): (c: char)
    requires n < 10
    ensures IsDigit(c) && DigitValue(c) == n
  {
    ('0' as int + n) as char
  }

  lemma DigitRoundTrip(c: char)
    requires IsDigit(c)
    ensures DigitChar(DigitValue(c)) == c
  {
  }

  /** The language of `\d{4}`. */
  predicate IsYearText(t: string) {
    |t| == 4 && forall i :: 0 <= i < 4 ==> IsDigit(t[i])
  }

  /** `int()` of a four-digit text. */
  function YearValue(t: string): (y: nat)
    requires IsYearText(t)
    ensures y < 10000
  {
    1000 * DigitValue(t[0]) + 100 * DigitValue(t[1]) + 10 * DigitValue(t[2]) + DigitValue(t[3])
  }

  /** The four-digit, zero-padded text of a year. */
  function YearText(y: nat): (t: string)
    requires y < 10000
    ensures IsYearText(t) && YearValue(t) == y
  {
    var q1 := y / 10;
    var q2 := q1 / 10;
    var q3 := q2 / 10;
    DivModTen(y, q1, y % 10);
    DivModTen(q1, q2, q1 % 10);
    DivModTen(q2, q3, q2 % 10);
    [DigitChar(q3), DigitChar(q2 % 10), DigitChar(q1 % 10), DigitChar(y % 10)]
  }

  lemma DivModTen(y: int, q: int, r: int)
    requires 0 <= r < 10 && y == 10 * q + r
    ensures y / 10 == q && y % 10 == r
  {
  }

  lemma YearRoundTrip(t: string)
    requires IsYearText(t)
    ensures YearText(YearValue(t)) == t
  {
    var y := YearValue(t);
    var d0, d1, d2, d3 := DigitValue(t[0]), DigitValue(t[1]), DigitValue(t[2]), DigitValue(t[3]);
    DivModTen(y, 100 * d0 + 10 * d1 + d2, d3);
    DivModTen(100 * d0 + 10 * d1 + d2, 10 * d0 + d1, d2);
    DivModTen(10 * d0 + d1, d0, d1);
    DigitRoundTrip(t[0]);
    DigitRoundTrip(t[1]);
    DigitRoundTrip(t[2]);
    DigitRoundTrip(t[3]);
  }

  /** The text a period line starts with, for in-range values. */
  function PeriodText(semester: nat, year: nat, report: nat): (t: string)
    requires semester < 10 && year < 10000 && report < 10
    ensures |t| == PeriodWidth
  {
    SemesterLit + [DigitChar(semester)] + YearSep + YearText(year) + ReportLit + [DigitChar(report)]
  }

  /** The period pattern matches at `p` with groups (semester, year, report). */
  predicate PeriodMatches(s: string, p: nat, semester: nat, year: nat, report: nat) {
    semester < 10 && year < 10000 && report < 10 && IsPrefixAt(PeriodText(semester, year, report), s, p)
  }

  /** The period matcher at one position, returning (semester, year, report) as integers. */
  function PeriodAt(s: string, p: nat): (r: Option<(nat, nat, nat)>)
    ensures r.Some? ==> r.value.0 < 10 && r.value.1 < 10000 && r.value.2 < 10
  {
    if p + PeriodWidth <= |s| then
      var w := s[p..p + PeriodWidth];
      if w[..SemesterAt] == SemesterLit && IsDigit(w[SemesterAt])
         && w[SemesterAt + 1..YearAt] == YearSep && IsYearText(w[YearAt..YearAt + 4])
         && w[YearAt + 4..ReportAt] == ReportLit && IsDigit(w[ReportAt])
      then Some((DigitValue(w[SemesterAt]), YearValue(w[YearAt..YearAt + 4]), DigitValue(w[ReportAt])))
      else None
    else None
  }

  /** The matcher returns exactly the groups of the period pattern at `p`, or nothing when it does not match. */
  lemma PeriodAtIff(s: string, p: nat, semester: nat, year: nat, report: nat)
    ensures PeriodAt(s, p) == Some((semester, year, report)) <==> PeriodMatches(s, p, semester, year, report)
  {
    if PeriodAt(s, p) == Some((semester, year, report)) {
      var w := s[p..p + PeriodWidth];
      DigitRoundTrip(w[SemesterAt]);
      DigitRoundTrip(w[ReportAt]);
      YearRoundTrip(w[YearAt..YearAt + 4]);
      assert w == w[..SemesterAt] + [w[SemesterAt]] + w[SemesterAt + 1..YearAt] + w[YearAt..YearAt + 4]
                  + w[YearAt + 4..ReportAt] + [w[ReportAt]];
    }
    if PeriodMatches(s, p, semester, year, report) {
      var w := s[p..p + PeriodWidth];
      var a, y := [DigitChar(semester)], YearText(year);
      assert w == SemesterLit + a + YearSep + y + ReportLit + [DigitChar(report)];
      assert w[..SemesterAt] == SemesterLit;
      assert w[SemesterAt] == DigitChar(semester);
      assert w[SemesterAt + 1..YearAt] == YearSep;
      assert w[YearAt..YearAt + 4] == y;
      assert w[YearAt + 4..ReportAt] == ReportLit;
      assert w[ReportAt] == DigitChar(report);
    }
  }

  // ---------------------------------------------------------------------------
  // Multi-line search

  datatype Pattern = NamePattern | PeriodPattern

  predicate MatchesAt(pat: Pattern, s: string, p: nat) {
    match pat
    case NamePattern => NameAt(s, p).Some?
    case PeriodPattern => PeriodAt(s, p).Some?
  }

  /** `p` is the earliest line start at which `pat` matches: the position `re.search` reports. */
  predicate FirstLineMatch(pat: Pattern, s: string, p: nat) {
    IsLineStart(s, p) && MatchesAt(pat, s, p)
    && forall q: nat :: q < p && IsLineStart(s, q) ==> !MatchesAt(pat, s, q)
  }

  /** The earliest line start at or after `i` where `pat` matches. */
  function SearchFrom(pat: Pattern, s: string, i: nat): (r: Option<nat>)
    requires i <= |s|
    ensures r.Some? ==> i <= r.value <= |s| && IsLineStart(s, r.value) && MatchesAt(pat, s, r.value)
    ensures r.Some? ==> forall q: nat :: i <= q < r.value && IsLineStart(s, q) ==> !MatchesAt(pat, s, q)
    ensures r.None? ==> forall q: nat :: i <= q && IsLineStart(s, q) ==> !MatchesAt(pat, s, q)
    decreases |s| - i
  {
    if IsLineStart(s, i) && MatchesAt(pat, s, i) then Some(i)
    else if i == |s| then None
    else SearchFrom(pat, s, i + 1)
  }

  lemma FirstLineMatchUnique(pat: Pattern, s: string, p: nat, q: nat)
    requires FirstLineMatch(pat, s, p) && FirstLineMatch(pat, s, q)
    ensures p == q
  {
  }

  /** `nm_search.search(text)`: the groups of the name pattern on the first line where it matches. */
  function SearchName(s: string): (r: Option<(string, string)>)
    ensures r.Some? ==> IsFirstname(r.value.0) && IsSurname(r.value.1)
  {
    match SearchFrom(NamePattern, s, 0)
    case None => None
    case Some(p) => NameAtSound(s, p); NameAt(s, p)
  }

  /** `se_search.search(text)`: the groups of the period pattern on the first line where it matches. */
  function SearchPeriod(s: string): (r: Option<(nat, nat, nat)>)
    ensures r.Some? ==> r.value.0 < 10 && r.value.1 < 10000 && r.value.2 < 10
  {
    match SearchFrom(PeriodPattern, s, 0)
    case None => None
    case Some(p) => PeriodAt(s, p)
  }

  /** The name search yields (f, l) exactly when the earliest matching line start carries the greedy match (f, l). */
  lemma SearchNameIff(s: string, f: string, l: string)
    ensures SearchName(s) == Some((f, l))
            <==> exists p: nat :: FirstLineMatch(NamePattern, s, p) && GreedyNameMatch(s, p, f, l)
  {
    match SearchFrom(NamePattern, s, 0)
    case None =>
      forall p: nat | FirstLineMatch(NamePattern, s, p)
        ensures false
      {
      }
    case Some(p0) =>
      assert FirstLineMatch(NamePattern, s, p0);
      NameAtIff(s, p0, f, l);
      forall p: nat | FirstLineMatch(NamePattern, s, p)
        ensures p == p0
      {
        FirstLineMatchUnique(NamePattern, s, p, p0);
      }
  }

  /** The name search finds nothing exactly when the pattern matches at no line start at all. */
  lemma SearchNameNone(s: string)
    ensures SearchName(s).None?
            <==> forall p: nat, f: string, l: string :: IsLineStart(s, p) ==> !NameMatches(s, p, f, l)
  {
    match SearchFrom(NamePattern, s, 0)
    case None =>
      forall p: nat, f: string, l: string | IsLineStart(s, p) && NameMatches(s, p, f, l)
        ensures false
      {
        NameAtComplete(s, p, f, l);
      }
    case Some(p0) =>
      NameAtSound(s, p0);
  }

  /** The period search yields (a, b, c) exactly when the earliest matching line start carries that period line. */
  lemma SearchPeriodIff(s: string, semester: nat, year: nat, report: nat)
    ensures SearchPeriod(s) == Some((semester, year, report))
            <==> exists p: nat :: FirstLineMatch(PeriodPattern, s, p) && PeriodMatches(s, p, semester, year, report)
  {
    match SearchFrom(PeriodPattern, s, 0)
    case None =>
      forall p: nat | FirstLineMatch(PeriodPattern, s, p)
        ensures false
      {
      }
    case Some(p0) =>
      assert FirstLineMatch(PeriodPattern, s, p0);
      PeriodAtIff(s, p0, semester, year, report);
      forall p: nat | FirstLineMatch(PeriodPattern, s, p)
        ensures p == p0
      {
        FirstLineMatchUnique(PeriodPattern, s, p, p0);
      }
  }

  /** The period search finds nothing exactly when no line starts with a period line. */
  lemma SearchPeriodNone(s: string)
    ensures SearchPeriod(s).None?
            <==> forall p: nat, a: nat, b: nat, c: nat :: IsLineStart(s, p) ==> !PeriodMatches(s, p, a, b, c)
  {
    match SearchFrom(PeriodPattern, s, 0)
    case None =>
      forall p: nat, a: nat, b: nat, c: nat | IsLineStart(s, p) && PeriodMatches(s, p, a, b, c)
        ensures false
      {
        PeriodAtIff(s, p, a, b, c);
      }
    case Some(p0) =>
      var v := PeriodAt(s, p0).value;
      PeriodAtIff(s, p0, v.0, v.1, v.2);
  }
}
