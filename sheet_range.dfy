/** A1-notation handling of the spreadsheet snapshot script: column letters to a
    0-based index, splitting `Sheet!A1:D20` into a sheet name and 0-based inclusive
    bounds, the export scale clamp and the export parameters built from them. */
module SheetRange {
  import opened Text

  predicate IsUpperLetter(c: char) { 'A' <= c <= 'Z' }
  predicate IsLowerLetter(c: char) { 'a' <= c <= 'z' }
  predicate IsLetter(c: char) { IsUpperLetter(c) || IsLowerLetter(c) }

  predicate AllLetters(s: string) { forall i :: 0 <= i < |s| ==> IsLetter(s[i]) }
  predicate AllUpperLetters(s: string) { forall i :: 0 <= i < |s| ==> IsUpperLetter(s[i]) }

  /** Alphabet position of an ASCII letter ignoring case (A and a are 1); 0 otherwise. */
  function LetterValue(c: char): (v: nat)
    ensures v <= 26
    ensures v > 0 <==> IsLetter(c)
  {
    if IsUpperLetter(c) then c as int - 'A' as int + 1
    else if IsLowerLetter(c) then c as int - 'a' as int + 1
    else 0
  }

  /** Python's `str.upper()` on one character, for ASCII letters. */
  function ToUpper(c: char): char
  {
    if IsLowerLetter(c) then (c as int - 32) as char else c
  }

  function Upper(s: string): string
  {
    seq(|s|, i requires 0 <= i < |s| => ToUpper(s[i]))
  }

  /** The bijective base-26 number spelled by the letters of `s` (A=1 .. Z=26, AA=27),
      ignoring case and skipping every other character; 0 when `s` has no letter. */
  function ColNumber(s: string): nat
  {
    if s == [] then 0
    else if IsLetter(s[|s| - 1]) then ColNumber(s[..|s| - 1]) * 26 + LetterValue(s[|s| - 1])
    else ColNumber(s[..|s| - 1])
  }

  /** The ASCII letters of `s`, in order. */
  function Letters(s: string): (r: string)
    ensures AllLetters(r)
  {
    if s == [] then []
    else if IsLetter(s[|s| - 1]) then Letters(s[..|s| - 1]) + [s[|s| - 1]]
    else Letters(s[..|s| - 1])
  }

  /** The upper-case column name of a positive bijective base-26 number: the inverse of ColNumber. */
  function ColName(n: nat): (s: string)
    ensures AllUpperLetters(s)
    ensures |s| == 0 <==> n == 0
  {
    if n == 0 then [] else ColName((n - 1) / 26) + [('A' as int + (n - 1) % 26) as char]
  }

  /** col_letters_to_index: upper-case the text, then accumulate base 26 over the letters A-Z. */
  method ColLettersToIndex(s: string) returns (index: int)
    ensures index == ColNumber(s) - 1
    ensures index == -1 <==> forall i :: 0 <= i < |s| ==> !IsLetter(s[i])
    ensures index >= -1
  {
    var u := Upper(s);
    var n := 0;
    for i := 0 to |u|
      invariant n == ColNumber(u[..i])
    {
      var ch := u[i];
      assert u[..i + 1][..i] == u[..i];
      if 'A' <= ch <= 'Z' {
        n := n * 26 + (ch as int - 'A' as int + 1);
      }
    }
    assert u[..|u|] == u;
    UpperKeepsColNumber(s);
    NoLettersIffZero(s);
    index := n - 1;
  }

  /** Upper-casing first does not change the number: lower- and upper-case letters count alike. */
  lemma {:induction false} UpperKeepsColNumber(s: string)
    ensures ColNumber(Upper(s)) == ColNumber(s)
  {
    if s != [] {
      var p := s[..|s| - 1];
      assert Upper(s)[..|s| - 1] == Upper(p);
      UpperKeepsColNumber(p);
    }
  }

  /** The number is 0, so the index is -1, exactly when the text holds no letter. */
  lemma {:induction false} NoLettersIffZero(s: string)
    ensures ColNumber(s) == 0 <==> forall i :: 0 <= i < |s| ==> !IsLetter(s[i])
  {
    if s != [] {
      var p := s[..|s| - 1];
      NoLettersIffZero(p);
      assert forall i :: 0 <= i < |p| ==> p[i] == s[i];
    }
  }

  /** Characters other than letters contribute nothing. */
  lemma {:induction false} NonLettersSkipped(s: string)
    ensures ColNumber(s) == ColNumber(Letters(s))
  {
    if s != [] {
      var p := s[..|s| - 1];
      NonLettersSkipped(p);
      if IsLetter(s[|s| - 1]) {
        assert (Letters(p) + [s[|s| - 1]])[..|Letters(p)|] == Letters(p);
      }
    }
  }

  lemma {:induction false} DivModBase26(q: nat, r: nat)
    requires r < 26
    ensures (q * 26 + r) / 26 == q && (q * 26 + r) % 26 == r
  {
  }

  /** ColName is a right inverse of ColNumber: every positive number names a column. */
  lemma {:induction false} ColNameRoundTrip(n: nat)
    ensures ColNumber(ColName(n)) == n
  {
    if n > 0 {
      var q, r := (n - 1) / 26, (n - 1) % 26;
      ColNameRoundTrip(q);
      var s := ColName(n);
      assert s[..|s| - 1] == ColName(q);
      assert LetterValue(s[|s| - 1]) == r + 1;
    }
  }

  /** Appending a letter of value `v` to the name of `m` gives the name of `m * 26 + v`. */
  lemma ColNameStep(m: nat, v: nat)
    requires 1 <= v <= 26
    ensures ColName(m * 26 + v) == ColName(m) + [('A' as int + v - 1) as char]
  {
    var n := m * 26 + v;
    DivModBase26(m, v - 1);
    assert (n - 1) / 26 == m && (n - 1) % 26 == v - 1;
  }

  /** If `p` reads back from its number, so does `p` followed by an upper-case letter. */
  lemma RoundTripStep(p: string, c: char)
    requires IsUpperLetter(c) && ColName(ColNumber(p)) == p
    ensures ColName(ColNumber(p + [c])) == p + [c]
  {
    var s := p + [c];
    assert s[..|s| - 1] == p && s[|s| - 1] == c;
    var v := c as int - 'A' as int + 1;
    assert ColNumber(s) == ColNumber(p) * 26 + v;
    ColNameStep(ColNumber(p), v);
    assert ('A' as int + v - 1) as char == c;
  }

  /** ColName is a left inverse of ColNumber on upper-case letter strings, so the
      numbering is a bijection between such strings and the natural numbers. */
  lemma {:induction false} ColNumberRoundTrip(s: string)
    requires AllUpperLetters(s)
    ensures ColName(ColNumber(s)) == s
  {
    if s != [] {
      var p := s[..|s| - 1];
      var c := s[|s| - 1];
      assert forall i :: 0 <= i < |p| ==> p[i] == s[i];
      assert s == p + [c];
      ColNumberRoundTrip(p);
      RoundTripStep(p, c);
    }
  }

  /** Two upper-case column names with the same number are the same name. */
  lemma {:induction false} ColNumberInjective(s: string, t: string)
    requires AllUpperLetters(s) && AllUpperLetters(t)
    requires ColNumber(s) == ColNumber(t)
    ensures s == t
  {
    ColNumberRoundTrip(s);
    ColNumberRoundTrip(t);
  }

  lemma {:induction false} ColumnExamples()
    ensures ColNumber("A") - 1 == 0 && ColNumber("Z") - 1 == 25
    ensures ColNumber("AA") - 1 == 26 && ColNumber("AZ") - 1 == 51
    ensures ColNumber("az") - 1 == 51 && ColNumber("$A$") - 1 == 0 && ColNumber("12") - 1 == -1
  {
    assert "AZ"[..1] == "A";
    assert "az"[..1] == "a";
    assert "AA"[..1] == "A";
    assert "$A$"[..2] == "$A" && "$A"[..1] == "$";
    assert "12"[..1] == "1";
  }

  // ---------------------------------------------------------------------------
  // parse_a1_range

  /** Result of parse_a1_range: the sheet name and the optional 0-based bounds. */
  datatype A1Range = A1Range(sheet: string, r1: Option<int>, c1: Option<int>, r2: Option<int>, c2: Option<int>)

  function IndexOf(s: string, c: char): (k: nat)
    requires c in s
    ensures k < |s| && s[k] == c && c !in s[..k]
  {
    if s[0] == c then 0 else 1 + IndexOf(s[1..], c)
  }

  /** Python's `s.replace('$', '')`. */
  function RemoveDollars(s: string): (r: string)
    ensures '$' !in r
    ensures '$' !in s ==> r == s
    ensures |s| == 1 ==> r == (if s[0] == '$' then "" else s)
  {
    if s == [] then []
    else if s[0] == '$' then RemoveDollars(s[1..])
    else [s[0]] + RemoveDollars(s[1..])
  }

  /** A text the pattern `[A-Za-z]+\d+` matches in full. */
  ghost predicate IsCellText(t: string)
  {
    exists k :: 1 <= k < |t| && AllLetters(t[..k]) && AllDigits(t[k..])
  }

  /** A text the pattern `[A-Za-z]+\d+:[A-Za-z]+\d+` matches in full. */
  ghost predicate IsRangeText(t: string)
  {
    exists k :: 0 <= k < |t| && t[k] == ':' && IsCellText(t[..k]) && IsCellText(t[k + 1..])
  }

  /** Python's `$` anchor also matches in front of one final newline. */
  function DropFinalNewline(t: string): (r: string)
    ensures t == r || t == r + "\n"
    ensures |t| > 0 && t[|t| - 1] == '\n' ==> t == r + "\n"
  {
    if |t| > 0 && t[|t| - 1] == '\n' then t[..|t| - 1] else t
  }

  /** Length of the run of letters at the start of `s`. */
  function LetterRun(s: string): (k: nat)
    ensures k <= |s| && AllLetters(s[..k]) && (k < |s| ==> !IsLetter(s[k]))
  {
    if s == [] || !IsLetter(s[0]) then 0
    else
      var k := 1 + LetterRun(s[1..]);
      assert s[..k] == [s[0]] + s[1..][..k - 1];
      k
  }

  /** The groups of `^([A-Za-z]+)(\d+)$`, when it matches the whole text. */
  function MatchCell(t: string): (m: Option<(string, string)>)
    ensures m.Some? ==> |m.value.0| >= 1 && |m.value.1| >= 1
    ensures m.Some? ==> AllLetters(m.value.0) && AllDigits(m.value.1)
  {
    var k := LetterRun(t);
    if 1 <= k < |t| && AllDigits(t[k..]) then Some((t[..k], t[k..])) else None
  }

  /** The groups of `^([A-Za-z]+)(\d+):([A-Za-z]+)(\d+)$`, when it matches the whole text. */
  function MatchRange(t: string): (m: Option<(string, string, string, string)>)
    ensures m.Some? ==> |m.value.0| >= 1 && |m.value.1| >= 1 && |m.value.2| >= 1 && |m.value.3| >= 1
    ensures m.Some? ==> AllLetters(m.value.0) && AllDigits(m.value.1) && AllLetters(m.value.2) && AllDigits(m.value.3)
  {
    if ':' !in t then None
    else
      var k := IndexOf(t, ':');
      var a := MatchCell(t[..k]);
      var b := MatchCell(t[k + 1..]);
      if a.Some? && b.Some? then Some((a.value.0, a.value.1, b.value.0, b.value.1)) else None
  }

  /** The two groups of a cell match spell the whole text. */
  lemma MatchCellGroups(t: string)
    ensures MatchCell(t).Some? ==> t == MatchCell(t).value.0 + MatchCell(t).value.1
  {
    var k := LetterRun(t);
    assert t == t[..k] + t[k..];
  }

  /** The four groups of a range match spell the whole text, with ':' between the cells. */
  lemma MatchRangeGroups(t: string)
    ensures MatchRange(t).Some? ==>
              var g := MatchRange(t).value;
              t == g.0 + g.1 + ":" + g.2 + g.3
  {
    if MatchRange(t).Some? {
      var k := IndexOf(t, ':');
      MatchCellGroups(t[..k]);
      MatchCellGroups(t[k + 1..]);
      assert t == t[..k] + ":" + t[k + 1..];
    }
  }

  /** The range text after the first '!', with '$' removed, as the patterns see it. */
  function RangeBody(a1: string): string
    requires '!' in a1
  {
    DropFinalNewline(RemoveDollars(a1[IndexOf(a1, '!') + 1..]))
  }

  /** The bounds read from the range text `body` (the two `re.match` calls and `int()`). */
  function BoundsOf(sheet: string, body: string): (r: A1Range)
    ensures r.sheet == sheet
    ensures (r.r1.Some? <==> r.c1.Some?) && (r.r2.Some? <==> r.c2.Some?) && (r.r2.Some? ==> r.r1.Some?)
    ensures r.c1.Some? ==> r.c1.value >= 0 && r.r1.value >= -1
    ensures r.c2.Some? ==> r.c2.value >= 0 && r.r2.value >= -1
  {
    var m := MatchRange(body);
    if m.Some? then
      A1Range(sheet, Some(RowIndex(m.value.1)), Some(ColIndex(m.value.0)),
              Some(RowIndex(m.value.3)), Some(ColIndex(m.value.2)))
    else
      var c := MatchCell(body);
      if c.Some? then A1Range(sheet, Some(RowIndex(c.value.1)), Some(ColIndex(c.value.0)), None, None)
      else A1Range(sheet, None, None, None, None)
  }

  /** `int(digits) - 1`: a 1-based row number made 0-based. */
  function RowIndex(d: string): (i: int)
    requires AllDigits(d)
    ensures i >= -1
  {
    DecimalValue(d) - 1
  }

  /** The value col_letters_to_index returns, for use in functions. */
  function ColIndex(l: string): (i: int)
    ensures i >= -1
    ensures i == -1 <==> forall k :: 0 <= k < |l| ==> !IsLetter(l[k])
  {
    NoLettersIffZero(l);
    ColNumber(l) - 1
  }

  /** parse_a1_range. */
  function ParseA1Range(a1: string): (r: A1Range)
    ensures '!' !in a1 ==> r == A1Range(a1, None, None, None, None)
    ensures '!' in a1 ==> |r.sheet| < |a1| && a1[..|r.sheet|] == r.sheet && a1[|r.sheet|] == '!' && '!' !in r.sheet
    ensures (r.r1.Some? <==> r.c1.Some?) && (r.r2.Some? <==> r.c2.Some?) && (r.r2.Some? ==> r.r1.Some?)
    ensures r.c1.Some? ==> r.c1.value >= 0 && r.r1.value >= -1
    ensures r.c2.Some? ==> r.c2.value >= 0 && r.r2.value >= -1
  {
    if '!' !in a1 then A1Range(a1, None, None, None, None)
    else BoundsOf(a1[..IndexOf(a1, '!')], RangeBody(a1))
  }

  /** A run of `k` letters ending at a non-letter (or the end) is the letter run. */
  lemma {:induction false} LetterRunUnique(t: string, k: nat)
    requires k <= |t| && AllLetters(t[..k]) && (k < |t| ==> !IsLetter(t[k]))
    ensures LetterRun(t) == k
  {
    if k > 0 {
      assert t[..k][0] == t[0];
      assert t[1..][..k - 1] == t[..k][1..];
      LetterRunUnique(t[1..], k - 1);
    }
  }

  lemma {:induction false} IndexOfUnique(s: string, c: char, k: nat)
    requires k < |s| && s[k] == c && c !in s[..k]
    ensures c in s && IndexOf(s, c) == k
  {
    if k > 0 {
      assert s[..k][0] == s[0];
      assert s[1..][..k - 1] == s[..k][1..];
      IndexOfUnique(s[1..], c, k - 1);
    }
  }

  /** Characters a cell or range pattern can consume: letters, digits and ':'. */
  predicate PatternChars(t: string)
  {
    forall i :: 0 <= i < |t| ==> IsLetter(t[i]) || IsDigit(t[i]) || t[i] == ':'
  }

  lemma {:induction false} CellTextNoColon(u: string)
    requires IsCellText(u)
    ensures ':' !in u
  {
    var m :| 1 <= m < |u| && AllLetters(u[..m]) && AllDigits(u[m..]);
    forall i | 0 <= i < |u| ensures u[i] != ':' {
      if i < m { assert u[..m][i] == u[i]; } else { assert u[m..][i - m] == u[i]; }
    }
  }

  /** The cell matcher accepts exactly the texts of the form letters-then-digits. */
  lemma {:induction false} MatchCellIff(t: string)
    ensures MatchCell(t).Some? <==> IsCellText(t)
  {
    if IsCellText(t) {
      var k :| 1 <= k < |t| && AllLetters(t[..k]) && AllDigits(t[k..]);
      assert t[k..][0] == t[k];
      LetterRunUnique(t, k);
    }
  }

  lemma {:induction false} CellSplit(l: string, d: string)
    requires |l| >= 1 && AllLetters(l) && |d| >= 1 && AllDigits(d)
    ensures MatchCell(l + d) == Some((l, d))
  {
    var t := l + d;
    assert t[..|l|] == l && t[|l|..] == d;
    assert t[|l|] == d[0];
    LetterRunUnique(t, |l|);
  }

  lemma MatchRangeComplete(t: string, k: int)
    requires 0 <= k < |t| && t[k] == ':' && IsCellText(t[..k]) && IsCellText(t[k + 1..])
    ensures MatchRange(t).Some?
  {
    var u, v := t[..k], t[k + 1..];
    CellTextNoColon(u);
    IndexOfUnique(t, ':', k);
    MatchCellIff(u);
    MatchCellIff(v);
  }

  lemma MatchRangeSound(t: string)
    requires MatchRange(t).Some?
    ensures IsRangeText(t)
  {
    var k := IndexOf(t, ':');
    var u, v := t[..k], t[k + 1..];
    MatchCellIff(u);
    MatchCellIff(v);
    assert t[k] == ':' && IsCellText(u) && IsCellText(v);
  }

  /** The range matcher accepts exactly the texts of the form cell ':' cell. */
  lemma MatchRangeIff(t: string)
    ensures MatchRange(t).Some? <==> IsRangeText(t)
  {
    if IsRangeText(t) {
      var k :| 0 <= k < |t| && t[k] == ':' && IsCellText(t[..k]) && IsCellText(t[k + 1..]);
      MatchRangeComplete(t, k);
    }
    if MatchRange(t).Some? {
      MatchRangeSound(t);
    }
  }

  lemma {:induction false} RangeSplit(l1: string, d1: string, l2: string, d2: string)
    requires |l1| >= 1 && AllLetters(l1) && |d1| >= 1 && AllDigits(d1)
    requires |l2| >= 1 && AllLetters(l2) && |d2| >= 1 && AllDigits(d2)
    ensures MatchRange(l1 + d1 + ":" + l2 + d2) == Some((l1, d1, l2, d2))
  {
    var t := l1 + d1 + ":" + l2 + d2;
    var k := |l1 + d1|;
    assert t[..k] == l1 + d1;
    assert t[k + 1..] == l2 + d2;
    CellSplit(l1, d1);
    CellSplit(l2, d2);
    MatchCellIff(l1 + d1);
    CellTextNoColon(l1 + d1);
    IndexOfUnique(t, ':', k);
  }

  lemma {:induction false} FirstBang(sheet: string, rest: string)
    requires '!' !in sheet
    ensures '!' in sheet + "!" + rest && IndexOf(sheet + "!" + rest, '!') == |sheet|
    ensures (sheet + "!" + rest)[..|sheet|] == sheet && (sheet + "!" + rest)[|sheet| + 1..] == rest
  {
    var a1 := sheet + "!" + rest;
    assert a1[..|sheet|] == sheet;
    assert a1[|sheet| + 1..] == rest;
    IndexOfUnique(a1, '!', |sheet|);
  }

  /** A range text made of pattern characters is what the patterns see after the first '!'. */
  lemma {:induction false} BodyOfPlainText(sheet: string, rest: string)
    requires '!' !in sheet && PatternChars(rest)
    ensures ParseA1Range(sheet + "!" + rest) == BoundsOf(sheet, rest)
  {
    FirstBang(sheet, rest);
    assert '$' !in rest by {
      forall i | 0 <= i < |rest| ensures rest[i] != '$' { }
    }
    assert RemoveDollars(rest) == rest;
    assert DropFinalNewline(rest) == rest by {
      if |rest| > 0 { assert rest[|rest| - 1] != '\n'; }
    }
  }

  lemma {:induction false} PartsArePatternChars(l: string, d: string)
    requires AllLetters(l) && AllDigits(d)
    ensures PatternChars(l + d)
  {
    forall i | 0 <= i < |l + d| ensures IsLetter((l + d)[i]) || IsDigit((l + d)[i]) {
      if i < |l| { assert (l + d)[i] == l[i]; } else { assert (l + d)[i] == d[i - |l|]; }
    }
  }

  lemma {:induction false} PatternCharsConcat(a: string, b: string)
    requires PatternChars(a) && PatternChars(b)
    ensures PatternChars(a + b)
  {
    forall i | 0 <= i < |a + b| ensures IsLetter((a + b)[i]) || IsDigit((a + b)[i]) || (a + b)[i] == ':' {
      if i < |a| { assert (a + b)[i] == a[i]; } else { assert (a + b)[i] == b[i - |a|]; }
    }
  }

  lemma {:induction false} BoundsOfRange(sheet: string, l1: string, d1: string, l2: string, d2: string)
    requires |l1| >= 1 && AllLetters(l1) && |d1| >= 1 && AllDigits(d1)
    requires |l2| >= 1 && AllLetters(l2) && |d2| >= 1 && AllDigits(d2)
    ensures BoundsOf(sheet, l1 + d1 + ":" + l2 + d2)
         == A1Range(sheet, Some(RowIndex(d1)), Some(ColIndex(l1)),
                    Some(RowIndex(d2)), Some(ColIndex(l2)))
  {
    var t := l1 + d1 + ":" + l2 + d2;
    RangeSplit(l1, d1, l2, d2);
    var m := MatchRange(t);
    assert m.Some? && m.value.0 == l1 && m.value.1 == d1 && m.value.2 == l2 && m.value.3 == d2;
  }

  lemma {:induction false} BoundsOfCell(sheet: string, l: string, d: string)
    requires |l| >= 1 && AllLetters(l) && |d| >= 1 && AllDigits(d)
    ensures BoundsOf(sheet, l + d) == A1Range(sheet, Some(RowIndex(d)), Some(ColIndex(l)), None, None)
  {
    CellSplit(l, d);
    MatchCellIff(l + d);
    CellTextNoColon(l + d);
  }

  /** A full range `L1N1:L2N2` gives r1 = N1-1, c1 = col(L1), r2 = N2-1, c2 = col(L2):
      both ends inclusive and 0-based. */
  lemma {:induction false} FullRangeParse(sheet: string, l1: string, d1: string, l2: string, d2: string)
    requires '!' !in sheet
    requires |l1| >= 1 && AllLetters(l1) && |d1| >= 1 && AllDigits(d1)
    requires |l2| >= 1 && AllLetters(l2) && |d2| >= 1 && AllDigits(d2)
    ensures ParseA1Range(sheet + "!" + (l1 + d1 + ":" + l2 + d2))
         == A1Range(sheet, Some(RowIndex(d1)), Some(ColIndex(l1)),
                    Some(RowIndex(d2)), Some(ColIndex(l2)))
  {
    PartsArePatternChars(l1, d1);
    PartsArePatternChars(l2, d2);
    assert PatternChars(":");
    PatternCharsConcat(l1 + d1, ":");
    PatternCharsConcat(l1 + d1 + ":", l2 + d2);
    assert l1 + d1 + ":" + (l2 + d2) == l1 + d1 + ":" + l2 + d2;
    BodyOfPlainText(sheet, l1 + d1 + ":" + l2 + d2);
    BoundsOfRange(sheet, l1, d1, l2, d2);
  }

  /** A single cell `LN` gives only the start bounds r1 = N-1, c1 = col(L). */
  lemma {:induction false} SingleCellParse(sheet: string, l: string, d: string)
    requires '!' !in sheet
    requires |l| >= 1 && AllLetters(l) && |d| >= 1 && AllDigits(d)
    ensures ParseA1Range(sheet + "!" + (l + d))
         == A1Range(sheet, Some(RowIndex(d)), Some(ColIndex(l)), None, None)
  {
    PartsArePatternChars(l, d);
    BodyOfPlainText(sheet, l + d);
    BoundsOfCell(sheet, l, d);
  }

  /** Bounds appear exactly when the range text is a cell or a cell range; the end
      bounds exactly when it is a cell range. Any other text gives four Nones. */
  lemma {:induction false} BoundsIffPattern(a1: string)
    requires '!' in a1
    ensures ParseA1Range(a1).r2.Some? <==> IsRangeText(RangeBody(a1))
    ensures ParseA1Range(a1).r1.Some? <==> IsRangeText(RangeBody(a1)) || IsCellText(RangeBody(a1))
  {
    MatchRangeIff(RangeBody(a1));
    MatchCellIff(RangeBody(a1));
  }

  /** Removing `$` works piecewise; with the one-character case of RemoveDollars's
      contract this says every other character is kept, in order. */
  lemma {:induction false} RemoveDollarsConcat(a: string, b: string)
    ensures RemoveDollars(a + b) == RemoveDollars(a) + RemoveDollars(b)
  {
    if a != [] {
      assert (a + b)[1..] == a[1..] + b;
      RemoveDollarsConcat(a[1..], b);
    } else {
      assert a + b == b;
    }
  }

  /** '$' signs are ignored: `$A$1:$D$20` parses like `A1:D20` (see DollarExample). */
  lemma {:induction false} DollarsIgnored(sheet: string, rest: string)
    requires '!' !in sheet
    ensures ParseA1Range(sheet + "!" + rest) == ParseA1Range(sheet + "!" + RemoveDollars(rest))
  {
    FirstBang(sheet, rest);
    FirstBang(sheet, RemoveDollars(rest));
  }

  /** The worked example with absolute references: `S!$A$1:$D$20` parses like `S!A1:D20`. */
  lemma DollarExample()
    ensures ParseA1Range("S!$A$1:$D$20") == ParseA1Range("S!A1:D20")
  {
    DollarsIgnored("S", "$A$1:$D$20");
    DollarExampleText();
    DollarExampleRemoved();
  }

  lemma DollarExampleRemoved()
    ensures RemoveDollars("$A$1:$D$20") == "A1:D20"
  {
    var a, b, c, d := "A", "1:", "D", "20";
    DollarExamplePieces();
    LeadingDollar(a);
    LeadingDollar(b);
    LeadingDollar(c);
    LeadingDollar(d);
    RemoveDollarsConcat("$" + a, "$" + b);
    RemoveDollarsConcat("$" + a + ("$" + b), "$" + c);
    RemoveDollarsConcat("$" + a + ("$" + b) + ("$" + c), "$" + d);
  }

  lemma LeadingDollar(x: string)
    requires '$' !in x
    ensures RemoveDollars("$" + x) == x
  {
    assert ("$" + x)[1..] == x;
  }

  lemma DollarExamplePieces()
    ensures "$A$1:$D$20" == "$" + "A" + ("$" + "1:") + ("$" + "D") + ("$" + "20")
    ensures "A1:D20" == "A" + "1:" + "D" + "20"
  {
  }

  lemma DollarExampleText()
    ensures "S" + "!" + "$A$1:$D$20" == "S!$A$1:$D$20" && "S" + "!" + "A1:D20" == "S!A1:D20"
  {
  }

  /** The indices of the worked example `A1:D20`: columns A and D, rows 1 and 20. */
  lemma ExampleIndices()
    ensures ColIndex("A") == 0 && ColIndex("D") == 3 && RowIndex("1") == 0 && RowIndex("20") == 19
  {
    assert "20"[..1] == "2";
  }

  /** The worked example: `S!A1:D20` covers rows 0..19 and columns 0..3, 0-based and inclusive. */
  lemma ExampleRangeParse()
    ensures ParseA1Range("S!A1:D20") == A1Range("S", Some(0), Some(0), Some(19), Some(3))
  {
    ExampleText();
    FullRangeParse("S", "A", "1", "D", "20");
    ExampleIndices();
  }

  lemma ExampleText()
    ensures "S" + "!" + ("A" + "1" + ":" + "D" + "20") == "S!A1:D20"
  {
    assert "A" + "1" + ":" + "D" + "20" == "A1:D20";
  }

  // ---------------------------------------------------------------------------
  // Export parameters

  /** `max(1, min(scale, 4))`. */
  function ClampScale(scale: int): (s: int)
    ensures 1 <= s <= 4
    ensures 1 <= scale <= 4 ==> s == scale
    ensures scale < 1 ==> s == 1
    ensures scale > 4 ==> s == 4
  {
    var m := if scale <= 4 then scale else 4;
    if 1 >= m then 1 else m
  }

  /** The fixed query parameters of the PDF export request, in the order they are written. */
  function BaseParams(gid: int, scale: int): seq<(string, string)>
  {
    [("format", "pdf"), ("gid", IntToString(gid)), ("portrait", "false"), ("fitw", "true"),
     ("sheetnames", "false"), ("printtitle", "false"), ("pagenumbers", "false"),
     ("gridlines", "true"), ("fzr", "false"), ("scale", IntToString(ClampScale(scale))),
     ("top_margin", "0.00"), ("bottom_margin", "0.00"), ("left_margin", "0.00"),
     ("right_margin", "0.00"), ("paper", "5")]
  }

  /** The query parameters of the PDF export request: the fixed ones, then r1, c1, r2, c2
      only when all four bounds are known. */
  function ExportParams(gid: int, scale: int, r: A1Range): (p: seq<(string, string)>)
    ensures |p| == 15 || |p| == 19
    ensures p[..15] == BaseParams(gid, scale)
    ensures p[9] == ("scale", IntToString(ClampScale(scale)))
    ensures |p| == 19 <==> r.r1.Some? && r.c1.Some? && r.r2.Some? && r.c2.Some?
    ensures |p| == 19 ==> p[15..] == [("r1", IntToString(r.r1.value)), ("c1", IntToString(r.c1.value)),
                                      ("r2", IntToString(r.r2.value)), ("c2", IntToString(r.c2.value))]
  {
    var params := BaseParams(gid, scale);
    if r.r1.Some? && r.c1.Some? && r.r2.Some? && r.c2.Some? then
      params + [("r1", IntToString(r.r1.value)), ("c1", IntToString(r.c1.value)),
                ("r2", IntToString(r.r2.value)), ("c2", IntToString(r.c2.value))]
    else params
  }
}
