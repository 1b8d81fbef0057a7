/**
 * The string operations of Python's `str` that the metrics script relies on:
 * the whitespace and digit classes, `replace`, `split`, `join`, `strip`
 * and `str()` of an integer.
 */
module Text {

  /** Python's `str.isspace`, which is also what `\s` matches in a `str` pattern. */
  predicate IsSpace(c: char) {
    || c == ' '
    || ('\t' <= c <= '\r')
    || ('\U{1C}' <= c <= '\U{1F}')
    || c == '\U{85}' || c == '\U{A0}' || c == '\U{1680}'
    || ('\U{2000}' <= c <= '\U{200A}')
    || c == '\U{2028}' || c == '\U{2029}' || c == '\U{202F}' || c == '\U{205F}' || c == '\U{3000}'
  }

  /** An ASCII decimal digit. */
  predicate IsDigit(c: char) {
    '0' <= c <= '9'
  }

  function DigitValue(c: char): (d: nat)
    ensures d < 10
  {
    if IsDigit(c) then c as int - '0' as int else 0
  }

  /** End of the run of whitespace that starts at `j` (what a greedy `\s*` takes). */
  function SkipSpaces(line: string, j: nat): (r: nat)
    requires j <= |line|
    ensures j <= r <= |line|
    ensures forall q :: j <= q < r ==> IsSpace(line[q])
    ensures r == |line| || !IsSpace(line[r])
    decreases |line| - j
  {
    if j < |line| && IsSpace(line[j]) then SkipSpaces(line, j + 1) else j
  }

  /** End of the run of digits that starts at `j` (what a greedy `\d*` takes). */
  function SkipDigits(line: string, j: nat): (r: nat)
    requires j <= |line|
    ensures j <= r <= |line|
    ensures forall q :: j <= q < r ==> IsDigit(line[q])
    ensures r == |line| || !IsDigit(line[r])
    decreases |line| - j
  {
    if j < |line| && IsDigit(line[j]) then SkipDigits(line, j + 1) else j
  }

  /** `pat` occurs in `s` starting at index `i`. */
  predicate At(s: string, i: nat, pat: string) {
    i + |pat| <= |s| && s[i..i + |pat|] == pat
  }

  /** Python's `pat in s`. */
  predicate Contains(s: string, pat: string) {
    exists i: nat | i <= |s| :: At(s, i, pat)
  }

  /**
   * Python's `s.replace(pat, rep)` for a non-empty `pat`: the occurrences
   * are found from left to right, never overlapping, and the text put in
   * is not searched again.
   */
  function ReplaceAll(s: string, pat: string, rep: string): (r: string)
    requires pat != []
    ensures rep == [] ==> |r| <= |s|
    ensures |rep| == |pat| ==> |r| == |s|
    decreases |s|
  {
    if At(s, 0, pat) then rep + ReplaceAll(s[|pat|..], pat, rep)
    else if s == [] then []
    else [s[0]] + ReplaceAll(s[1..], pat, rep)
  }

  lemma AtShift(s: string, q: nat, pat: string)
    requires 0 < |s|
    ensures At(s[1..], q, pat) <==> At(s, q + 1, pat)
  {
    if q + 1 + |pat| <= |s| {
      assert s[1..][q..q + |pat|] == s[q + 1..q + 1 + |pat|];
    }
  }

  /** Text before the first occurrence of `pat` is copied unchanged. */
  lemma {:induction false} ReplaceAllSkip(s: string, pat: string, rep: string, i: nat)
    requires pat != [] && i <= |s|
    requires forall q: nat :: q < i ==> !At(s, q, pat)
    ensures ReplaceAll(s, pat, rep) == s[..i] + ReplaceAll(s[i..], pat, rep)
  {
    if i > 0 {
      assert !At(s, 0, pat);
      assert ReplaceAll(s, pat, rep) == [s[0]] + ReplaceAll(s[1..], pat, rep);
      NoOccurrenceShifted(s, pat, i);
      ReplaceAllSkip(s[1..], pat, rep, i - 1);
      assert s[1..][i - 1..] == s[i..];
      assert s[..i] == [s[0]] + s[1..][..i - 1];
    }
  }

  lemma NoOccurrenceShifted(s: string, pat: string, i: nat)
    requires 0 < i <= |s|
    requires forall q: nat :: q < i ==> !At(s, q, pat)
    ensures forall q: nat :: q < i - 1 ==> !At(s[1..], q, pat)
  {
    forall q: nat | q < i - 1 ensures !At(s[1..], q, pat) {
      AtShift(s, q, pat);
    }
  }

  /**
   * The first occurrence of the pattern, at `i`, is replaced; the text
   * before it is copied and the search goes on after it.
   */
  lemma ReplaceAllFirst(s: string, pat: string, rep: string, i: nat)
    requires pat != [] && At(s, i, pat)
    requires forall q: nat :: q < i ==> !At(s, q, pat)
    ensures ReplaceAll(s, pat, rep) == s[..i] + rep + ReplaceAll(s[i + |pat|..], pat, rep)
  {
    ReplaceAllSkip(s, pat, rep, i);
    var t := s[i..];
    assert t[..|pat|] == s[i..i + |pat|];
    assert At(t, 0, pat);
    assert t[|pat|..] == s[i + |pat|..];
    assert ReplaceAll(t, pat, rep) == rep + ReplaceAll(t[|pat|..], pat, rep);
    ConcatAssociates(s[..i], rep, ReplaceAll(s[i + |pat|..], pat, rep));
  }

  lemma ConcatAssociates(a: string, b: string, c: string)
    ensures a + (b + c) == a + b + c
  {
  }

  /** A string without the pattern comes back unchanged. */
  lemma ReplaceAllAbsent(s: string, pat: string, rep: string)
    requires pat != [] && !Contains(s, pat)
    ensures ReplaceAll(s, pat, rep) == s
  {
    ReplaceAllSkip(s, pat, rep, |s|);
    assert s[..|s|] == s;
  }

  lemma NoEarlyOccurrence(stem: string, pat: string, q: nat)
    requires pat != [] && !Contains(stem, pat) && q < |stem|
    requires forall t :: 0 < t < |pat| ==> pat[t] != pat[0]
    ensures !At(stem + pat, q, pat)
  {
    var s := stem + pat;
    if q + |pat| <= |stem| {
      assert s[q..q + |pat|] == stem[q..q + |pat|];
      assert !At(stem, q, pat);
    } else if q + |pat| <= |s| {
      var t := |stem| - q;
      assert s[q..q + |pat|][t] == s[|stem|] == pat[0];
      assert pat[t] != pat[0];
    }
  }

  /**
   * A pattern ending the string is replaced, and nothing before it is, when
   * the text before it does not hold the pattern and the pattern's first
   * character does not appear again in it (as for ".pdbqt").
   */
  lemma ReplaceAllTrailing(stem: string, pat: string, rep: string)
    requires pat != [] && !Contains(stem, pat)
    requires forall t :: 0 < t < |pat| ==> pat[t] != pat[0]
    ensures ReplaceAll(stem + pat, pat, rep) == stem + rep
  {
    var s := stem + pat;
    forall q: nat | q < |stem| ensures !At(s, q, pat) {
      NoEarlyOccurrence(stem, pat, q);
    }
    ReplaceAllSkip(s, pat, rep, |stem|);
    assert s[..|stem|] == stem;
    assert s[|stem|..] == pat;
    assert At(pat, 0, pat);
    assert pat[|pat|..] == [];
  }

  /** The pattern can only occur where its first character does. */
  lemma OccurrenceOnlyAt(s: string, pat: string, j: nat)
    requires pat != []
    requires forall q :: 0 <= q < |s| && q != j ==> s[q] != pat[0]
    requires !At(s, j, pat)
    ensures !Contains(s, pat)
  {
    forall i: nat | i <= |s| && i != j && i + |pat| <= |s| ensures !At(s, i, pat) {
      assert s[i..i + |pat|][0] == s[i];
    }
  }

  /** A pattern whose first character is missing from `stem`, put after it, is replaced there only. */
  lemma ReplaceAllAfterStem(stem: string, pat: string, rep: string)
    requires pat != [] && forall q :: 0 <= q < |stem| ==> stem[q] != pat[0]
    ensures ReplaceAll(stem + pat, pat, rep) == stem + rep
  {
    var s := stem + pat;
    forall q: nat | q < |stem| ensures !At(s, q, pat) {
      assert s[q] == stem[q];
    }
    ReplaceAllSkip(s, pat, rep, |stem|);
    assert s[..|stem|] == stem;
    assert s[|stem|..] == pat;
    assert At(pat, 0, pat);
    assert pat[|pat|..] == [];
  }

  /** Replacing with the empty string only deletes characters. */
  lemma {:induction false} ReplaceAllDeletes(s: string, pat: string, c: char)
    requires pat != []
    ensures c in ReplaceAll(s, pat, "") ==> c in s
  {
    if At(s, 0, pat) {
      ReplaceAllDeletes(s[|pat|..], pat, c);
    } else if s != [] {
      ReplaceAllDeletes(s[1..], pat, c);
    }
  }

  /** Python's `sep.join(parts)`. */
  function Join(parts: seq<string>, sep: string): string
    decreases |parts|
  {
    if parts == [] then ""
    else if |parts| == 1 then parts[0]
    else parts[0] + sep + Join(parts[1..], sep)
  }

  /** A join begins with the first part and ends with the last. */
  lemma {:induction false} JoinEnds(parts: seq<string>, sep: string)
    requires parts != []
    ensures |parts[0]| <= |Join(parts, sep)| && Join(parts, sep)[..|parts[0]|] == parts[0]
    ensures var last, r := parts[|parts| - 1], Join(parts, sep);
            |last| <= |r| && r[|r| - |last|..] == last
    decreases |parts|
  {
    if |parts| >= 2 {
      var r, tail := Join(parts, sep), Join(parts[1..], sep);
      var last := parts[|parts| - 1];
      JoinEnds(parts[1..], sep);
      assert r == parts[0] + sep + tail;
      assert r[..|parts[0]|] == parts[0];
      assert parts[1..][|parts| - 2] == last;
      assert r[|r| - |last|..] == tail[|tail| - |last|..];
    }
  }

  /** A text splits in only one way at its first separator. */
  lemma SplitAtFirst(a: string, b: string, c: string, d: string, sep: char)
    requires sep !in a && sep !in c
    requires a + [sep] + b == c + [sep] + d
    ensures a == c && b == d
  {
    var s := a + [sep] + b;
    assert s[|a|] == sep && s[|c|] == sep;
    assert forall k :: 0 <= k < |a| ==> s[k] == a[k];
    assert forall k :: 0 <= k < |c| ==> s[k] == c[k];
    assert |a| == |c|;
    assert a == s[..|a|] && c == s[..|c|];
    assert b == s[|a| + 1..] && d == s[|c| + 1..];
  }

  /** Joined parts without the separator hold it exactly when there are two or more. */
  lemma JoinHasSeparator(parts: seq<string>, sep: char)
    requires |parts| >= 1
    requires forall k :: 0 <= k < |parts| ==> sep !in parts[k]
    ensures sep in Join(parts, [sep]) <==> |parts| >= 2
  {
    if |parts| >= 2 {
      var s := Join(parts, [sep]);
      assert s == parts[0] + [sep] + Join(parts[1..], [sep]);
      assert s[|parts[0]|] == sep;
    }
  }

  /** Parts without the separator are recovered from their join. */
  lemma {:induction false} JoinInjective(a: seq<string>, b: seq<string>, sep: char)
    requires |a| >= 1 && |b| >= 1
    requires forall k :: 0 <= k < |a| ==> sep !in a[k]
    requires forall k :: 0 <= k < |b| ==> sep !in b[k]
    requires Join(a, [sep]) == Join(b, [sep])
    ensures a == b
    decreases |a|
  {
    JoinHasSeparator(a, sep);
    JoinHasSeparator(b, sep);
    if |a| >= 2 {
      SplitAtFirst(a[0], Join(a[1..], [sep]), b[0], Join(b[1..], [sep]), sep);
      JoinInjective(a[1..], b[1..], sep);
      assert a == [a[0]] + a[1..] && b == [b[0]] + b[1..];
    }
  }

  /** Splitting a join of parts without the separator gives the parts back. */
  lemma SplitJoin(parts: seq<string>, sep: char)
    requires |parts| >= 1
    requires forall k :: 0 <= k < |parts| ==> sep !in parts[k]
    ensures Split(Join(parts, [sep]), sep) == parts
  {
    JoinInjective(Split(Join(parts, [sep]), sep), parts, sep);
  }

  /**
   * Python's `s.split(sep)` for a single-character separator: the empty
   * string gives one empty part, and joining the parts gives `s` back.
   */
  function Split(s: string, sep: char): (parts: seq<string>)
    ensures |parts| >= 1
    ensures |parts| >= 2 <==> sep in s
    ensures forall k :: 0 <= k < |parts| ==> sep !in parts[k]
    ensures Join(parts, [sep]) == s
    decreases |s|
  {
    if s == [] then [""]
    else
      var rest := Split(s[1..], sep);
      assert s == [s[0]] + s[1..];
      if s[0] == sep then
        JoinEmptyFirst(rest, [sep]);
        [""] + rest
      else
        JoinExtendFirst(s[0], rest, [sep]);
        [[s[0]] + rest[0]] + rest[1..]
  }

  lemma JoinEmptyFirst(rest: seq<string>, sep: string)
    requires |rest| >= 1
    ensures Join([""] + rest, sep) == sep + Join(rest, sep)
  {
    assert ([""] + rest)[1..] == rest;
  }

  lemma JoinExtendFirst(c: char, rest: seq<string>, sep: string)
    requires |rest| >= 1
    ensures Join([[c] + rest[0]] + rest[1..], sep) == [c] + Join(rest, sep)
  {
    var parts := [[c] + rest[0]] + rest[1..];
    assert parts[1..] == rest[1..];
    if |rest| == 1 {
      assert parts == [[c] + rest[0]];
    }
  }

  /** Every character of `s` from `lo` up to `hi` is whitespace. */
  predicate SpacesBetween(s: string, lo: nat, hi: nat) {
    forall q :: lo <= q < hi && q < |s| ==> IsSpace(s[q])
  }

  /**
   * Python's `s.strip()`: the text is `s` with a run of whitespace removed
   * from each end, and it neither begins nor ends with whitespace.
   */
  function Strip(s: string): (r: string)
    ensures exists a: nat :: StrippedAt(s, r, a)
  {
    var t := TrimStart(s);
    var r := TrimEnd(t);
    TrimmedAt(s, t, r);
    r
  }

  /**
   * `r` is the part of `s` from `a` on that is left when whitespace is cut
   * from each end: only whitespace is cut, and `r` neither begins nor ends
   * with whitespace.
   */
  predicate StrippedAt(s: string, r: string, a: nat) {
    && a + |r| <= |s| && r == s[a..a + |r|] && SpacesBetween(s, 0, a) && SpacesBetween(s, a + |r|, |s|)
    && (r == [] || (!IsSpace(r[0]) && !IsSpace(r[|r| - 1])))
  }

  /** Trimming the start of `s` to `t`, then the end of `t` to `r`, strips `s` to `r`. */
  lemma TrimmedAt(s: string, t: string, r: string)
    requires |t| <= |s| && t == s[|s| - |t|..] && SpacesBetween(s, 0, |s| - |t|)
    requires |r| <= |t| && r == t[..|r|] && SpacesBetween(t, |r|, |t|)
    requires (t == [] || !IsSpace(t[0])) && (r == [] || !IsSpace(r[|r| - 1]))
    ensures StrippedAt(s, r, |s| - |t|)
  {
    if r != [] {
      assert r[0] == t[0];
    }
    var a := |s| - |t|;
    forall q | a + |r| <= q < |s| ensures IsSpace(s[q]) {
      assert s[q] == t[q - a];
    }
    assert r == s[a..a + |r|];
  }

  /** `s.lstrip()`: only leading whitespace is removed, all of it. */
  function TrimStart(s: string): (r: string)
    ensures r == [] || !IsSpace(r[0])
    ensures |r| <= |s| && r == s[|s| - |r|..]
    ensures SpacesBetween(s, 0, |s| - |r|)
  {
    if s != [] && IsSpace(s[0]) then TrimStart(s[1..]) else s
  }

  /** `s.rstrip()`: only trailing whitespace is removed, all of it. */
  function TrimEnd(s: string): (r: string)
    ensures r == [] || !IsSpace(r[|r| - 1])
    ensures |r| <= |s| && r == s[..|r|]
    ensures SpacesBetween(s, |r|, |s|)
  {
    if s != [] && IsSpace(s[|s| - 1]) then TrimEnd(s[..|s| - 1]) else s
  }

  /** Text that neither begins nor ends with whitespace is left as it is by `strip`. */
  lemma StripUntouched(s: string)
    requires s != [] && !IsSpace(s[0]) && !IsSpace(s[|s| - 1])
    ensures Strip(s) == s
  {
  }

  /** The value of a run of decimal digits, most significant first. */
  function DigitsValue(ds: string): nat
    decreases |ds|
  {
    if ds == [] then 0
    else DigitsValue(ds[..|ds| - 1]) * 10 + DigitValue(ds[|ds| - 1])
  }

  function DigitChar(d: nat): (c: char)
    requires d < 10
    ensures IsDigit(c) && DigitValue(c) == d
  {
    ('0' as int + d) as char
  }

  /** Python's `str(n)` of a non-negative integer. */
  function NatToString(n: nat): (s: string)
    ensures s != []
    ensures forall k :: 0 <= k < |s| ==> IsDigit(s[k])
    ensures n == 0 ==> s == "0"
    ensures n > 0 ==> s[0] != '0'
    decreases n
  {
    if n < 10 then [DigitChar(n)] else NatToString(n / 10) + [DigitChar(n % 10)]
  }

  /** Python's `str(n)` of an integer. */
  function IntToString(n: int): (s: string)
    ensures s != [] && (s[0] == '-' <==> n < 0)
    ensures var digits := if n < 0 then s[1..] else s;
            digits != [] && (forall k :: 0 <= k < |digits| ==> IsDigit(digits[k])) &&
            DigitsValue(digits) == if n < 0 then -n else n
    ensures var digits := if n < 0 then s[1..] else s;
            digits != [] && (digits[0] == '0' ==> |digits| == 1)
  {
    NatToStringRoundTrip(if n < 0 then -n else n);
    if n < 0 then
      assert ("-" + NatToString(-n))[1..] == NatToString(-n);
      "-" + NatToString(-n)
    else NatToString(n)
  }

  /** Reading the digits that `str` writes gives the number back. */
  lemma {:induction false} NatToStringRoundTrip(n: nat)
    ensures DigitsValue(NatToString(n)) == n
    decreases n
  {
    var s := NatToString(n);
    if n >= 10 {
      NatToStringRoundTrip(n / 10);
      assert s[..|s| - 1] == NatToString(n / 10);
    }
  }
}
