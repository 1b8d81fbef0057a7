/**
 * The mode-1 row of the result table in an AutoDock Vina log: the pattern
 * `^\s+1\s+([-+]?\d*\.?\d+)` tried at the start of a line, and the exact
 * decimal value of the affinity token it captures.
 */
module ModeTable {
  import opened Wrappers
  import opened Text
  import opened Decimal

  ghost predicate AllSpaces(line: string, lo: nat, hi: nat) {
    forall q :: lo <= q < hi && q < |line| ==> IsSpace(line[q])
  }

  /**
   * `\d*\.?\d+` covers exactly `line[a..k]`: digits with at most one '.',
   * ending in a digit.
   */
  ghost predicate UnsignedAt(line: string, a: nat, k: nat) {
    && a < k <= |line|
    && IsDigit(line[k - 1])
    && (forall q :: a <= q < k ==> IsDigit(line[q]) || line[q] == '.')
    && (forall q, q' :: a <= q < q' < k && line[q] == '.' ==> line[q'] != '.')
  }

  /** `[-+]?\d*\.?\d+` covers exactly `line[j..k]`. */
  ghost predicate NumberAt(line: string, j: nat, k: nat) {
    j < |line| && if IsSign(line[j]) then UnsignedAt(line, j + 1, k) else UnsignedAt(line, j, k)
  }

  /**
   * `^\s+1\s+([-+]?\d*\.?\d+)` matches with the group at `line[start..end]`:
   * leading whitespace (at least one character), the mode number 1,
   * whitespace again, then the signed decimal token.
   */
  ghost predicate ModeOneRow(line: string, start: nat, end: nat) {
    exists i: nat :: ModeOneRowWith(line, i, start, end)
  }

  ghost predicate ModeOneRowWith(line: string, i: nat, start: nat, end: nat) {
    && 1 <= i < |line| && AllSpaces(line, 0, i) && line[i] == '1'
    && i + 1 < start && AllSpaces(line, i + 1, start) && NumberAt(line, start, end)
  }

  datatype Span = Span(start: nat, end: nat)

  /**
   * End of the token `[-+]?\d*\.?\d+` at `j`: Python's backtracking gives
   * the longest token there.
   */
  function NumberEnd(line: string, j: nat): (r: Option<nat>)
    requires j <= |line|
    ensures r.Some? ==> NumberAt(line, j, r.value)
    ensures forall k: nat :: NumberAt(line, j, k) ==> r.Some? && k <= r.value
  {
    var a := if j < |line| && IsSign(line[j]) then j + 1 else j;
    var d := SkipDigits(line, a);
    if d + 1 < |line| && line[d] == '.' && IsDigit(line[d + 1]) then
      var e := SkipDigits(line, d + 1);
      FractionIsLongest(line, j, a, d, e);
      Some(e)
    else
      WholeIsLongest(line, j, a, d);
      if a < d then Some(d) else None
  }

  lemma FractionIsLongest(line: string, j: nat, a: nat, d: nat, e: nat)
    requires j <= |line|
    requires a == (if j < |line| && IsSign(line[j]) then j + 1 else j)
    requires d == SkipDigits(line, a)
    requires d + 1 < |line| && line[d] == '.' && IsDigit(line[d + 1])
    requires e == SkipDigits(line, d + 1)
    ensures NumberAt(line, j, e)
    ensures forall k: nat :: NumberAt(line, j, k) ==> k <= e
  {
    assert UnsignedAt(line, a, e);
    forall k: nat | NumberAt(line, j, k) ensures k <= e {
      assert UnsignedAt(line, a, k);
    }
  }

  lemma WholeIsLongest(line: string, j: nat, a: nat, d: nat)
    requires j <= |line|
    requires a == (if j < |line| && IsSign(line[j]) then j + 1 else j)
    requires d == SkipDigits(line, a)
    requires !(d + 1 < |line| && line[d] == '.' && IsDigit(line[d + 1]))
    ensures a < d ==> NumberAt(line, j, d)
    ensures forall k: nat :: NumberAt(line, j, k) ==> a < d && k <= d
  {
    forall k: nat | NumberAt(line, j, k) ensures a < d && k <= d {
      assert UnsignedAt(line, a, k);
    }
  }

  /** `affinity_pattern.match(line)`: where the affinity token is, if the line is the mode-1 row. */
  function ModeOneMatch(line: string): (r: Option<Span>)
    ensures r.Some? ==> ModeOneRow(line, r.value.start, r.value.end)
    ensures forall s: nat, e: nat :: ModeOneRow(line, s, e) ==>
              r.Some? && s == r.value.start && e <= r.value.end
  {
    var i := SkipSpaces(line, 0);
    if 0 < i < |line| && line[i] == '1' then
      var s := SkipSpaces(line, i + 1);
      if i + 1 < s then
        var n := NumberEnd(line, s);
        ModeOneRowIsForced(line, i, s);
        if n.Some? then
          assert ModeOneRowWith(line, i, s, n.value);
          Some(Span(s, n.value))
        else None
      else
        ModeOneRowIsForced(line, i, s);
        None
    else
      NotModeOneRow(line, i);
      None
  }

  /** Any way of matching fixes the `\s+` runs: no backtracking is possible. */
  lemma ModeOneRowIsForced(line: string, i: nat, s: nat)
    requires i == SkipSpaces(line, 0) && 0 < i < |line| && line[i] == '1'
    requires s == SkipSpaces(line, i + 1)
    ensures forall s': nat, e: nat :: ModeOneRow(line, s', e) ==> i + 1 < s && s' == s && NumberAt(line, s, e)
  {
    forall s': nat, e: nat | ModeOneRow(line, s', e)
      ensures i + 1 < s && s' == s && NumberAt(line, s, e)
    {
      var i' :| ModeOneRowWith(line, i', s', e);
      NumberStartsWithoutSpace(line, s', e);
    }
  }

  lemma NotModeOneRow(line: string, i: nat)
    requires i == SkipSpaces(line, 0) && !(0 < i < |line| && line[i] == '1')
    ensures forall s: nat, e: nat :: !ModeOneRow(line, s, e)
  {
    forall s: nat, e: nat | ModeOneRow(line, s, e) ensures false {
      var i' :| ModeOneRowWith(line, i', s, e);
    }
  }

  lemma NumberStartsWithoutSpace(line: string, j: nat, k: nat)
    requires NumberAt(line, j, k)
    ensures !IsSpace(line[j])
  {
    if !IsSign(line[j]) {
      assert IsDigit(line[j]) || line[j] == '.';
    }
  }

  /** The affinity a line gives: the value of the token that the mode-1 pattern captures. */
  function AffinityOnLine(line: string): (r: Option<real>)
    ensures r.Some? <==> exists s: nat, e: nat :: ModeOneRow(line, s, e)
  {
    match ModeOneMatch(line)
    case Some(sp) => Some(DecimalValue(line[sp.start..sp.end]))
    case None => None
  }

  /** A line that does not begin with whitespace is never the mode-1 row. */
  lemma NoLeadingSpaceNoAffinity(line: string)
    requires line == [] || !IsSpace(line[0])
    ensures AffinityOnLine(line).None?
  {
    assert SkipSpaces(line, 0) == 0;
  }

  /** The row of mode 10 is not taken for mode 1: after the `1` must come whitespace. */
  lemma ModeTenIsNotModeOne()
    ensures AffinityOnLine("   10  -5.0").None?
  {
    var line := "   10  -5.0";
    assert IsSpace(line[0]) && IsSpace(line[1]) && IsSpace(line[2]) && !IsSpace(line[3]);
    assert SkipSpaces(line, 0) == 3;
    assert line[3] == '1' && !IsSpace(line[4]);
    assert SkipSpaces(line, 4) == 4;
  }

  /** The layout of a Vina mode-1 row. */
  ghost predicate RowLayout(pad: string, gap: string, token: string, rest: string) {
    && pad != [] && (forall q :: 0 <= q < |pad| ==> IsSpace(pad[q]))
    && gap != [] && (forall q :: 0 <= q < |gap| ==> IsSpace(gap[q]))
    && NumberAt(token, 0, |token|)
    && (rest == [] || IsSpace(rest[0]))
  }

  lemma RowLayoutMatches(pad: string, gap: string, token: string, rest: string)
    requires RowLayout(pad, gap, token, rest)
    ensures ModeOneRowWith(pad + "1" + gap + token + rest, |pad|, |pad| + 1 + |gap|, |pad| + 1 + |gap| + |token|)
  {
    var line := pad + "1" + gap + token + rest;
    var i, s := |pad|, |pad| + 1 + |gap|;
    var e := s + |token|;
    assert line[i] == '1';
    assert AllSpaces(line, 0, i) by {
      forall q | 0 <= q < i ensures IsSpace(line[q]) {
        assert line[q] == pad[q];
      }
    }
    assert AllSpaces(line, i + 1, s) by {
      forall q | i + 1 <= q < s ensures IsSpace(line[q]) {
        assert line[q] == gap[q - i - 1];
      }
    }
    TokenInside(line, s, token);
  }

  /** A token that sits at `line[s..]` is a token of the line there. */
  lemma TokenInside(line: string, s: nat, token: string)
    requires NumberAt(token, 0, |token|)
    requires s + |token| <= |line| && line[s..s + |token|] == token
    ensures NumberAt(line, s, s + |token|)
  {
    var a := if IsSign(token[0]) then 1 else 0;
    assert token[0] == line[s];
    assert UnsignedAt(token, a, |token|);
    forall q | s + a <= q < s + |token| ensures IsDigit(line[q]) || line[q] == '.' {
      assert line[q] == token[q - s];
    }
    forall q, q' | s + a <= q < q' < s + |token| && line[q] == '.' ensures line[q'] != '.' {
      assert line[q] == token[q - s] && line[q'] == token[q' - s];
    }
    assert line[s + |token| - 1] == token[|token| - 1];
  }

  /** No token at `s` runs past a whitespace character. */
  lemma TokenStopsAtSpace(line: string, s: nat, e: nat)
    requires e < |line| && IsSpace(line[e])
    ensures forall k: nat :: NumberAt(line, s, k) && s < e ==> k <= e
  {
    forall k: nat | NumberAt(line, s, k) && s < e ensures k <= e {
      var a := if IsSign(line[s]) then s + 1 else s;
      assert UnsignedAt(line, a, k);
    }
  }

  /** A mode-1 row whose token is followed by whitespace or the line end is what the match finds. */
  lemma MatchOfRow(line: string, i: nat, s: nat, e: nat)
    requires ModeOneRowWith(line, i, s, e)
    requires e == |line| || IsSpace(line[e])
    ensures ModeOneMatch(line) == Some(Span(s, e))
  {
    var r := ModeOneMatch(line);
    assert r.Some? && r.value.start == s && e <= r.value.end;
    if e < |line| {
      TokenStopsAtSpace(line, s, e);
    }
  }

  /**
   * A row laid out as Vina prints the first mode (whitespace, `1`,
   * whitespace, the affinity, then whitespace or the end of the line) gives
   * the value of its affinity token.
   */
  lemma RowGivesToken(pad: string, gap: string, token: string, rest: string)
    requires RowLayout(pad, gap, token, rest)
    ensures AffinityOnLine(pad + "1" + gap + token + rest) == Some(DecimalValue(token))
  {
    var line := pad + "1" + gap + token + rest;
    var s := |pad| + 1 + |gap|;
    var e := s + |token|;
    RowLayoutMatches(pad, gap, token, rest);
    if rest != [] {
      assert line[e] == rest[0];
    }
    MatchOfRow(line, |pad|, s, e);
    assert line[s..e] == token;
  }
}
