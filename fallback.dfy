/** The alternative token-limit scan: a hand-written matcher for the pattern
    `(\breturn\s+)(\d{3,6})(\s*[;}])`, its `re.finditer` scan, the guard that
    rewrites only limits below 200000, and the right-to-left splice loop. */
module Fallback {
  import opened Spans

  datatype Option<T> = None | Some(value: T)

  /** The limit the patcher writes, as text and as a number. */
  const NewLimit: Text := "200000"
  const LimitCeiling: nat := 200000

  /** `\w` (ASCII part). */
  predicate IsWordChar(c: char)
  {
    'a' <= c <= 'z' || 'A' <= c <= 'Z' || '0' <= c <= '9' || c == '_'
  }

  /** `\d` (ASCII part). */
  predicate IsDigit(c: char)
  {
    '0' <= c <= '9'
  }

  /** `\s` on a Python `str`: the characters `str.isspace` accepts. */
  predicate IsSpace(c: char)
  {
    || c == ' ' || '\t' <= c <= '\r' || '\U{001C}' <= c <= '\U{001F}'
    || c == '\U{0085}' || c == '\U{00A0}' || c == '\U{1680}'
    || '\U{2000}' <= c <= '\U{200A}' || c == '\U{2028}' || c == '\U{2029}'
    || c == '\U{202F}' || c == '\U{205F}' || c == '\U{3000}'
  }

  predicate AllSpaces(s: Text)
  {
    forall k :: 0 <= k < |s| ==> IsSpace(s[k])
  }

  predicate AllDigits(s: Text)
  {
    forall k :: 0 <= k < |s| ==> IsDigit(s[k])
  }

  /** `\b` in front of a word character at position `i`. */
  predicate WordStart(t: Text, i: nat)
    requires i <= |t|
  {
    i == 0 || !IsWordChar(t[i - 1])
  }

  /** The meaning of the regular expression itself: `m` matches
      `(\breturn\s+)(\d{3,6})(\s*[;}])`, its three groups laid end to end. */
  predicate AltShape(t: Text, m: Match)
  {
    && |m.caps| == 3
    && m.caps[0].lo == m.start && m.caps[0].hi == m.caps[1].lo
    && m.caps[1].hi == m.caps[2].lo && m.caps[2].hi == m.end && m.end <= |t|
    && m.start + 6 < m.caps[0].hi
    && m.caps[1].lo + 3 <= m.caps[1].hi <= m.caps[1].lo + 6
    && m.caps[2].lo < m.caps[2].hi
    && t[m.start..m.start + 6] == "return" && WordStart(t, m.start)
    && AllSpaces(t[m.start + 6..m.caps[0].hi])
    && AllDigits(t[m.caps[1].lo..m.caps[1].hi])
    && AllSpaces(t[m.caps[2].lo..m.caps[2].hi - 1])
    && (t[m.end - 1] == ';' || t[m.end - 1] == '}')
  }

  lemma AltShapeIn(t: Text, m: Match)
    requires AltShape(t, m)
    ensures MatchIn(t, m)
    ensures Matched(t, m) == Group(t, m, 1) + Group(t, m, 2) + Group(t, m, 3)
  {
    assert t[m.start..m.end] == t[m.start..m.caps[1].lo] + t[m.caps[1].lo..m.caps[2].lo] + t[m.caps[2].lo..m.end];
  }

  /** The end of the run of `\s` characters that starts at `i`. */
  function SkipSpaces(t: Text, i: nat): (r: nat)
    requires i <= |t|
    ensures i <= r <= |t|
    ensures AllSpaces(t[i..r])
    ensures r == |t| || !IsSpace(t[r])
    decreases |t| - i
  {
    if i < |t| && IsSpace(t[i]) then SkipSpaces(t, i + 1) else i
  }

  /** The end of the run of `\d` characters that starts at `i`. */
  function SkipDigits(t: Text, i: nat): (r: nat)
    requires i <= |t|
    ensures i <= r <= |t|
    ensures AllDigits(t[i..r])
    ensures r == |t| || !IsDigit(t[r])
    decreases |t| - i
  {
    if i < |t| && IsDigit(t[i]) then SkipDigits(t, i + 1) else i
  }

  lemma {:induction false} SkipSpacesExact(t: Text, i: nat, j: nat)
    requires i <= j <= |t| && AllSpaces(t[i..j]) && (j == |t| || !IsSpace(t[j]))
    ensures SkipSpaces(t, i) == j
    decreases j - i
  {
    if i < j {
      assert t[i..j][0] == t[i];
      assert t[i + 1..j] == t[i..j][1..];
      SkipSpacesExact(t, i + 1, j);
    }
  }

  lemma {:induction false} SkipDigitsExact(t: Text, i: nat, j: nat)
    requires i <= j <= |t| && AllDigits(t[i..j]) && (j == |t| || !IsDigit(t[j]))
    ensures SkipDigits(t, i) == j
    decreases j - i
  {
    if i < j {
      assert t[i..j][0] == t[i];
      assert t[i + 1..j] == t[i..j][1..];
      SkipDigitsExact(t, i + 1, j);
    }
  }

  /** One attempt of the regular expression at position `i`. Greedy `\s+`,
      `\d{3,6}` and `\s*` never need to give characters back here: a digit run
      of seven or more digits fails, because `[;}]` cannot match a digit. */
  function MatchAt(t: Text, i: nat): (r: Option<Match>)
    requires i <= |t|
    ensures r.Some? ==> r.value.start == i && AltShape(t, r.value) && MatchIn(t, r.value)
  {
    if i + 6 <= |t| && t[i..i + 6] == "return" && WordStart(t, i) then
      var a := SkipSpaces(t, i + 6);
      var b := SkipDigits(t, a);
      var c := SkipSpaces(t, b);
      if a > i + 6 && a + 3 <= b <= a + 6 && c < |t| && (t[c] == ';' || t[c] == '}') then
        var m := Match(i, c + 1, [Span(i, a), Span(a, b), Span(b, c + 1)]);
        RunsShape(t, i, a, b, c);
        AltShapeIn(t, m);
        Some(m)
      else None
    else None
  }

  /** Runs of spaces, digits and spaces after `return`, closed by `;` or `}`,
      make a match of the regular expression. */
  lemma RunsShape(t: Text, i: nat, a: nat, b: nat, c: nat)
    requires i + 6 <= |t| && t[i..i + 6] == "return" && WordStart(t, i)
    requires i + 6 < a <= b <= c < |t| && a + 3 <= b <= a + 6
    requires AllSpaces(t[i + 6..a]) && AllDigits(t[a..b]) && AllSpaces(t[b..c])
    requires t[c] == ';' || t[c] == '}'
    ensures AltShape(t, Match(i, c + 1, [Span(i, a), Span(a, b), Span(b, c + 1)]))
  {
    assert t[b..c + 1 - 1] == t[b..c];
  }

  /** The matcher finds every match the regular expression allows at `m.start`. */
  lemma MatchAtComplete(t: Text, m: Match)
    requires AltShape(t, m)
    ensures MatchAt(t, m.start) == Some(m)
  {
    var i, a, b, e := m.start, m.caps[0].hi, m.caps[1].hi, m.end;
    GreedyRuns(t, m);
    MatchAtFound(t, i, a, b, e - 1);
    assert [Span(i, a), Span(a, b), Span(b, e)] == m.caps;
  }

  /** The matcher's result once its three runs have stopped at `a`, `b` and `c`. */
  lemma MatchAtFound(t: Text, i: nat, a: nat, b: nat, c: nat)
    requires i + 6 <= |t| && t[i..i + 6] == "return" && WordStart(t, i)
    requires a == SkipSpaces(t, i + 6) && b == SkipDigits(t, a) && c == SkipSpaces(t, b)
    requires a > i + 6 && a + 3 <= b <= a + 6 && c < |t| && (t[c] == ';' || t[c] == '}')
    ensures MatchAt(t, i) == Some(Match(i, c + 1, [Span(i, a), Span(a, b), Span(b, c + 1)]))
  {
  }

  /** The greedy runs of the matcher stop exactly at the group boundaries of a
      match of the regular expression. */
  lemma GreedyRuns(t: Text, m: Match)
    requires AltShape(t, m)
    ensures SkipSpaces(t, m.start + 6) == m.caps[0].hi
    ensures SkipDigits(t, m.caps[0].hi) == m.caps[1].hi
    ensures SkipSpaces(t, m.caps[1].hi) == m.end - 1
  {
    var i, a, b, e := m.start, m.caps[0].hi, m.caps[1].hi, m.end;
    assert t[a..b][0] == t[a];
    SkipSpacesExact(t, i + 6, a);
    if b < e - 1 {
      assert t[b..e - 1][0] == t[b];
    }
    SkipDigitsExact(t, a, b);
    SkipSpacesExact(t, b, e - 1);
  }

  /** Inside a match, past its first character, come the rest of `return`
      (each preceded by a word character), then spaces, digits, spaces and
      the closing `;` or `}`: no `r` that starts a word. */
  lemma InsideMatch(t: Text, m: Match, j: nat)
    requires AltShape(t, m) && m.start < j < m.end
    ensures j < m.start + 6 ==> IsWordChar(t[j - 1])
    ensures j >= m.start + 6 ==> t[j] != 'r'
  {
    var i, a, b := m.start, m.caps[0].hi, m.caps[1].hi;
    if j < i + 6 {
      assert t[j - 1] == t[i..i + 6][j - 1 - i];
      assert forall k :: 0 <= k < 6 ==> IsWordChar("return"[k]);
    } else if j < a {
      assert t[j] == t[i + 6..a][j - i - 6];
    } else if j < b {
      assert t[j] == t[a..b][j - a];
    } else if j < m.end - 1 {
      assert t[j] == t[b..m.end - 1][j - b];
    }
  }

  /** No match of the pattern starts strictly inside another one. */
  lemma NoMatchInside(t: Text, m: Match, j: nat)
    requires AltShape(t, m) && m.start < j < m.end
    ensures MatchAt(t, j).None?
  {
    InsideMatch(t, m, j);
    if j + 6 <= |t| && t[j..j + 6] == "return" {
      assert t[j] == t[j..j + 6][0];
    }
  }

  /** The scan from `pos` on reports `ms`: matches in order, each the match
      at its own start, and every position that matches reported. */
  predicate Scanned(t: Text, pos: nat, ms: seq<Match>)
  {
    && WellFormed(t, ms)
    && (forall k :: 0 <= k < |ms| ==> pos <= ms[k].start && ms[k].start <= |t| && MatchAt(t, ms[k].start) == Some(ms[k]))
    && (forall j :: pos <= j <= |t| && MatchAt(t, j).Some? ==> MatchAt(t, j).value in ms)
  }

  /** A match found at `pos` heads the scan from `pos`. */
  lemma ScanFound(t: Text, pos: nat, m: Match, rest: seq<Match>)
    requires pos <= |t| && MatchAt(t, pos) == Some(m) && Scanned(t, m.end, rest)
    ensures Scanned(t, pos, [m] + rest)
  {
    var ms := [m] + rest;
    forall j | pos < j < m.end
      ensures MatchAt(t, j).None?
    {
      NoMatchInside(t, m, j);
    }
    forall k | 0 <= k < |ms|
      ensures pos <= ms[k].start && ms[k].start <= |t| && MatchAt(t, ms[k].start) == Some(ms[k])
    {
      if k > 0 {
        assert ms[k] == rest[k - 1];
      }
    }
    forall j | pos <= j <= |t| && MatchAt(t, j).Some?
      ensures MatchAt(t, j).value in ms
    {
      if j >= m.end {
        assert MatchAt(t, j).value in rest;
      }
    }
    assert MatchIn(t, m);
    WellFormedCons(t, m, rest);
  }

  /** A position without a match adds nothing to the scan. */
  lemma ScanSkipped(t: Text, pos: nat, rest: seq<Match>)
    requires pos < |t| && MatchAt(t, pos).None? && Scanned(t, pos + 1, rest)
    ensures Scanned(t, pos, rest)
  {
  }

  /** `re.finditer(alt_pattern, content)` from position `pos` on: every match
      it reports is one the pattern allows there, and every position where the
      pattern matches is reported. */
  function FindAll(t: Text, pos: nat): (ms: seq<Match>)
    requires pos <= |t|
    ensures WellFormed(t, ms)
    ensures forall k :: 0 <= k < |ms| ==> pos <= ms[k].start && MatchAt(t, ms[k].start) == Some(ms[k])
    ensures forall j :: pos <= j <= |t| && MatchAt(t, j).Some? ==> MatchAt(t, j).value in ms
    decreases |t| - pos
  {
    if pos == |t| then []
    else
      match MatchAt(t, pos)
      case Some(m) =>
        var rest := FindAll(t, m.end);
        ScanFound(t, pos, m, rest);
        [m] + rest
      case None =>
        var rest := FindAll(t, pos + 1);
        ScanSkipped(t, pos, rest);
        rest
  }

  /** The matches of the alternative pattern in the whole text. */
  function AltMatches(t: Text): (ms: seq<Match>)
    ensures WellFormed(t, ms)
    ensures forall k :: 0 <= k < |ms| ==> AltShape(t, ms[k])
  {
    FindAll(t, 0)
  }

  function DigitValue(c: char): nat
  {
    if IsDigit(c) then c as int - '0' as int else 0
  }

  function Pow10(n: nat): (p: nat)
    ensures p >= 1
  {
    if n == 0 then 1 else 10 * Pow10(n - 1)
  }

  /** `int(s)` for a string of decimal digits: below 10 to the power of its
      length, whatever leading zeros it has. */
  function DigitsValue(s: Text): (v: nat)
    ensures v < Pow10(|s|)
  {
    if s == [] then 0
    else
      var front := DigitsValue(s[..|s| - 1]);
      assert front * 10 + DigitValue(s[|s| - 1]) < Pow10(|s|) by {
        assert front + 1 <= Pow10(|s| - 1);
        assert (front + 1) * 10 <= Pow10(|s| - 1) * 10;
      }
      front * 10 + DigitValue(s[|s| - 1])
  }

  lemma NewLimitValue()
    ensures DigitsValue(NewLimit) == LimitCeiling
  {
    assert NewLimit[..5] == "20000" && "20000"[..4] == "2000" && "2000"[..3] == "200";
    assert "200"[..2] == "20" && "20"[..1] == "2" && "2"[..0] == "";
  }

  /** The guard `int(old_limit) < 200000`. */
  predicate Guarded(t: Text, m: Match)
    requires AltShape(t, m)
  {
    AltShapeIn(t, m);
    DigitsValue(Group(t, m, 2)) < LimitCeiling
  }

  /** A limit of at most five digits is always below 200000, so the guard
      lets it through: only six-digit limits are ever left alone. */
  lemma ShortLimitsGuarded(t: Text, m: Match)
    requires AltShape(t, m) && m.caps[1].hi - m.caps[1].lo <= 5
    ensures Guarded(t, m)
  {
    AltShapeIn(t, m);
    var n := |Group(t, m, 2)|;
    assert Pow10(n) <= Pow10(5) by {
      if n == 3 {
        assert Pow10(3) == 1000;
      } else if n == 4 {
        assert Pow10(4) == 10000;
      }
    }
    assert Pow10(5) == 100000;
  }

  /** What the loop leaves in place of one match: the new limit between the kept
      groups 1 and 3 when the guard holds, the matched text itself otherwise. */
  function FallbackRep(t: Text, m: Match): Text
    requires AltShape(t, m)
  {
    AltShapeIn(t, m);
    if Guarded(t, m) then Group(t, m, 1) + NewLimit + Group(t, m, 3) else Matched(t, m)
  }

  function FallbackReps(t: Text, ms: seq<Match>): (reps: seq<Text>)
    requires forall k :: 0 <= k < |ms| ==> AltShape(t, ms[k])
    ensures |reps| == |ms|
    ensures forall k :: 0 <= k < |ms| ==> reps[k] == FallbackRep(t, ms[k])
  {
    seq(|ms|, k requires 0 <= k < |ms| => FallbackRep(t, ms[k]))
  }

  /** A match is left byte-identical exactly when its limit is 200000 or more. */
  lemma FallbackRepUnchanged(t: Text, m: Match)
    requires AltShape(t, m)
    ensures MatchIn(t, m)
    ensures FallbackRep(t, m) == Matched(t, m) <==> !Guarded(t, m)
  {
    AltShapeIn(t, m);
    if Guarded(t, m) && FallbackRep(t, m) == Matched(t, m) {
      var g1, g2, g3 := Group(t, m, 1), Group(t, m, 2), Group(t, m, 3);
      assert g1 + NewLimit + g3 == g1 + g2 + g3;
      assert |g2| == |NewLimit|;
      assert g2 == (g1 + g2 + g3)[|g1|..|g1| + |g2|];
      assert NewLimit == (g1 + NewLimit + g3)[|g1|..|g1| + |g2|];
      NewLimitValue();
    }
  }

  /** The text after the loop of the alternative approach. */
  function FallbackText(t: Text): Text
  {
    var ms := AltMatches(t);
    Substitute(t, ms, FallbackReps(t, ms))
  }

  /** The flag the loop raises: some match had a limit below 200000. */
  predicate FallbackRewrites(t: Text)
  {
    var ms := AltMatches(t);
    exists k :: 0 <= k < |ms| && Guarded(t, ms[k])
  }

  /** Without a guarded rewrite the loop leaves the text byte-identical. */
  lemma FallbackUnchanged(t: Text)
    requires !FallbackRewrites(t)
    ensures FallbackText(t) == t
  {
    var ms := AltMatches(t);
    var reps := FallbackReps(t, ms);
    forall k | 0 <= k < |ms|
      ensures reps[k] == Matched(t, ms[k])
    {
      FallbackRepUnchanged(t, ms[k]);
    }
    StitchIdentity(t, ms, reps, 0);
  }

  /** The range of the digits (group 2) of a match, as a match of its own. */
  function DigitSpan(t: Text, m: Match): (d: Match)
    requires AltShape(t, m)
    ensures MatchIn(t, d) && m.start <= d.start && d.end <= m.end
    ensures Matched(t, d) == Group(t, m, 2)
  {
    AltShapeIn(t, m);
    Match(m.caps[1].lo, m.caps[1].hi, [])
  }

  function DigitSpans(t: Text, ms: seq<Match>): (ds: seq<Match>)
    requires forall k :: 0 <= k < |ms| ==> AltShape(t, ms[k])
    ensures |ds| == |ms|
    ensures forall k :: 0 <= k < |ms| ==> ds[k] == DigitSpan(t, ms[k])
    ensures WellFormed(t, ms) ==> WellFormed(t, ds)
  {
    seq(|ms|, k requires 0 <= k < |ms| => DigitSpan(t, ms[k]))
  }

  /** The digits one match ends up with: 200000 in place of a smaller limit,
      the old digits otherwise; never a limit below 200000. */
  function NewDigit(t: Text, m: Match): (d: Text)
    requires AltShape(t, m)
    ensures DigitsValue(d) >= LimitCeiling
    ensures DigitsValue(d) == if Guarded(t, m) then LimitCeiling else DigitsValue(Group(t, m, 2))
  {
    NewLimitValue();
    if Guarded(t, m) then NewLimit else Group(t, m, 2)
  }

  function NewDigits(t: Text, ms: seq<Match>): (ds: seq<Text>)
    requires forall k :: 0 <= k < |ms| ==> AltShape(t, ms[k])
    ensures |ds| == |ms|
    ensures forall k :: 0 <= k < |ms| ==> ds[k] == NewDigit(t, ms[k])
  {
    seq(|ms|, k requires 0 <= k < |ms| => NewDigit(t, ms[k]))
  }

  /** The loop changes only digit groups: splicing whole matches with
      group 1 + new limit + group 3 is the same as replacing only the digits
      of each match by its new digits. */
  lemma FallbackTouchesOnlyDigits(t: Text)
    ensures var ms := AltMatches(t);
      WellFormed(t, DigitSpans(t, ms)) &&
      FallbackText(t) == Substitute(t, DigitSpans(t, ms), NewDigits(t, ms))
  {
    var ms := AltMatches(t);
    var reps, ds, nd := FallbackReps(t, ms), DigitSpans(t, ms), NewDigits(t, ms);
    forall k | 0 <= k < |ms|
      ensures MatchIn(t, ds[k]) && Narrowed(t, ms[k], reps[k], ds[k], nd[k])
    {
      var m := ms[k];
      AltShapeIn(t, m);
      assert Group(t, m, 1) == t[m.start..m.caps[1].lo];
      assert Group(t, m, 3) == t[m.caps[1].hi..m.end];
    }
    forall k | 0 < k < |ms|
      ensures ds[k - 1].end <= ds[k].start
    {
      assert AltShape(t, ms[k - 1]) && AltShape(t, ms[k]);
    }
    StitchNarrow(t, ms, reps, ds, nd, 0);
  }

  /** Cut point of the loop: where the part already processed begins. */
  function Cut(t: Text, ms: seq<Match>, i: nat): nat
    requires i <= |ms|
  {
    NextStart(t, ms[i..])
  }

  /** One step of the right-to-left loop: splicing match `i` into the current
      content extends the processed part by match `i`, because every splice so
      far happened to the right of it. */
  lemma SpliceStep(t: Text, ms: seq<Match>, reps: seq<Text>, i: nat, content: Text)
    requires WellFormed(t, ms) && |reps| == |ms| && i < |ms|
    requires content == t[..Cut(t, ms, i + 1)] + Stitch(t, ms[i + 1..], reps[i + 1..], Cut(t, ms, i + 1))
    ensures ms[i].end <= |content|
    ensures content[ms[i].start..ms[i].end] == Matched(t, ms[i])
    ensures content[..ms[i].start] + content[ms[i].start..ms[i].end] + content[ms[i].end..] == content
    ensures content[..ms[i].start] + reps[i] + content[ms[i].end..]
         == t[..Cut(t, ms, i)] + Stitch(t, ms[i..], reps[i..], Cut(t, ms, i))
  {
    var m, q := ms[i], Cut(t, ms, i + 1);
    assert MatchIn(t, m);
    WellFormedTail(t, ms, i + 1);
    WellFormedTail(t, ms, i);
    assert m.end <= q by {
      assert i + 1 < |ms| ==> ms[i + 1..][0] == ms[i + 1];
    }
    var rest := Stitch(t, ms[i + 1..], reps[i + 1..], q);
    NextStartInBounds(t, ms[i + 1..]);
    SliceAround(t[..q], rest, m.start, m.end);
    PrefixSlices(t, q, m.start, m.end);
    assert Cut(t, ms, i) == m.start by {
      assert ms[i..][0] == m;
    }
    assert Stitch(t, ms[i..], reps[i..], m.start) == reps[i] + (t[m.end..q] + rest) by {
      assert ms[i..][0] == m && ms[i..][1..] == ms[i + 1..];
      assert reps[i..][0] == reps[i] && reps[i..][1..] == reps[i + 1..];
      StitchRebase(t, ms[i + 1..], reps[i + 1..], m.end, q);
      assert t[m.start..m.start] == [];
    }
  }

  /** Slices of a prefix `t[..q]` are slices of `t`. */
  lemma PrefixSlices(t: Text, q: nat, s: nat, e: nat)
    requires s <= e <= q <= |t|
    ensures t[..q][..s] == t[..s] && t[..q][s..e] == t[s..e] && t[..q][e..] == t[e..q]
  {
  }

  /** Cutting `x + y` at two points inside `x`. */
  lemma SliceAround(x: Text, y: Text, s: nat, e: nat)
    requires s <= e <= |x|
    ensures var z := x + y;
      && z[..s] == x[..s] && z[s..e] == x[s..e] && z[e..] == x[e..] + y
      && z[..s] + z[s..e] + z[e..] == z
  {
    var z := x + y;
    assert z[..s] + z[s..e] == z[..e];
  }

  /** The right-to-left loop's invariant: the content is the text up to the
      cut, followed by the processed rest. */
  predicate LoopInvariant(t: Text, i: nat, content: Text)
    requires i <= |AltMatches(t)|
  {
    var ms := AltMatches(t);
    WellFormedTail(t, ms, i);
    NextStartInBounds(t, ms[i..]);
    content == t[..Cut(t, ms, i)] + Stitch(t, ms[i..], FallbackReps(t, ms)[i..], Cut(t, ms, i))
  }

  /** One pass of the loop body keeps the invariant, with or without a splice. */
  lemma FallbackStep(t: Text, i: nat, content: Text)
    requires i < |AltMatches(t)| && LoopInvariant(t, i + 1, content)
    ensures var m := AltMatches(t)[i];
      && AltShape(t, m) && MatchIn(t, m) && m.end <= |content|
      && (Guarded(t, m) <==> DigitsValue(Group(t, m, 2)) < LimitCeiling)
      && (GuardedFrom(t, i) <==> Guarded(t, m) || GuardedFrom(t, i + 1))
      && LoopInvariant(t, i, if Guarded(t, m)
                             then content[..m.start] + (Group(t, m, 1) + NewLimit + Group(t, m, 3)) + content[m.end..]
                             else content)
  {
    var ms := AltMatches(t);
    var reps := FallbackReps(t, ms);
    var m := ms[i];
    SpliceStep(t, ms, reps, i, content);
    AltShapeIn(t, m);
    assert reps[i] == FallbackRep(t, m);
    if GuardedFrom(t, i + 1) {
      var k :| i + 1 <= k < |ms| && Guarded(t, ms[k]);
      assert i <= k;
    }
  }

  /** Some match from the `i`-th on has a limit below 200000. */
  predicate GuardedFrom(t: Text, i: nat)
    requires i <= |AltMatches(t)|
  {
    var ms := AltMatches(t);
    exists k :: i <= k < |ms| && Guarded(t, ms[k])
  }

  /** Before the loop nothing is processed: the invariant holds of the text. */
  lemma LoopStart(t: Text)
    ensures LoopInvariant(t, |AltMatches(t)|, t) && !GuardedFrom(t, |AltMatches(t)|)
  {
    var ms := AltMatches(t);
    NextStartInBounds(t, ms[|ms|..]);
    assert t[..Cut(t, ms, |ms|)] == t;
  }

  /** After the loop everything is processed: the content is the substitution
      of all matches, and the flag is the loop's flag. */
  lemma LoopEnd(t: Text, content: Text)
    requires LoopInvariant(t, 0, content)
    ensures content == FallbackText(t)
    ensures GuardedFrom(t, 0) <==> FallbackRewrites(t)
  {
    var ms := AltMatches(t);
    var reps := FallbackReps(t, ms);
    NextStartInBounds(t, ms);
    StitchRebase(t, ms, reps, 0, Cut(t, ms, 0));
    assert ms[0..] == ms && reps[0..] == reps;
  }

  /** Lines 64-75 of `hack_claude4.py` (63-74 of `hack_claude.py`): collect
      the matches, walk them right to left, and splice the new limit in where
      the old one is below 200000. */
  method SpliceFallback(t: Text) returns (content: Text, modified: bool)
    ensures content == FallbackText(t)
    ensures modified <==> FallbackRewrites(t)
    ensures !modified ==> content == t
  {
    var matches := AltMatches(t);
    content, modified := t, false;
    LoopStart(t);
    var i := |matches|;
    while i > 0
      invariant 0 <= i <= |matches|
      invariant LoopInvariant(t, i, content)
      invariant modified <==> GuardedFrom(t, i)
    {
      i := i - 1;
      var m := matches[i];
      FallbackStep(t, i, content);
      if DigitsValue(Group(t, m, 2)) < LimitCeiling {
        content := content[..m.start] + (Group(t, m, 1) + NewLimit + Group(t, m, 3)) + content[m.end..];
        modified := true;
      }
    }
    LoopEnd(t, content);
    if !modified {
      FallbackUnchanged(t);
    }
  }
}
