/** Text buffers, match spans, and the substitution that both `re.sub` and the
    right-to-left splice loop of the patcher perform on a buffer. */
module Spans {

  /** The patcher's in-memory copy of the script (`content`). */
  type Text = seq<char>

  /** The half-open character range [lo, hi) of one capture group. */
  datatype Span = Span(lo: nat, hi: nat)

  /** One match of a pattern: its half-open range [start, end) in the searched
      text and the ranges of capture groups 1, 2, ... in that same text. */
  datatype Match = Match(start: nat, end: nat, caps: seq<Span>)

  /** A match lies inside the text, is not empty, and its groups lie inside it. */
  predicate MatchIn(t: Text, m: Match)
  {
    && m.start < m.end <= |t|
    && forall k :: 0 <= k < |m.caps| ==> m.start <= m.caps[k].lo <= m.caps[k].hi <= m.end
  }

  /** What `re.finditer` and `re.sub` visit: matches in bounds, left to right,
      none overlapping the next. */
  predicate WellFormed(t: Text, ms: seq<Match>)
  {
    && (forall k :: 0 <= k < |ms| ==> MatchIn(t, ms[k]))
    && (forall k :: 0 < k < |ms| ==> ms[k - 1].end <= ms[k].start)
  }

  /** A match that ends before a well-formed list starts can head it. */
  lemma WellFormedCons(t: Text, m: Match, rest: seq<Match>)
    requires MatchIn(t, m) && WellFormed(t, rest)
    requires rest != [] ==> m.end <= rest[0].start
    ensures WellFormed(t, [m] + rest)
  {
    var ms := [m] + rest;
    forall k | 0 < k < |ms|
      ensures MatchIn(t, ms[k]) && ms[k - 1].end <= ms[k].start
    {
      assert ms[k] == rest[k - 1];
      if k > 1 {
        assert ms[k - 1] == rest[k - 2];
      }
    }
  }

  /** `match.group(g)` for g >= 1. */
  function Group(t: Text, m: Match, g: nat): (r: Text)
    requires MatchIn(t, m) && 1 <= g <= |m.caps|
    ensures |r| == m.caps[g - 1].hi - m.caps[g - 1].lo
  {
    t[m.caps[g - 1].lo..m.caps[g - 1].hi]
  }

  /** `match.group(0)`: the whole matched text. */
  function Matched(t: Text, m: Match): (r: Text)
    requires MatchIn(t, m)
    ensures |r| == m.end - m.start
  {
    t[m.start..m.end]
  }

  /** Where the first of `ms` starts, or the end of the text when there is none. */
  function NextStart(t: Text, ms: seq<Match>): nat
  {
    if ms == [] then |t| else ms[0].start
  }

  lemma NextStartInBounds(t: Text, ms: seq<Match>)
    requires WellFormed(t, ms)
    ensures NextStart(t, ms) <= |t|
  {
    if ms != [] {
      assert MatchIn(t, ms[0]);
    }
  }

  lemma WellFormedTail(t: Text, ms: seq<Match>, i: nat)
    requires WellFormed(t, ms) && i <= |ms|
    ensures WellFormed(t, ms[i..])
  {
    assert forall k :: 0 <= k < |ms| - i ==> ms[i..][k] == ms[i + k];
  }

  /** The text from `pos` on, with the span of each `ms[k]` replaced by `reps[k]`
      and everything between the spans kept: the left-to-right scan of `re.sub`. */
  function Stitch(t: Text, ms: seq<Match>, reps: seq<Text>, pos: nat): Text
    requires WellFormed(t, ms) && |reps| == |ms| && pos <= NextStart(t, ms)
    decreases |ms|
  {
    NextStartInBounds(t, ms);
    if ms == [] then t[pos..]
    else
      assert MatchIn(t, ms[0]);
      WellFormedTail(t, ms, 1);
      assert |ms| > 1 ==> ms[1..][0] == ms[1];
      t[pos..ms[0].start] + reps[0] + Stitch(t, ms[1..], reps[1..], ms[0].end)
  }

  /** The scan keeps the text before the first match and after the last one. */
  lemma {:induction false} StitchKeepsEnds(t: Text, ms: seq<Match>, reps: seq<Text>, pos: nat)
    requires WellFormed(t, ms) && |reps| == |ms| && pos <= NextStart(t, ms)
    ensures ms != [] ==> KeepsEnds(t, pos, ms[0].start, ms[|ms| - 1].end, Stitch(t, ms, reps, pos))
    decreases |ms|
  {
    if ms != [] {
      var m := ms[0];
      assert MatchIn(t, m) && MatchIn(t, ms[|ms| - 1]);
      WellFormedTail(t, ms, 1);
      var rest := Stitch(t, ms[1..], reps[1..], m.end);
      if |ms| > 1 {
        assert ms[1..][0] == ms[1] && ms[1..][|ms| - 2] == ms[|ms| - 1];
        StitchKeepsEnds(t, ms[1..], reps[1..], m.end);
        assert KeepsEnds(t, m.end, ms[1].start, ms[|ms| - 1].end, rest);
      } else {
        assert rest == t[m.end..];
      }
      KeepsEndsCons(t, pos, m.start, m.end, ms[|ms| - 1].end, reps[0], rest);
      assert Stitch(t, ms, reps, pos) == t[pos..m.start] + reps[0] + rest;
    }
  }

  /** Prepending a replaced match, and the text before it, to a scan that ends
      with the text after `last` keeps both ends. */
  lemma KeepsEndsCons(t: Text, pos: nat, start: nat, end: nat, last: nat, rep: Text, rest: Text)
    requires pos <= start <= end <= last <= |t|
    requires |t| - last <= |rest| && rest[|rest| - (|t| - last)..] == t[last..]
    ensures KeepsEnds(t, pos, start, last, t[pos..start] + rep + rest)
  {
    var head := t[pos..start] + rep;
    assert head[..start - pos] == t[pos..start];
    KeepsBothSides(head, rest, t[pos..start], t[last..]);
  }

  /** A text that starts with `p` followed by anything, and a text `rest` that
      ends with `q`, concatenate to a text that starts with `p` and ends with `q`. */
  lemma KeepsBothSides(head: Text, rest: Text, p: Text, q: Text)
    requires |p| <= |head| && head[..|p|] == p
    requires |q| <= |rest| && rest[|rest| - |q|..] == q
    ensures var r := head + rest;
      |p| + |q| <= |r| && r[..|p|] == p && r[|r| - |q|..] == q
  {
    var r := head + rest;
    assert r[..|p|] == head[..|p|];
    assert r[|r| - |q|..] == rest[|rest| - |q|..];
  }

  /** `r`, the result of a scan from `pos`, starts with the text from `pos` up
      to `first` and ends with the text from `last` on; the two kept parts do
      not overlap. */
  predicate KeepsEnds(t: Text, pos: nat, first: nat, last: nat, r: Text)
  {
    && pos <= first <= last <= |t|
    && first - pos + (|t| - last) <= |r|
    && r[..first - pos] == t[pos..first]
    && r[|r| - (|t| - last)..] == t[last..]
  }

  /** The whole text with every span of `ms` replaced by the matching entry of
      `reps`: without matches the text comes back as it was, and otherwise the
      text before the first match and after the last one is kept. */
  function Substitute(t: Text, ms: seq<Match>, reps: seq<Text>): (r: Text)
    requires WellFormed(t, ms) && |reps| == |ms|
    ensures ms == [] ==> r == t
    ensures ms != [] ==> KeepsEnds(t, 0, ms[0].start, ms[|ms| - 1].end, r)
  {
    assert t[0..] == t;
    StitchKeepsEnds(t, ms, reps, 0);
    Stitch(t, ms, reps, 0)
  }

  /** Starting the scan earlier only prepends the untouched text in between:
      the spans still ahead are not moved by where the scan starts. */
  lemma {:induction false} StitchRebase(t: Text, ms: seq<Match>, reps: seq<Text>, p: nat, q: nat)
    requires WellFormed(t, ms) && |reps| == |ms|
    requires p <= q <= NextStart(t, ms)
    ensures NextStart(t, ms) <= |t|
    ensures t[p..q] + Stitch(t, ms, reps, q) == Stitch(t, ms, reps, p)
  {
    NextStartInBounds(t, ms);
    if ms == [] {
      assert t[p..q] + t[q..] == t[p..];
    } else {
      assert MatchIn(t, ms[0]);
      WellFormedTail(t, ms, 1);
      var rest := Stitch(t, ms[1..], reps[1..], ms[0].end);
      assert Stitch(t, ms, reps, q) == t[q..ms[0].start] + reps[0] + rest;
      assert Stitch(t, ms, reps, p) == t[p..ms[0].start] + reps[0] + rest;
      JoinPrefix(t, p, q, ms[0].start, reps[0], rest);
    }
  }

  lemma JoinPrefix(t: Text, p: nat, q: nat, s: nat, rep: Text, rest: Text)
    requires p <= q <= s <= |t|
    ensures t[p..q] + (t[q..s] + rep + rest) == t[p..s] + rep + rest
  {
    assert t[p..q] + t[q..s] == t[p..s];
  }

  /** Replacing every span by its own text changes nothing. */
  lemma {:induction false} StitchIdentity(t: Text, ms: seq<Match>, reps: seq<Text>, pos: nat)
    requires WellFormed(t, ms) && |reps| == |ms| && pos <= NextStart(t, ms)
    requires forall k :: 0 <= k < |ms| ==> reps[k] == Matched(t, ms[k])
    ensures Stitch(t, ms, reps, pos) == t[pos..]
    decreases |ms|
  {
    NextStartInBounds(t, ms);
    if ms != [] {
      assert MatchIn(t, ms[0]);
      WellFormedTail(t, ms, 1);
      assert |ms| > 1 ==> ms[1..][0] == ms[1];
      StitchIdentity(t, ms[1..], reps[1..], ms[0].end);
      assert t[pos..ms[0].start] + t[ms[0].start..ms[0].end] + t[ms[0].end..] == t[pos..];
    }
  }

  /** `rep` keeps the text of match `m` on both sides of its inner span `n`
      and replaces only that inner span, by `innerRep`. */
  predicate Narrowed(t: Text, m: Match, rep: Text, n: Match, innerRep: Text)
  {
    && m.start <= n.start <= n.end <= m.end <= |t|
    && rep == t[m.start..n.start] + innerRep + t[n.end..m.end]
  }

  lemma NarrowedTail(t: Text, ms: seq<Match>, reps: seq<Text>, inner: seq<Match>, innerReps: seq<Text>)
    requires |ms| > 0 && |reps| == |ms| && |inner| == |ms| && |innerReps| == |ms|
    requires forall k :: 0 <= k < |ms| ==> Narrowed(t, ms[k], reps[k], inner[k], innerReps[k])
    ensures forall k :: 0 <= k < |ms| - 1 ==> Narrowed(t, ms[1..][k], reps[1..][k], inner[1..][k], innerReps[1..][k])
  {
    forall k | 0 <= k < |ms| - 1
      ensures Narrowed(t, ms[1..][k], reps[1..][k], inner[1..][k], innerReps[1..][k])
    {
      assert Narrowed(t, ms[k + 1], reps[k + 1], inner[k + 1], innerReps[k + 1]);
    }
  }

  lemma Regroup(t: Text, pos: nat, ms: nat, ns: nat, ne: nat, me: nat, innerRep: Text, rest: Text)
    requires pos <= ms <= ns <= ne <= me <= |t|
    ensures t[pos..ms] + (t[ms..ns] + innerRep + t[ne..me]) + rest
         == t[pos..ns] + innerRep + (t[ne..me] + rest)
  {
    assert t[pos..ms] + t[ms..ns] == t[pos..ns];
  }

  /** When each replacement keeps the text of its match around an inner span and
      only replaces that inner span, substituting the whole matches is the same as
      substituting the inner spans alone: nothing outside the inner spans changes. */
  lemma {:induction false} StitchNarrow(t: Text, ms: seq<Match>, reps: seq<Text>,
                                        inner: seq<Match>, innerReps: seq<Text>, pos: nat)
    requires WellFormed(t, ms) && |reps| == |ms| && pos <= NextStart(t, ms)
    requires WellFormed(t, inner) && |inner| == |ms| && |innerReps| == |ms|
    requires forall k :: 0 <= k < |ms| ==> Narrowed(t, ms[k], reps[k], inner[k], innerReps[k])
    ensures pos <= NextStart(t, inner)
    ensures Stitch(t, ms, reps, pos) == Stitch(t, inner, innerReps, pos)
    decreases |ms|
  {
    NextStartInBounds(t, ms);
    if ms != [] {
      var m, n := ms[0], inner[0];
      assert Narrowed(t, m, reps[0], n, innerReps[0]);
      WellFormedTail(t, ms, 1);
      WellFormedTail(t, inner, 1);
      NarrowedTail(t, ms, reps, inner, innerReps);
      if |ms| > 1 {
        assert ms[1..][0] == ms[1] && inner[1..][0] == inner[1];
        assert Narrowed(t, ms[1], reps[1], inner[1], innerReps[1]);
      }
      StitchNarrow(t, ms[1..], reps[1..], inner[1..], innerReps[1..], m.end);
      StitchRebase(t, inner[1..], innerReps[1..], n.end, m.end);
      Regroup(t, pos, m.start, n.start, n.end, m.end, innerReps[0], Stitch(t, inner[1..], innerReps[1..], m.end));
    }
  }
}
