/** Pattern rules applied with `re.search` / `re.sub`: one rule is a pattern and
    a replacement template, a rule table is applied rule after rule, each rule
    to the output of the one before it. */
module Rules {
  import opened Spans

  /** Where the capture groups of a pattern sit in each of its matches, as the
      pattern's text shows. Every pattern of the scripts opens with group 1.
      `Lead`: group 1 is followed by literal text that belongs to the match
      (a quoted key, `return`, `{`). `Outer`: the last group closes the
      match, and literal text (`return`) separates group 1 from it. */
  datatype Frame = Lead | Outer

  /** A pattern as the scripts write it: the regular expression's text, the
      number of capture groups it declares, whether it is searched with
      `re.IGNORECASE`, and where its groups sit. */
  datatype Pattern = Pattern(source: string, groups: nat, ignoreCase: bool, frame: Frame)

  /** One piece of a replacement template: literal text, or the back-reference
      `\k` to capture group k. */
  datatype Piece = Lit(text: Text) | Ref(group: nat)

  type Template = seq<Piece>

  /** One `(pattern, replacement)` entry of a rule table. */
  datatype Rule = Rule(pattern: Pattern, template: Template)

  /** A match of `p` carries every group `p` declares, group 1 starts where the
      match starts, and the groups are placed as `p`'s frame says. */
  predicate Fits(p: Pattern, m: Match)
  {
    && |m.caps| == p.groups >= 1
    && m.caps[0].lo == m.start
    && match p.frame
       case Lead => m.caps[0].hi < m.end
       case Outer =>
         && p.groups >= 2
         && m.caps[0].hi < m.caps[p.groups - 1].lo
         && m.caps[p.groups - 1].hi == m.end
  }

  /** What a regular-expression engine promises about the matches of `p` in
      `t` that `re.sub` visits: well formed, and each placed as `p`'s text
      dictates. */
  predicate Conforms(p: Pattern, t: Text, ms: seq<Match>)
  {
    && WellFormed(t, ms)
    && forall k :: 0 <= k < |ms| ==> Fits(p, ms[k])
  }

  /** Python's `re` module, which this model does not re-implement: for a
      pattern and a text, the leftmost non-overlapping matches, left to right.
      Every function with the contract above is admitted. */
  type Regex = f: (Pattern, Text) -> seq<Match> | forall p, t :: Conforms(p, t, f(p, t))
    witness (p: Pattern, t: Text) => []

  /** Every back-reference of the template names one of `groups` groups. */
  predicate RefsWithin(tmpl: Template, groups: nat)
  {
    forall k :: 0 <= k < |tmpl| && tmpl[k].Ref? ==> 1 <= tmpl[k].group <= groups
  }

  /** The template refers only to groups the pattern has (otherwise `re.sub`
      would raise "invalid group reference"). */
  predicate ValidRule(r: Rule)
  {
    RefsWithin(r.template, r.pattern.groups)
  }

  /** The replacement text of one match: the template with each `\k` filled in. */
  function Expand(t: Text, m: Match, tmpl: Template): Text
    requires MatchIn(t, m) && RefsWithin(tmpl, |m.caps|)
  {
    if tmpl == [] then []
    else
      (match tmpl[0]
       case Lit(s) => s
       case Ref(g) => Group(t, m, g))
      + Expand(t, m, tmpl[1..])
  }

  function Expansions(t: Text, ms: seq<Match>, tmpl: Template): (reps: seq<Text>)
    requires forall k :: 0 <= k < |ms| ==> MatchIn(t, ms[k]) && RefsWithin(tmpl, |ms[k].caps|)
    ensures |reps| == |ms|
    ensures forall k :: 0 <= k < |ms| ==> reps[k] == Expand(t, ms[k], tmpl)
  {
    seq(|ms|, k requires 0 <= k < |ms| => Expand(t, ms[k], tmpl))
  }

  /** The flag-rule template `\1<text>`: group 1 kept, then a fixed text. */
  lemma KeepThenWrite(t: Text, m: Match, s: Text)
    requires MatchIn(t, m) && |m.caps| >= 1
    ensures Expand(t, m, [Ref(1), Lit(s)]) == Group(t, m, 1) + s
  {
    assert [Ref(1), Lit(s)][1..] == [Lit(s)];
    assert Expand(t, m, [Lit(s)]) == s by {
      assert [Lit(s)][1..] == [];
      assert s + [] == s;
    }
  }

  /** `re.search(pattern, content)` succeeds. */
  predicate Hits(re: Regex, t: Text, r: Rule)
  {
    |re(r.pattern, t)| > 0
  }

  /** `re.sub(pattern, replacement, content)`: a pattern that does not occur
      leaves the text as it was. */
  function Sub(re: Regex, t: Text, r: Rule): (s: Text)
    requires ValidRule(r)
    ensures !Hits(re, t, r) ==> s == t
  {
    var ms := re(r.pattern, t);
    assert Conforms(r.pattern, t, ms);
    Substitute(t, ms, Expansions(t, ms, r.template))
  }

  /** One rule step of the patcher: substitute if the search hits, else leave
      the text. The search decides only the flag: the text is what `re.sub`
      alone would give. */
  function ApplyRule(re: Regex, t: Text, r: Rule): (s: Text)
    requires ValidRule(r)
    ensures s == Sub(re, t, r)
  {
    if Hits(re, t, r) then Sub(re, t, r) else t
  }

  /** The part of each match after its group 1, as a span of its own. */
  function AfterLeads(p: Pattern, t: Text, ms: seq<Match>): (ns: seq<Match>)
    requires Conforms(p, t, ms)
    ensures |ns| == |ms| && WellFormed(t, ns)
    ensures forall k :: 0 <= k < |ms| ==> ns[k] == Match(ms[k].caps[0].hi, ms[k].end, [])
  {
    assert forall k :: 0 <= k < |ms| ==> Fits(p, ms[k]) && MatchIn(t, ms[k]);
    seq(|ms|, k requires 0 <= k < |ms| => Match(ms[k].caps[0].hi, ms[k].end, []))
  }

  /** The text of each match strictly between its first and its last group. */
  function Middles(p: Pattern, t: Text, ms: seq<Match>): (ns: seq<Match>)
    requires Conforms(p, t, ms) && p.frame == Outer
    ensures |ns| == |ms| && WellFormed(t, ns)
    ensures forall k :: 0 <= k < |ms| ==>
      ns[k] == Match(ms[k].caps[0].hi, ms[k].caps[p.groups - 1].lo, [])
  {
    assert forall k :: 0 <= k < |ms| ==> Fits(p, ms[k]) && MatchIn(t, ms[k]);
    seq(|ms|, k requires 0 <= k < |ms| => Match(ms[k].caps[0].hi, ms[k].caps[p.groups - 1].lo, []))
  }

  /** `n` copies of the same replacement text. */
  function Copies(s: Text, n: nat): (r: seq<Text>)
    ensures |r| == n && forall k :: 0 <= k < n ==> r[k] == s
  {
    seq(n, _ => s)
  }

  /** A rule whose template starts by putting group 1 back rewrites only what
      follows group 1 in each match: every match's text up to the end of its
      group 1, and all text between matches, is kept. */
  lemma KeepsLeadGroup(re: Regex, t: Text, r: Rule)
    requires ValidRule(r) && r.template != [] && r.template[0] == Ref(1)
    ensures var ms := re(r.pattern, t);
      && RefsWithin(r.template[1..], r.pattern.groups)
      && Sub(re, t, r) == Substitute(t, AfterLeads(r.pattern, t, ms), Expansions(t, ms, r.template[1..]))
  {
    var ms := re(r.pattern, t);
    assert Conforms(r.pattern, t, ms);
    var tail := r.template[1..];
    assert forall k :: 0 <= k < |tail| ==> tail[k] == r.template[k + 1];
    var reps, ns, tails := Expansions(t, ms, r.template), AfterLeads(r.pattern, t, ms), Expansions(t, ms, tail);
    forall k | 0 <= k < |ms|
      ensures Narrowed(t, ms[k], reps[k], ns[k], tails[k])
    {
      var m := ms[k];
      assert Fits(r.pattern, m) && MatchIn(t, m);
      assert reps[k] == Group(t, m, 1) + tails[k];
      assert t[m.end..m.end] == [];
    }
    StitchNarrow(t, ms, reps, ns, tails, 0);
  }

  /** When each match is replaced by its group 1, a fixed text `s`, and its
      last group, the substitution rewrites only the text between those two
      groups, to `s`: everything else is kept. */
  lemma KeepsOuterGroups(p: Pattern, t: Text, ms: seq<Match>, reps: seq<Text>, s: Text)
    requires Conforms(p, t, ms) && p.frame == Outer && |reps| == |ms|
    requires forall k :: 0 <= k < |ms| ==> reps[k] == Group(t, ms[k], 1) + s + Group(t, ms[k], p.groups)
    ensures Substitute(t, ms, reps) == Substitute(t, Middles(p, t, ms), Copies(s, |ms|))
  {
    var ns, ss := Middles(p, t, ms), Copies(s, |ms|);
    forall k | 0 <= k < |ms|
      ensures Narrowed(t, ms[k], reps[k], ns[k], ss[k])
    {
      assert Fits(p, ms[k]) && MatchIn(t, ms[k]);
    }
    StitchNarrow(t, ms, reps, ns, ss, 0);
  }

  predicate ValidTable(rules: seq<Rule>)
  {
    forall k :: 0 <= k < |rules| ==> ValidRule(rules[k])
  }

  /** The text after the rules of the table have been applied in order. */
  function Fold(re: Regex, t: Text, rules: seq<Rule>): Text
    requires ValidTable(rules)
  {
    if rules == [] then t
    else ApplyRule(re, Fold(re, t, rules[..|rules| - 1]), rules[|rules| - 1])
  }

  /** Rule `k` of the table hits the text its predecessors left behind. */
  predicate HitAt(re: Regex, t: Text, rules: seq<Rule>, k: nat)
    requires ValidTable(rules) && k < |rules|
  {
    Hits(re, Fold(re, t, rules[..k]), rules[k])
  }

  /** Some rule of the table set the modification flag. */
  predicate AnyHit(re: Regex, t: Text, rules: seq<Rule>)
    requires ValidTable(rules)
  {
    exists k :: 0 <= k < |rules| && HitAt(re, t, rules, k)
  }

  /** The `for pattern, replacement in ...` loop of the patcher: each rule is
      searched in the current content, substituted when found, and the flag is
      raised for it. */
  method ApplyTable(re: Regex, t: Text, rules: seq<Rule>) returns (content: Text, modified: bool)
    requires ValidTable(rules)
    ensures content == Fold(re, t, rules)
    ensures modified <==> AnyHit(re, t, rules)
  {
    content, modified := t, false;
    for i := 0 to |rules|
      invariant content == Fold(re, t, rules[..i])
      invariant modified <==> HitBefore(re, t, rules, i)
    {
      TableStep(re, t, rules, i);
      if Hits(re, content, rules[i]) {
        content := Sub(re, content, rules[i]);
        modified := true;
      }
    }
    assert rules[..|rules|] == rules;
  }

  /** Some rule before rule `i` set the flag. */
  predicate HitBefore(re: Regex, t: Text, rules: seq<Rule>, i: nat)
    requires ValidTable(rules) && i <= |rules|
  {
    exists k :: 0 <= k < i && HitAt(re, t, rules, k)
  }

  /** Rule `i` acts on, and is searched in, what the rules before it left. */
  lemma TableStep(re: Regex, t: Text, rules: seq<Rule>, i: nat)
    requires ValidTable(rules) && i < |rules|
    ensures Fold(re, t, rules[..i + 1]) == ApplyRule(re, Fold(re, t, rules[..i]), rules[i])
    ensures HitAt(re, t, rules, i) == Hits(re, Fold(re, t, rules[..i]), rules[i])
    ensures HitBefore(re, t, rules, i + 1) <==> HitBefore(re, t, rules, i) || HitAt(re, t, rules, i)
  {
    var front := rules[..i + 1];
    assert front[..i] == rules[..i] && front[i] == rules[i];
    assert Fold(re, t, front) == ApplyRule(re, Fold(re, t, front[..i]), front[i]);
    if HitBefore(re, t, rules, i + 1) {
      var k :| 0 <= k < i + 1 && HitAt(re, t, rules, k);
      assert k < i ==> HitBefore(re, t, rules, i);
    }
    if HitBefore(re, t, rules, i) {
      var k :| 0 <= k < i && HitAt(re, t, rules, k);
      assert 0 <= k < i + 1;
    }
    assert HitAt(re, t, rules, i) ==> 0 <= i < i + 1;
  }

  /** Applying two tables one after the other is applying their concatenation. */
  lemma {:induction false} FoldAppend(re: Regex, t: Text, a: seq<Rule>, b: seq<Rule>)
    requires ValidTable(a) && ValidTable(b)
    ensures ValidTable(a + b)
    ensures Fold(re, t, a + b) == Fold(re, Fold(re, t, a), b)
    decreases |b|
  {
    if b == [] {
      assert a + b == a;
    } else {
      var b' := b[..|b| - 1];
      assert (a + b)[..|a + b| - 1] == a + b';
      FoldAppend(re, t, a, b');
    }
  }

  /** The flag raised by the concatenated table is the flag raised by either part. */
  lemma AnyHitAppend(re: Regex, t: Text, a: seq<Rule>, b: seq<Rule>)
    requires ValidTable(a) && ValidTable(b)
    ensures ValidTable(a + b)
    ensures AnyHit(re, t, a + b) <==> AnyHit(re, t, a) || AnyHit(re, Fold(re, t, a), b)
  {
    FoldAppend(re, t, a, []);
    var mid := Fold(re, t, a);
    forall k | 0 <= k < |a|
      ensures HitAt(re, t, a + b, k) == HitAt(re, t, a, k)
    {
      HitInFront(re, t, a, b, k);
    }
    forall k | 0 <= k < |b|
      ensures HitAt(re, t, a + b, |a| + k) == HitAt(re, mid, b, k)
    {
      HitInBack(re, t, a, b, k);
    }
    if AnyHit(re, t, a + b) {
      var k :| 0 <= k < |a + b| && HitAt(re, t, a + b, k);
      if k >= |a| {
        assert HitAt(re, mid, b, k - |a|);
      }
    }
    if AnyHit(re, mid, b) {
      var k :| 0 <= k < |b| && HitAt(re, mid, b, k);
      assert HitAt(re, t, a + b, |a| + k);
    }
  }

  /** Rule `k` of `a` hits in `a + b` exactly when it hits in `a`. */
  lemma HitInFront(re: Regex, t: Text, a: seq<Rule>, b: seq<Rule>, k: nat)
    requires ValidTable(a) && ValidTable(b) && ValidTable(a + b) && k < |a|
    ensures HitAt(re, t, a + b, k) == HitAt(re, t, a, k)
  {
    assert (a + b)[..k] == a[..k] && (a + b)[k] == a[k];
  }

  /** Rule `k` of `b` hits in `a + b` exactly when it hits `b` run on `a`'s output. */
  lemma HitInBack(re: Regex, t: Text, a: seq<Rule>, b: seq<Rule>, k: nat)
    requires ValidTable(a) && ValidTable(b) && ValidTable(a + b) && k < |b|
    ensures HitAt(re, t, a + b, |a| + k) == HitAt(re, Fold(re, t, a), b, k)
  {
    assert (a + b)[..|a| + k] == a + b[..k] && (a + b)[|a| + k] == b[k];
    FoldAppend(re, t, a, b[..k]);
  }

  /** When no rule of the table hits, the table leaves the text as it was. */
  lemma {:induction false} FoldWithoutHits(re: Regex, t: Text, rules: seq<Rule>)
    requires ValidTable(rules)
    requires !AnyHit(re, t, rules)
    ensures Fold(re, t, rules) == t
    decreases |rules|
  {
    if rules != [] {
      var n := |rules| - 1;
      var front := rules[..n];
      forall k | 0 <= k < n
        ensures !HitAt(re, t, front, k)
      {
        assert front[..k] == rules[..k];
        assert !HitAt(re, t, rules, k);
      }
      FoldWithoutHits(re, t, front);
      assert !Hits(re, Fold(re, t, front), rules[n]) by {
        assert !HitAt(re, t, rules, n);
      }
      assert Fold(re, t, rules) == ApplyRule(re, Fold(re, t, front), rules[n]);
    }
  }
}
