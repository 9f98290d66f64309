/** The rule tables of `hack_claude.py`, which targets every `claude` model. */
module HackClaude {
  import opened Spans
  import opened Rules
  import opened Patcher
  import HackClaude4

  /** `claude_patterns`, in list order, each searched and substituted with
      `re.IGNORECASE`. */
  function ModelRules(): (rules: seq<Rule>)
    ensures |rules| == 5 && ValidTable(rules)
    ensures forall k :: 0 <= k < |rules| ==> rules[k].pattern.ignoreCase
    ensures forall k :: 0 <= k < |rules| ==>
      rules[k].pattern.frame == Lead && rules[k].template != [] && rules[k].template[0] == Ref(1)
  {
    [ Rule(Pattern(@"(""claude[^""]*""[^:]*:\s*){([^}]*)""available""\s*:\s*false", 2, true, Lead),
           [Ref(1), Lit("{"), Ref(2), Lit(@"""available"":true")]),
      Rule(Pattern(@"(""claude[^""]*""[^}]*)""enabled""\s*:\s*false", 1, true, Lead),
           [Ref(1), Lit(@"""enabled"":true")]),
      Rule(Pattern(@"(""claude[^""]*""[^}]*)""requiresPro""\s*:\s*true", 1, true, Lead),
           [Ref(1), Lit(@"""requiresPro"":false")]),
      Rule(Pattern(@"(claude[^""]*""[^}]*)""visible""\s*:\s*false", 1, true, Lead),
           [Ref(1), Lit(@"""visible"":true")]),
      Rule(Pattern(@"(""claude.*""[^}]*)""beta""\s*:\s*true", 1, true, Lead),
           [Ref(1), Lit(@"""beta"":false")]) ]
  }

  /** `cursor_patterns`, in list order, with `re.IGNORECASE`. */
  function CursorRules(): (rules: seq<Rule>)
    ensures |rules| == 6 && ValidTable(rules)
    ensures forall k :: 0 <= k < |rules| ==> rules[k].pattern.ignoreCase
    ensures forall k :: 0 <= k < |rules| ==>
      rules[k].pattern.frame == Lead && rules[k].template != [] && rules[k].template[0] == Ref(1)
  {
    [ Rule(Pattern(@"(\{[^}]*""claude[^}]*)""disabled""\s*:\s*true", 1, true, Lead),
           [Ref(1), Lit(@"""disabled"":false")]),
      Rule(Pattern(@"(\{[^}]*""claude[^}]*)""hidden""\s*:\s*true", 1, true, Lead),
           [Ref(1), Lit(@"""hidden"":false")]),
      Rule(Pattern(@"(if\s*\([^)]*subscription[^)]*\)[^{]*\{[^}]*?)return\s+false", 1, true, Lead),
           [Ref(1), Lit("return true")]),
      Rule(Pattern(@"(if\s*\([^)]*isPro[^)]*\)[^{]*\{[^}]*?)return\s+null", 1, true, Lead),
           [Ref(1), Lit("return true")]),
      Rule(Pattern(@"(if\s*\([^)]*rateLimit[^)]*\)[^{]*\{[^}]*?)return\s+false", 1, true, Lead),
           [Ref(1), Lit("return true")]),
      Rule(Pattern(@"(if\s*\([^)]*usageLimit[^)]*\)[^{]*\{[^}]*?)return\s+false", 1, true, Lead),
           [Ref(1), Lit("return true")]) ]
  }

  /** Both tables of the script, in the order it runs them. */
  function Book(): (book: RuleBook)
    ensures ValidBook(book)
    ensures |RuleSteps(book)| == 12
  {
    RuleBook(ModelRules(), CursorRules())
  }

  /** The model rules of both scripts differ only in their patterns: their
      group counts and templates are the same. */
  lemma SharedModelTemplates()
    ensures |ModelRules()| == |HackClaude4.ModelRules()|
    ensures forall k :: 0 <= k < |ModelRules()| ==>
      && ModelRules()[k].template == HackClaude4.ModelRules()[k].template
      && ModelRules()[k].pattern.groups == HackClaude4.ModelRules()[k].pattern.groups
  {
  }

  /** What each model rule writes: it keeps group 1 (and, for the availability
      rule, the object body in group 2) and turns the flag it matched to the
      enabling value, exactly as the model rules of `hack_claude4.py` do. */
  lemma ModelRewrites(t: Text, m: Match)
    requires MatchIn(t, m)
    ensures |m.caps| == 2 ==> Expand(t, m, ModelRules()[0].template)
                                == Group(t, m, 1) + "{" + Group(t, m, 2) + @"""available"":true"
    ensures |m.caps| == 1 ==>
      && Expand(t, m, ModelRules()[1].template) == Group(t, m, 1) + @"""enabled"":true"
      && Expand(t, m, ModelRules()[2].template) == Group(t, m, 1) + @"""requiresPro"":false"
      && Expand(t, m, ModelRules()[3].template) == Group(t, m, 1) + @"""visible"":true"
      && Expand(t, m, ModelRules()[4].template) == Group(t, m, 1) + @"""beta"":false"
  {
    SharedModelTemplates();
    HackClaude4.ModelRewrites(t, m);
  }

  /** What each Cursor rule writes after the context it keeps in group 1; the
      rate- and usage-limit checks are forced to `return true` like the
      subscription check. */
  lemma CursorRewrites(t: Text, m: Match)
    requires MatchIn(t, m) && |m.caps| == 1
    ensures Expand(t, m, CursorRules()[0].template) == Group(t, m, 1) + @"""disabled"":false"
    ensures Expand(t, m, CursorRules()[1].template) == Group(t, m, 1) + @"""hidden"":false"
    ensures Expand(t, m, CursorRules()[2].template) == Group(t, m, 1) + "return true"
    ensures Expand(t, m, CursorRules()[3].template) == Group(t, m, 1) + "return true"
    ensures Expand(t, m, CursorRules()[4].template) == Group(t, m, 1) + "return true"
    ensures Expand(t, m, CursorRules()[5].template) == Group(t, m, 1) + "return true"
  {
    KeepThenWrite(t, m, @"""disabled"":false");
    KeepThenWrite(t, m, @"""hidden"":false");
    KeepThenWrite(t, m, "return true");
  }
}
