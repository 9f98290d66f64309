/** The rule tables of `hack_claude4.py`, which targets the `claude-4` models. */
module HackClaude4 {
  import opened Spans
  import opened Rules
  import opened Patcher

  /** `claude4_patterns`, in list order, each searched and substituted with
      `re.IGNORECASE`. */
  function ModelRules(): (rules: seq<Rule>)
    ensures |rules| == 5 && ValidTable(rules)
    ensures forall k :: 0 <= k < |rules| ==> rules[k].pattern.ignoreCase
    ensures forall k :: 0 <= k < |rules| ==>
      rules[k].pattern.frame == Lead && rules[k].template != [] && rules[k].template[0] == Ref(1)
  {
    [ Rule(Pattern(@"(""claude-4[^""]*""[^:]*:\s*){([^}]*)""available""\s*:\s*false", 2, true, Lead),
           [Ref(1), Lit("{"), Ref(2), Lit(@"""available"":true")]),
      Rule(Pattern(@"(""claude-4[^""]*""[^}]*)""enabled""\s*:\s*false", 1, true, Lead),
           [Ref(1), Lit(@"""enabled"":true")]),
      Rule(Pattern(@"(""claude-4[^""]*""[^}]*)""requiresPro""\s*:\s*true", 1, true, Lead),
           [Ref(1), Lit(@"""requiresPro"":false")]),
      Rule(Pattern(@"(claude-4[^""]*""[^}]*)""visible""\s*:\s*false", 1, true, Lead),
           [Ref(1), Lit(@"""visible"":true")]),
      Rule(Pattern(@"(""claude.*""[^}]*)""beta""\s*:\s*true", 1, true, Lead),
           [Ref(1), Lit(@"""beta"":false")]) ]
  }

  /** `cursor_patterns`, in list order, with `re.IGNORECASE`. */
  function CursorRules(): (rules: seq<Rule>)
    ensures |rules| == 4 && ValidTable(rules)
    ensures forall k :: 0 <= k < |rules| ==> rules[k].pattern.ignoreCase
    ensures forall k :: 0 <= k < |rules| ==>
      rules[k].pattern.frame == Lead && rules[k].template != [] && rules[k].template[0] == Ref(1)
  {
    [ Rule(Pattern(@"(\{[^}]*""claude-4[^}]*)""disabled""\s*:\s*true", 1, true, Lead),
           [Ref(1), Lit(@"""disabled"":false")]),
      Rule(Pattern(@"(\{[^}]*""claude-4[^}]*)""hidden""\s*:\s*true", 1, true, Lead),
           [Ref(1), Lit(@"""hidden"":false")]),
      Rule(Pattern(@"(if\s*\([^)]*subscription[^)]*\)[^{]*\{[^}]*?)return\s+false", 1, true, Lead),
           [Ref(1), Lit("return true")]),
      Rule(Pattern(@"(if\s*\([^)]*isPro[^)]*\)[^{]*\{[^}]*?)return\s+null", 1, true, Lead),
           [Ref(1), Lit("return true")]) ]
  }

  /** Both tables of the script, in the order it runs them. */
  function Book(): (book: RuleBook)
    ensures ValidBook(book)
    ensures |RuleSteps(book)| == 10
  {
    RuleBook(ModelRules(), CursorRules())
  }

  /** What each model rule writes: it keeps group 1 (and, for the availability
      rule, the object body in group 2) and turns the flag it matched to the
      enabling value. */
  lemma ModelRewrites(t: Text, m: Match)
    requires MatchIn(t, m)
    ensures |m.caps| == 2 ==> Expand(t, m, ModelRules()[0].template)
                                == Group(t, m, 1) + "{" + Group(t, m, 2) + @"""available"":true"
    ensures |m.caps| == 1 ==>
      && Expand(t, m, ModelRules()[1].template) == Group(t, m, 1) + @"""enabled"":true"
      && Expand(t, m, ModelRules()[2].template) == Group(t, m, 1) + @"""requiresPro"":false"
      && Expand(t, m, ModelRules()[3].template) == Group(t, m, 1) + @"""visible"":true"
      && Expand(t, m, ModelRules()[4].template) == Group(t, m, 1) + @"""beta"":false"
  {
    var rules := ModelRules();
    if |m.caps| == 2 {
      var last := [Lit(@"""available"":true")];
      var tail := [Ref(2)] + last;
      assert Expand(t, m, last) == @"""available"":true" by {
        assert last[1..] == [];
      }
      assert Expand(t, m, tail) == Group(t, m, 2) + @"""available"":true" by {
        assert tail[1..] == last;
      }
      assert Expand(t, m, [Lit("{")] + tail) == "{" + Expand(t, m, tail) by {
        assert ([Lit("{")] + tail)[1..] == tail;
      }
      assert rules[0].template[1..] == [Lit("{")] + tail;
    }
    if |m.caps| == 1 {
      KeepThenWrite(t, m, @"""enabled"":true");
      KeepThenWrite(t, m, @"""requiresPro"":false");
      KeepThenWrite(t, m, @"""visible"":true");
      KeepThenWrite(t, m, @"""beta"":false");
    }
  }

  /** What each Cursor rule writes after the context it keeps in group 1. */
  lemma CursorRewrites(t: Text, m: Match)
    requires MatchIn(t, m) && |m.caps| == 1
    ensures Expand(t, m, CursorRules()[0].template) == Group(t, m, 1) + @"""disabled"":false"
    ensures Expand(t, m, CursorRules()[1].template) == Group(t, m, 1) + @"""hidden"":false"
    ensures Expand(t, m, CursorRules()[2].template) == Group(t, m, 1) + "return true"
    ensures Expand(t, m, CursorRules()[3].template) == Group(t, m, 1) + "return true"
  {
    KeepThenWrite(t, m, @"""disabled"":false");
    KeepThenWrite(t, m, @"""hidden"":false");
    KeepThenWrite(t, m, "return true");
  }
}
