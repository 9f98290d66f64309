/** The shared engine of `modify_workbench_file`: the token-limit rule with its
    fallback, the thinking-level rule, the two rule tables, and the backup,
    read and write-back around them. The two scripts differ only in their
    tables, which a `RuleBook` carries. */
module Patcher {
  import opened Spans
  import opened Rules
  import opened Fallback

  /** `token_limit_pattern` (three groups: before, old limit, after). */
  const TokenLimitPattern: Pattern := Pattern(
    @"(async getEffectiveTokenLimit\([^)]*\)\s*{[^}]*?if\s*\([^)]*\)\s*{[^}]*?)return[^}]*?(\d{3,6})([^}]*?}[^}]*?})",
    3, false, Outer)

  /** `replace_token_limit`: `before + "return " + new_limit + after`. */
  const ReplaceTokenLimit: Template := [Ref(1), Lit("return " + NewLimit), Ref(3)]

  const TokenLimitRule: Rule := Rule(TokenLimitPattern, ReplaceTokenLimit)

  /** `thinking_level_pattern` (three groups: before, old level, after). */
  const ThinkingLevelPattern: Pattern := Pattern(
    @"(getModeThinkingLevel\([^)]*\)\s*{[^}]*?)return[^}]*?([012])([^}]*?})",
    3, false, Outer)

  const NewLevel: Text := "2"

  /** `replace_thinking_level`: `before + "return " + new_level + after`. */
  const ReplaceThinkingLevel: Template := [Ref(1), Lit("return " + NewLevel), Ref(3)]

  const ThinkingLevelRule: Rule := Rule(ThinkingLevelPattern, ReplaceThinkingLevel)

  /** The callback keeps groups 1 and 3, drops group 2 and whatever lay between
      `return` and it, and writes `return 200000`: the old limit has no say. */
  lemma TokenLimitCallback(t: Text, m: Match)
    requires MatchIn(t, m) && |m.caps| == 3
    ensures Expand(t, m, ReplaceTokenLimit) == Group(t, m, 1) + "return 200000" + Group(t, m, 3)
  {
    var tail := ReplaceTokenLimit[1..];
    assert tail[1..] == [Ref(3)];
    assert Expand(t, m, [Ref(3)]) == Group(t, m, 3) + Expand(t, m, []);
  }

  /** The thinking-level callback writes `return 2` between groups 1 and 3,
      whatever level was captured. */
  lemma ThinkingLevelCallback(t: Text, m: Match)
    requires MatchIn(t, m) && |m.caps| == 3
    ensures Expand(t, m, ReplaceThinkingLevel) == Group(t, m, 1) + "return 2" + Group(t, m, 3)
  {
    var tail := ReplaceThinkingLevel[1..];
    assert tail[1..] == [Ref(3)];
    assert Expand(t, m, [Ref(3)]) == Group(t, m, 3) + Expand(t, m, []);
  }

  /** The two tables of one script: the model-enablement patterns and the
      Cursor-specific patterns. */
  datatype RuleBook = RuleBook(modelRules: seq<Rule>, cursorRules: seq<Rule>)

  predicate ValidBook(book: RuleBook)
  {
    ValidTable(book.modelRules) && ValidTable(book.cursorRules)
  }

  /** The buffer and the `modifications_made` flag after a run. */
  datatype Patched = Patched(text: Text, modified: bool)

  /** The matches of the primary token-limit pattern. */
  function TokenMatches(re: Regex, t: Text): (ms: seq<Match>)
    ensures Conforms(TokenLimitPattern, t, ms)
  {
    re(TokenLimitPattern, t)
  }

  /** What `replace_token_limit` returns for each primary match. */
  function LimitReps(t: Text, ms: seq<Match>): (reps: seq<Text>)
    requires Conforms(TokenLimitPattern, t, ms)
    ensures |reps| == |ms|
    ensures forall k :: 0 <= k < |ms| ==>
      reps[k] == Group(t, ms[k], 1) + "return 200000" + Group(t, ms[k], 3)
  {
    seq(|ms|, k requires 0 <= k < |ms| => Group(t, ms[k], 1) + "return 200000" + Group(t, ms[k], 3))
  }

  /** `re.sub` with the callback rewrites every primary match to its groups 1
      and 3 around `return 200000`. */
  lemma PrimaryRewrite(re: Regex, t: Text)
    ensures Sub(re, t, TokenLimitRule) == Substitute(t, TokenMatches(re, t), LimitReps(t, TokenMatches(re, t)))
  {
    var ms := TokenMatches(re, t);
    var expanded, reps := Expansions(t, ms, ReplaceTokenLimit), LimitReps(t, ms);
    forall k | 0 <= k < |ms|
      ensures expanded[k] == reps[k]
    {
      TokenLimitCallback(t, ms[k]);
    }
    assert expanded == reps;
  }

  /** The primary rewrite changes only the text between group 1 and group 3
      of each match, to `return 200000`: the function header, the `if`, and
      what follows the old limit are kept. */
  lemma PrimaryTouchesOnlyReturn(re: Regex, t: Text)
    ensures var ms := TokenMatches(re, t);
      Sub(re, t, TokenLimitRule) == Substitute(t, Middles(TokenLimitPattern, t, ms), Copies("return 200000", |ms|))
  {
    var ms := TokenMatches(re, t);
    PrimaryRewrite(re, t);
    KeepsOuterGroups(TokenLimitPattern, t, ms, LimitReps(t, ms), "return 200000");
  }

  /** Likewise the thinking-level rewrite changes only the text between group 1
      and group 3 of each match, to `return 2`. */
  lemma ThinkingTouchesOnlyReturn(re: Regex, t: Text)
    ensures var ms := re(ThinkingLevelPattern, t);
      && Conforms(ThinkingLevelPattern, t, ms)
      && Sub(re, t, ThinkingLevelRule) == Substitute(t, Middles(ThinkingLevelPattern, t, ms), Copies("return 2", |ms|))
  {
    var ms := re(ThinkingLevelPattern, t);
    assert Conforms(ThinkingLevelPattern, t, ms);
    assert ValidRule(ThinkingLevelRule);
    var reps := Expansions(t, ms, ReplaceThinkingLevel);
    forall k | 0 <= k < |ms|
      ensures reps[k] == Group(t, ms[k], 1) + "return 2" + Group(t, ms[k], 3)
    {
      assert Fits(ThinkingLevelPattern, ms[k]);
      ThinkingLevelCallback(t, ms[k]);
    }
    KeepsOuterGroups(ThinkingLevelPattern, t, ms, reps, "return 2");
  }

  /** The token-limit step. When the primary pattern is found, every match
      becomes `return 200000` between its groups 1 and 3, and the flag is
      raised whatever the old limit was. Otherwise, and only then, the
      alternative scan replaces the digits of each `return NNN` site by their
      new digits (see `NewDigit`) and raises the flag iff some old limit was
      below 200000. A step that raises no flag leaves the text as it was. */
  function TokenStage(re: Regex, t: Text): (r: Patched)
    ensures Hits(re, t, TokenLimitRule) ==>
      && r.modified
      && r.text == Substitute(t, TokenMatches(re, t), LimitReps(t, TokenMatches(re, t)))
    ensures !Hits(re, t, TokenLimitRule) ==>
      var ms := AltMatches(t);
      && r.text == Substitute(t, DigitSpans(t, ms), NewDigits(t, ms))
      && (r.modified <==> exists k :: 0 <= k < |ms| && DigitsValue(Group(t, ms[k], 2)) < LimitCeiling)
    ensures !r.modified ==> r.text == t
  {
    if Hits(re, t, TokenLimitRule) then
      PrimaryRewrite(re, t);
      Patched(Sub(re, t, TokenLimitRule), true)
    else
      FallbackTouchesOnlyDigits(t);
      if FallbackRewrites(t) then Patched(FallbackText(t), true)
      else
        FallbackUnchanged(t);
        Patched(FallbackText(t), false)
  }

  /** Every rule step after the token limit, in the order the scripts run them. */
  function RuleSteps(book: RuleBook): (rules: seq<Rule>)
    requires ValidBook(book)
    ensures ValidTable(rules)
    ensures |rules| == 1 + |book.modelRules| + |book.cursorRules|
    ensures rules[0] == ThinkingLevelRule
  {
    assert ValidRule(ThinkingLevelRule);
    [ThinkingLevelRule] + book.modelRules + book.cursorRules
  }

  /** What the run computes from the file's text: one buffer passed through
      the token step and then every rule step, and the flag any of them raised.
      A run whose primary token-limit pattern is found always reports a change. */
  function Pipeline(re: Regex, book: RuleBook, t: Text): (r: Patched)
    requires ValidBook(book)
    ensures Hits(re, t, TokenLimitRule) ==> r.modified
  {
    var tok := TokenStage(re, t);
    var steps := RuleSteps(book);
    Patched(Fold(re, tok.text, steps), tok.modified || AnyHit(re, tok.text, steps))
  }

  /** The thinking-level rule has no guard: whenever its pattern is found in
      the text the token step left, the run reports a modification, even when
      the level there is already 2. */
  lemma ThinkingAlwaysFlags(re: Regex, book: RuleBook, t: Text)
    requires ValidBook(book)
    requires Hits(re, TokenStage(re, t).text, ThinkingLevelRule)
    ensures Pipeline(re, book, t).modified
  {
    var steps := RuleSteps(book);
    assert steps[..0] == [];
    assert HitAt(re, TokenStage(re, t).text, steps, 0);
  }

  /** A run that raises no flag hands back the text it was given. */
  lemma UnmodifiedIsUntouched(re: Regex, book: RuleBook, t: Text)
    requires ValidBook(book)
    requires !Pipeline(re, book, t).modified
    ensures Pipeline(re, book, t).text == t
  {
    FoldWithoutHits(re, t, RuleSteps(book));
  }

  /** Lines 42-135 of `hack_claude4.py` (42-138 of `hack_claude.py`): the
      buffer is rebound after every rule, each rule looks at the output of the
      one before it, and the flag is raised by
      the primary token rule, a guarded fallback splice, the thinking-level rule
      or any table rule whose search hits. */
  method RewriteContent(re: Regex, book: RuleBook, t: Text) returns (content: Text, modified: bool)
    requires ValidBook(book)
    ensures Patched(content, modified) == Pipeline(re, book, t)
    ensures !modified ==> content == t
  {
    content, modified := t, false;
    if Hits(re, content, TokenLimitRule) {
      content := Sub(re, content, TokenLimitRule);
      modified := true;
    } else {
      var spliced;
      content, spliced := SpliceFallback(content);
      modified := modified || spliced;
    }
    ghost var tok := content;
    assert Patched(tok, modified) == TokenStage(re, t);
    StepsInOrder(re, book, tok);
    if Hits(re, content, ThinkingLevelRule) {
      content := Sub(re, content, ThinkingLevelRule);
      modified := true;
    }
    var model, cursor;
    content, model := ApplyTable(re, content, book.modelRules);
    modified := modified || model;
    content, cursor := ApplyTable(re, content, book.cursorRules);
    modified := modified || cursor;

    if !modified {
      UnmodifiedIsUntouched(re, book, t);
    }
  }

  /** The rule steps are the thinking-level step, then the model table applied
      to its output, then the Cursor table applied to that. */
  lemma StepsInOrder(re: Regex, book: RuleBook, tok: Text)
    requires ValidBook(book)
    ensures ValidRule(ThinkingLevelRule)
    ensures var think := ApplyRule(re, tok, ThinkingLevelRule);
      && Fold(re, tok, RuleSteps(book)) == Fold(re, Fold(re, think, book.modelRules), book.cursorRules)
      && (AnyHit(re, tok, RuleSteps(book)) <==>
           Hits(re, tok, ThinkingLevelRule) || AnyHit(re, think, book.modelRules)
           || AnyHit(re, Fold(re, think, book.modelRules), book.cursorRules))
  {
    assert ValidRule(ThinkingLevelRule);
    var first := [ThinkingLevelRule];
    assert Fold(re, tok, first) == ApplyRule(re, tok, ThinkingLevelRule) by {
      assert first[..0] == [];
    }
    assert AnyHit(re, tok, first) <==> Hits(re, tok, ThinkingLevelRule) by {
      assert first[..0] == [];
      assert HitAt(re, tok, first, 0) == Hits(re, tok, ThinkingLevelRule);
    }
    FoldAppend(re, tok, first, book.modelRules);
    AnyHitAppend(re, tok, first, book.modelRules);
    FoldAppend(re, tok, first + book.modelRules, book.cursorRules);
    AnyHitAppend(re, tok, first + book.modelRules, book.cursorRules);
  }

  type Path = string

  /** `f"{file_path}.backup"`. */
  function BackupPath(p: Path): (b: Path)
    ensures b != p
  {
    assert |p + ".backup"| > |p|;
    p + ".backup"
  }

  /** How `shutil.copy2(p, backup)` ends. It opens `p`, then opens the backup
      for writing (which empties any earlier backup), copies the data, and
      finally copies the metadata with `copystat`; each step can raise. */
  datatype CopyFault =
    | CopyOk
    | OpenFails           // `p` or the backup could not be opened: nothing written
    | CutShort(kept: nat) // the data copy stopped after `kept` characters
    | StatFails           // the data was copied, then `copystat` raised

  /** Environment failures the model takes as given: how the copy ends, and
      whether the read (a missing file, no permission, text that is not UTF-8)
      or the write fails. */
  datatype Faults = Faults(copy: CopyFault, readFails: bool, writeFails: bool)

  function Min(a: nat, b: nat): nat { if a < b then a else b }

  /** The files after `shutil.copy2(p, BackupPath(p))`, whether it returned or
      raised. Only the backup path can change. Once the backup is opened it
      holds a prefix of `p`, and all of `p` when the data copy completed, even
      if `copystat` raised afterwards. */
  function BackupCopy(files: map<Path, Text>, p: Path, fault: CopyFault): (r: map<Path, Text>)
    ensures p !in files || fault == OpenFails ==> r == files
    ensures p in files && fault != OpenFails ==>
      && BackupPath(p) in r
      && r == files[BackupPath(p) := r[BackupPath(p)]]
      && r[BackupPath(p)] <= files[p]
    ensures p in files && (fault == CopyOk || fault == StatFails) ==> r[BackupPath(p)] == files[p]
    ensures p in files && fault.CutShort? ==> |r[BackupPath(p)]| == Min(fault.kept, |files[p]|)
  {
    if p !in files || fault == OpenFails then files
    else if fault.CutShort? then files[BackupPath(p) := files[p][..Min(fault.kept, |files[p]|)]]
    else files[BackupPath(p) := files[p]]
  }

  /** How `modify_workbench_file` ends: it returns a boolean, or the exception
      of a failed backup escapes it (the backup is made outside the `try`). */
  datatype Outcome = Returned(success: bool) | Raised(failedCopy: Path)

  /** The files the run can see; `files[p]` is the decoded text of file `p`. */
  class FileSystem {
    var files: map<Path, Text>

    constructor (initial: map<Path, Text>)
      ensures files == initial
    {
      files := initial;
    }

    /** `create_backup`: copy the file to its `.backup` path, overwriting any
        earlier backup. Returns the backup path, or `None` when the copy raised;
        a copy that raises may still have emptied or rewritten the backup. */
    method CreateBackup(p: Path, fault: CopyFault) returns (r: Option<Path>)
      modifies this
      ensures files == BackupCopy(old(files), p, fault)
      ensures r.Some? <==> p in old(files) && fault == CopyOk
      ensures r.Some? ==> r == Some(BackupPath(p)) && files[BackupPath(p)] == old(files)[p]
    {
      r := if p in files && fault == CopyOk then Some(BackupPath(p)) else None;
      files := BackupCopy(files, p, fault);
    }

    /** `modify_workbench_file(file_path, skip_backup)`. */
    method ModifyWorkbenchFile(p: Path, skipBackup: bool, faults: Faults, re: Regex, book: RuleBook)
      returns (out: Outcome)
      requires ValidBook(book)
      modifies this
      // the backup, unless skipped, comes first, and when it raises the run
      // stops with only what the failed copy left at the backup path
      ensures out.Raised? <==> !skipBackup && (p !in old(files) || faults.copy != CopyOk)
      ensures out.Raised? ==> out == Raised(p) && files == BackupCopy(old(files), p, faults.copy)
      ensures !skipBackup && p in old(files) && faults.copy == CopyOk ==>
        BackupPath(p) in files && files[BackupPath(p)] == old(files)[p]
      // a failed read returns False and writes nothing
      ensures out.Returned? && (p !in old(files) || faults.readFails) ==>
        out == Returned(false) && files == AfterBackup(old(files), p, skipBackup)
      // after a read the file is written back iff the flag is raised, and True means written
      ensures out.Returned? && p in old(files) && !faults.readFails ==>
        var run := Pipeline(re, book, old(files)[p]);
        && out == Returned(run.modified && !faults.writeFails)
        && files == if out.success then AfterBackup(old(files), p, skipBackup)[p := run.text]
                    else AfterBackup(old(files), p, skipBackup)
    {
      if !skipBackup {
        var backup := CreateBackup(p, faults.copy);
        if backup.None? {
          return Raised(p);
        }
      }
      ghost var backed := AfterBackup(old(files), p, skipBackup);
      assert files == backed;
      if p !in files || faults.readFails {
        assert p in old(files) ==> p in files;
        return Returned(false);
      }
      assert files[p] == old(files)[p];
      var content, modified := RewriteContent(re, book, files[p]);
      assert Pipeline(re, book, old(files)[p]) == Patched(content, modified);
      if modified {
        if faults.writeFails {
          return Returned(false);
        }
        files := files[p := content];
        return Returned(true);
      }
      return Returned(false);
    }
  }

  /** The files after the backup step, when it succeeded or was skipped. */
  function AfterBackup(files: map<Path, Text>, p: Path, skipBackup: bool): (r: map<Path, Text>)
    ensures p in files ==> p in r && r[p] == files[p]
  {
    if skipBackup then files else BackupCopy(files, p, CopyOk)
  }

  /** Running the patcher twice, with backups, leaves in the backup the text the
      first run wrote, not the original: the second backup overwrites the first. */
  method BackupAfterSecondRun(re: Regex, book: RuleBook, p: Path, original: Text)
    returns (backup: Text)
    requires ValidBook(book)
    requires Pipeline(re, book, original).modified
    ensures backup == Pipeline(re, book, original).text
  {
    var fs := new FileSystem(map[p := original]);
    var first := fs.ModifyWorkbenchFile(p, false, Faults(CopyOk, false, false), re, book);
    assert first == Returned(true);
    assert p in fs.files && fs.files[p] == Pipeline(re, book, original).text;
    var second := fs.ModifyWorkbenchFile(p, false, Faults(CopyOk, false, false), re, book);
    backup := fs.files[BackupPath(p)];
  }
}
