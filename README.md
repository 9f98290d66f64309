# Cursor workbench patcher: the rewrite engine in Dafny

`hack_claude4.py` and `hack_claude.py` patch Cursor's minified
`workbench.desktop.main.js` through `modify_workbench_file(file_path,
skip_backup)`. The function works in this order:

1. Unless `skip_backup` is set, it copies the file to `<file>.backup`.
2. It reads the file into one text buffer.
3. It runs rule families over the buffer, in order:
   - the token-limit rule, which forces `return 200000` into
     `getEffectiveTokenLimit`;
   - only when that rule's pattern finds nothing, an alternative scan over
     `return NNN;` / `return NNN}` sites, which writes 200000 where the old
     value is below 200000;
   - the thinking-level rule, which forces `return 2` into
     `getModeThinkingLevel`;
   - a table of model-enablement rules;
   - a table of Cursor-specific rules.
4. It writes the buffer back, and returns True, only if some step raised the
   `modifications_made` flag.

The two scripts share this engine line for line. Only the line numbers
shift:

- up to line 44 both scripts agree. Line 45 of `hack_claude4.py` is a
  comment that `hack_claude.py` lacks, so from there through the Cursor
  tables the same line sits one line earlier in `hack_claude.py`
  (`hack_claude4.py:78` is `hack_claude.py:77`);
- after the Cursor tables, `hack_claude.py` is three lines ahead
  (`hack_claude4.py:131` is `hack_claude.py:134`, and 137 is 140).

The engines differ only in their tables:

- four of the five model rules search for `claude-4` in `hack_claude4.py`
  and for `claude` in `hack_claude.py`. The fifth rule, which clears
  `"beta"`, is `("claude.*"[^}]*)"beta"` in both scripts, so
  `hack_claude4.py` also clears `beta` next to any Claude key, not only
  `claude-4` ones;
- the first two Cursor rules search for `claude-4` in one script and for
  `claude` in the other;
- `hack_claude.py` has two more Cursor rules, for `rateLimit` and
  `usageLimit`.

The model has six modules:

- `Spans`: text, match spans, and the left-to-right substitution that
  `re.sub` performs.
- `Rules`: a rule is a pattern plus a replacement template, and a table is
  applied rule after rule. Python's `re` engine for these patterns is a
  parameter `re: Regex`. It is any function that returns in-bounds,
  non-empty, left-to-right, non-overlapping matches carrying the pattern's
  capture groups. Group 1 of every match starts where the match starts.
  Each pattern also records its frame, which its regular expression fixes:
  - a `Lead` pattern (every table rule) has text after group 1;
  - an `Outer` pattern (the token-limit and thinking-level patterns) ends
    with its last group, and its first and last groups are separated by
    the text in between.
- `Fallback`: the alternative scan, modelled concretely:
  - a hand-written matcher for `(\breturn\s+)(\d{3,6})(\s*[;}])`, with a
    declarative statement of the pattern (`AltShape`) that the matcher is
    proved sound and complete against;
  - `re.finditer`;
  - the `int(old_limit) < 200000` guard;
  - the right-to-left splice loop, proved equal to a left-to-right
    substitution.
- `Patcher`:
  - the token-limit and thinking-level rules and their callbacks;
  - the whole-run specification `Pipeline`, and `RewriteContent`, which runs
    the steps in the scripts' order;
  - a `FileSystem` class for backup, read and write-back.
- `HackClaude4` and `HackClaude`: the two scripts' rule tables, verbatim.

Some behaviour of the code differs from what a reader of the scripts'
messages and comments might expect. The model follows the code:

- A reader might expect a rule that finds a value already at its target not
  to report a change ("file may already be patched"). The token-limit rule's
  primary pattern and the thinking-level rule have no guard: they raise the
  flag whenever their pattern is found (`TokenStage`, `ThinkingAlwaysFlags`).
  Only the alternative scan is guarded.
- So a second run over an already patched file is not a no-op: it rewrites
  the file again whenever one of those patterns is still found.
- There is no restore operation. `shutil.copy2` overwrites `<file>.backup` on
  every run, so after two runs the backup holds the text the first run wrote,
  not the original (`BackupAfterSecondRun`).
- A failed backup is not caught: `create_backup` is called outside the `try`.
  The exception escapes `modify_workbench_file`, which the model writes as
  `Outcome.Raised`. A failed read returns False.

## Model

| member | source | states |
|---|---|---|
| `Spans.StitchRebase` | hack_claude4.py:66-68 | Splices made to the right of a span never move it: starting the scan earlier only prepends untouched text. This is why the reverse walk over `finditer`'s spans stays valid. |
| `Spans.StitchIdentity` | hack_claude4.py:69-70 | When every match is replaced by its own text, the substitution returns the text unchanged. |
| `Spans.StitchNarrow` | hack_claude4.py:71-73 | If each replacement keeps its match's text around an inner span and replaces only that inner span, then substituting the whole matches equals substituting the inner spans alone. |
| `Spans.Substitute` | hack_claude4.py:58 | The left-to-right splice `re.sub` performs: without matches the text comes back unchanged, and otherwise the text before the first match and after the last match is kept as it was. |
| `Rules.KeepThenWrite` | hack_claude4.py:102 | The template `\1<text>` expands to group 1 followed by the fixed text. |
| `Rules.Expand` | hack_claude4.py:99 | Defines the expansion of a replacement template: literal pieces are copied and each `\k` is replaced by group k of the match. Its properties are stated by `KeepThenWrite`, `ModelRewrites` and `CursorRewrites`. |
| `Rules.Sub` | hack_claude4.py:116 | `re.sub(pattern, replacement, content)`: every match is replaced by its expanded template, and a pattern that does not occur leaves the text unchanged. |
| `Rules.Hits` | hack_claude4.py:57 | Defines `re.search(pattern, content)`: the oracle reports at least one match. Its consequences are stated by `ApplyRule`, `ApplyTable`, `AnyHitAppend` and `TokenStage`. |
| `Rules.AfterLeads` | hack_claude4.py:116 | The part of each match after its group 1, as spans: as many as the matches, and well formed, left to right and non-overlapping in the text. |
| `Rules.Middles` | hack_claude4.py:58 | For a pattern that ends with its last group: the part of each match between its first and last groups, as well-formed, left-to-right spans. |
| `Rules.KeepsLeadGroup` | hack_claude4.py:114-118 | A rule whose template starts with `\1` (every table rule) rewrites only what follows group 1 in each match. Its `re.sub` equals substituting, after each group 1, the rest of the template. The text before the first match, between matches and in each group 1 is kept. |
| `Rules.KeepsOuterGroups` | hack_claude4.py:48-58 | When each match is replaced by group 1, a fixed text, and the last group, the substitution replaces only the text between those two groups, by the fixed text. |
| `Rules.ApplyRule` | hack_claude4.py:115-117 | One search-then-substitute step. Its text is exactly what `re.sub` alone would give: the `re.search` guard only decides the flag. |
| `Rules.Fold` | hack_claude.py:134-137 | Defines a table's effect: the rules applied in list order, each to the previous rule's output. Its properties are stated by `ApplyTable`, `FoldAppend` and `FoldWithoutHits`. |
| `Rules.ApplyTable` | hack_claude4.py:114-118 | The `for pattern, replacement` loop: the buffer ends up as the rules applied in list order, each to the previous rule's output. The flag is raised iff some rule's search hit the text it was given. |
| `Rules.FoldAppend` | hack_claude.py:113-138 | Running one table and then the next equals running their concatenation. |
| `Rules.AnyHitAppend` | hack_claude.py:134-138 | The concatenated tables raise the flag iff the first table raises it, or the second raises it on the first table's output. |
| `Rules.FoldWithoutHits` | hack_claude4.py:131-135 | A table none of whose searches hit leaves the buffer unchanged. |
| `Fallback.MatchAt` | hack_claude4.py:65 | One attempt of `alt_pattern` at a position. Any match it returns starts there and has the pattern's shape: `\b`, `return`, at least one `\s`, three to six digits, `\s*`, then `;` or `}`. |
| `Fallback.MatchAtComplete` | hack_claude.py:64 | Every match the pattern allows at a position is the one the matcher returns there. |
| `Fallback.NoMatchInside` | hack_claude.py:65 | No match of the pattern starts strictly inside another match. |
| `Fallback.FindAll` | hack_claude4.py:66 | `re.finditer`: its matches are well formed and left to right, each is a match at its start, and every position where the pattern matches is reported. |
| `Fallback.AltMatches` | hack_claude.py:65 | The list of all matches in the buffer: well formed, and each has the pattern's shape. |
| `Fallback.DigitsValue` | hack_claude4.py:69-70 | `int(old_limit)` for a digit string: its value is below 10 to the power of the string's length. |
| `Fallback.Guarded` | hack_claude.py:69 | Defines the guard `int(old_limit) < 200000`. Its consequences are stated by `ShortLimitsGuarded`, `FallbackRepUnchanged` and `NewDigit`. |
| `Fallback.ShortLimitsGuarded` | hack_claude4.py:65-70 | A limit of three to five digits is always below 200000, so only six-digit limits can be left alone. |
| `Fallback.NewLimitValue` | hack_claude4.py:70 | The digits written, `200000`, denote the guard's bound, 200000. |
| `Fallback.FallbackRep` | hack_claude4.py:69-72 | Defines what the loop leaves in place of one match: group 1 + `200000` + group 3 when the guard holds, the matched text otherwise. Its properties are stated by `FallbackRepUnchanged` and `NewDigit`. |
| `Fallback.FallbackRepUnchanged` | hack_claude4.py:69-72 | A match stays byte-identical iff its old value is not below 200000. |
| `Fallback.FallbackText` | hack_claude4.py:66-73 | Defines the buffer after the loop: every match of `alt_pattern` replaced, left to right, by its guarded rewrite. Its properties are stated by `FallbackUnchanged`, `FallbackTouchesOnlyDigits` and `SpliceFallback`. |
| `Fallback.FallbackRewrites` | hack_claude4.py:70-75 | Defines the flag the loop raises: some match has a limit below 200000. `SpliceFallback` and `TokenStage` state it as the loop's flag. |
| `Fallback.FallbackUnchanged` | hack_claude.py:67-74 | If no match has a value below 200000, the loop leaves the buffer byte-identical. |
| `Fallback.NewDigit` | hack_claude.py:69-71 | After the loop, each match's digits denote max(old value, 200000): 200000 if the old value was below it, the old value otherwise. No limit ends below 200000. |
| `Fallback.FallbackTouchesOnlyDigits` | hack_claude4.py:71-73 | The whole-match splice (group 1 + `200000` + group 3) equals replacing only the digit groups. All other text is unchanged. |
| `Fallback.SpliceStep` | hack_claude4.py:73 | `content[:start] + new + content[end:]` in the partly processed buffer extends the processed suffix by one match. The slice at `match.span()` still holds that match's original text. |
| `Fallback.FallbackStep` | hack_claude.py:67-74 | One pass of the loop body, splicing or not as the guard decides, keeps the loop invariant. |
| `Fallback.SpliceFallback` | hack_claude4.py:64-75 | The reverse splice loop produces the guarded substitution of all matches. It raises the flag iff some match had a value below 200000, and an unraised flag means the buffer is unchanged. |
| `Patcher.TokenLimitCallback` | hack_claude4.py:48-55 | `replace_token_limit` returns group 1 + `return 200000` + group 3, whatever the old limit was. |
| `Patcher.LimitReps` | hack_claude.py:47-54 | Defines the list of replacements for the primary matches, each group 1 + `return 200000` + group 3. `PrimaryRewrite` proves that this list is what `re.sub` with `replace_token_limit` substitutes, and `TokenStage` states the resulting text. |
| `Patcher.PrimaryRewrite` | hack_claude4.py:57-58 | `re.sub` with the callback equals the left-to-right substitution of every primary match by group 1 + `return 200000` + group 3. |
| `Patcher.PrimaryTouchesOnlyReturn` | hack_claude4.py:46-58 | The primary rewrite replaces only the text between group 1 and group 3 of each match, by `return 200000`. The function header, the `if` and what follows the old limit are kept. |
| `Patcher.ThinkingTouchesOnlyReturn` | hack_claude4.py:78-90 | The thinking-level rewrite replaces only the text between group 1 and group 3 of each match, by `return 2`. |
| `Patcher.ThinkingLevelCallback` | hack_claude4.py:80-87 | `replace_thinking_level` returns group 1 + `return 2` + group 3, whatever the old level was. |
| `Patcher.TokenStage` | hack_claude4.py:57-75 | When the primary pattern is found, the flag is raised and every primary match becomes group 1 + `return 200000` + group 3. Otherwise the digits of each `return NNN` site are replaced by their new digits (see `NewDigit`), and the flag is raised iff some old limit is below 200000. A step that raises no flag leaves the text unchanged. |
| `Patcher.RuleSteps` | hack_claude.py:88-138 | The steps after the token limit: the thinking-level rule first, then the model table, then the Cursor table. |
| `Patcher.Pipeline` | hack_claude.py:42-137 | The whole text pass: the token step, then every rule step, with the flag as the OR of all of them. A run whose primary token-limit pattern is found always reports a change. |
| `Patcher.ThinkingAlwaysFlags` | hack_claude4.py:89-92 | If the thinking-level pattern is found, the run reports a modification, even when the level is already 2. |
| `Patcher.UnmodifiedIsUntouched` | hack_claude.py:42-138 | A run that raises no flag leaves the text it read unchanged. |
| `Patcher.RewriteContent` | hack_claude4.py:42-135 | The imperative rule sequence over one buffer computes `Pipeline`: the final text, and the flag as the OR of all steps. An unraised flag means the text is unchanged. |
| `Patcher.StepsInOrder` | hack_claude4.py:89-135 | The rule steps are the thinking-level step, then the model table on its output, then the Cursor table on that. The flag they raise is the OR of the three. |
| `Patcher.BackupPath` | hack_claude4.py:24 | The backup path `<file>.backup` is never the file itself. |
| `Patcher.BackupCopy` | hack_claude4.py:25 | What `shutil.copy2` leaves behind. Only `<file>.backup` can change. A missing source or a failed open of the backup leaves everything as it was. Once the backup is opened (and truncated) it holds a prefix of the file, of the length the copy reached, and the whole file when the data copy completed, even if copying the metadata failed afterwards. |
| `Patcher.FileSystem.CreateBackup` | hack_claude4.py:22-27 | Copies the file's current content to `<file>.backup`, overwriting any earlier backup. It returns the backup path iff the file exists and the copy completes. On failure the backup path holds what the interrupted copy left (nothing new, a truncated prefix, or the full text when only the metadata copy failed), and nothing else changes. |
| `Patcher.FileSystem.ModifyWorkbenchFile` | hack_claude4.py:29-148 | The backup comes first unless skipped. A failed backup raises, and the only change is what the failed copy left at the backup path. A failed read returns False and writes nothing. Otherwise the file is written iff the flag is raised, the result is True iff that write succeeded, and the backup holds the content from before the run. |
| `Patcher.AfterBackup` | hack_claude.py:32-33 | The files after a backup that succeeded or was skipped: the backup step never changes the target file itself. |
| `Patcher.BackupAfterSecondRun` | hack_claude.py:22-40 | Two runs with backups: the second backup overwrites the first, so it holds the first run's output, not the original. |
| `HackClaude4.ModelRules` | hack_claude4.py:97-112 | `claude4_patterns`: five rules, all case-insensitive, whose templates refer only to groups their patterns have. |
| `HackClaude4.CursorRules` | hack_claude4.py:121-129 | `cursor_patterns`: four case-insensitive rules with valid templates. |
| `HackClaude4.Book` | hack_claude4.py:114-135 | The script's tables form a valid rule book. With the thinking-level rule, ten rule steps follow the token limit. |
| `HackClaude4.ModelRewrites` | hack_claude4.py:99-111 | Each model rule keeps its captured context and turns the matched flag to its enabling value: `"available":true` (keeping the object body in group 2), `"enabled":true`, `"requiresPro":false`, `"visible":true`, `"beta":false`. |
| `HackClaude4.CursorRewrites` | hack_claude4.py:123-128 | Each Cursor rule keeps group 1 and writes `"disabled":false`, `"hidden":false`, or `return true` for the subscription and isPro checks. |
| `HackClaude.ModelRules` | hack_claude.py:96-111 | `claude_patterns`: five case-insensitive rules with valid templates. |
| `HackClaude.CursorRules` | hack_claude.py:120-132 | `cursor_patterns`, including the rateLimit and usageLimit rules: six case-insensitive rules with valid templates. |
| `HackClaude.Book` | hack_claude.py:113-138 | The script's tables form a valid rule book. Twelve rule steps follow the token limit. |
| `HackClaude.SharedModelTemplates` | hack_claude.py:98-110 | The model rules of both scripts have the same group counts and the same templates (hack_claude4.py:99-111): only their patterns differ. |
| `HackClaude.ModelRewrites` | hack_claude.py:98-110 | Each model rule keeps its captured context and writes the enabling value of the flag it matched. It follows from `SharedModelTemplates` and `HackClaude4.ModelRewrites`. |
| `HackClaude.CursorRewrites` | hack_claude.py:122-131 | Each Cursor rule keeps group 1 and writes `"disabled":false`, `"hidden":false`, or `return true` for the subscription, isPro, rateLimit and usageLimit checks. |

## Left out

- `main` in both scripts is not modelled: argument parsing, the default
  Windows path, the existence check and the `input()` confirmation.
- All `print` output is not modelled. It carries no state.
- Python's `re` semantics for the primary token-limit, thinking-level and
  table patterns are not modelled: non-greedy backtracking, `re.IGNORECASE`,
  and leftmost non-overlapping scanning. These patterns are kept verbatim, and
  their matches come from the `Regex` parameter. Its contract states what
  the substitution relies on: in-bounds, ordered, non-overlapping matches
  whose groups lie where each pattern's frame puts them.
- `Fallback.MatchAt`: `\w` (for `\b`) and `\d` are modelled on their ASCII
  members only. Python also counts other Unicode letters and decimal digits,
  and `int()` accepts non-ASCII digits. `\s` is modelled with the full set
  that `str.isspace` accepts.
- File contents are modelled as decoded text. UTF-8 decoding, bytes, and the
  metadata `shutil.copy2` copies are not modelled. A read that fails for any
  reason, including a decoding error, is a fault the caller supplies.
- `Patcher.FileSystem.ModifyWorkbenchFile`: a failed write leaves the file
  unchanged in the model. In Python, `open(..., 'w')` may already have
  truncated the file before the write fails.
- `Patcher.FileSystem.CreateBackup`: the only copy failures modelled are a
  missing source and a fault the caller supplies. Permissions and disk space
  are not modelled separately. A copy cut short is modelled at a character
  boundary, while `shutil.copyfile` copies bytes and may stop inside a
  multi-byte character.
- Line endings are not modelled. Both the read and the write open the file
  in text mode (hack_claude4.py:36,139), so `\r\n` and `\r` are read as
  `\n`, and each `\n` is written back as the platform's line separator. On
  Windows, the default target, a file with `\n` line endings therefore comes
  back with `\r\n` ones, also outside the rewritten spans.
- A restore operation and atomic temp-file writes are not modelled: neither
  exists in the code.
- Idempotence of a second run is not stated, because the code does not have
  it: the unguarded token-limit and thinking-level rules raise the flag on
  every run that finds them.
