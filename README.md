# Section headers: a verified model

This project models the logic of a small editor extension. The extension inserts
"section header" comment lines and dashed rule lines, and it folds the lines under
each header. The repository holds two near-duplicate versions of it:
`vscode-section-headers/src/extension.ts` (the packaged version) and
`src/extension.ts` (the root version). Their shared logic is modelled once:

- `Templates`: the per-language template lookup
  `patterns[lang] || patterns['plaintext'] || literal`. This follows JavaScript `||`,
  so a missing entry and an empty string both fall through. It also covers the
  `?? {}` and `?? 80` configuration defaults.
- `Substitution`: `template.replace('${name}', name)`. Only the first occurrence is
  replaced. The replacement's `$$`, `$&`, `` $` `` and `$'` patterns are expanded as
  ECMAScript's `GetSubstitution` does for a string pattern.
- `Padding`: the match of `(-+)$`, its removal (`contentBeforeDashes`), and padding
  with `'-'.repeat(Math.max(0, W - base.length))`.
- `Format`: the header line (substitute, then pad) and the rule line (pad only).
- `Insertion`: the `editor.edit` callback. It loops over the selections with a
  `doneLines` set and inserts one line per distinct start line, in order. It is a
  method with a loop, proved against `Distinct`, a first-occurrence function.
- `Folding`: `provideFoldingRanges`. It is a method with the two push loops
  (`headerLines`, then `ranges`), proved against the functions `HeaderLines`,
  `RangesUpTo` and `FoldingRanges`. The lemmas characterise the result from the
  line matches alone.
- `Commands`: the rule command, which is the same in both versions.

Each version's header command and name choice get their own module:
`PackageExtension` for `vscode-section-headers/src/extension.ts` and
`RootExtension` for `src/extension.ts`.

Inputs that come from the host are parameters:
- the configuration values, as `Option`s (absent means `undefined`);
- the document's language id;
- the selections;
- the raw text of the primary selection;
- the value the name prompt returns (`None` when cancelled);
- `trim`, an abstract `string -> string`;
- for folding, the document's lines, the configured pattern, and an abstract
  compiler from a pattern to `Option<string -> bool>`. `None` stands for the
  exception `new RegExp` throws.

The commands return the list of `edit.insert` calls. They do not return an edited
document.

Two behaviours of the code worth noting:
- The template fallback uses `||`, so an empty entry falls through like a missing
  one.
- Only `src/extension.ts` aborts on a cancelled prompt. The packaged version's
  `?? defaultName` inserts a `Section` header instead, and it keeps the typed answer
  untrimmed, so that answer may be empty.

## Model

| member | source | states |
|---|---|---|
| `Templates.Resolve` | vscode-section-headers/src/extension.ts:13 | The template is the language's entry if present and non-empty, else the plaintext entry under the same condition, else the literal. It is non-empty when the literal is, and is always the literal or a value of the mapping. |
| `Templates.EmptyEntryFallsThrough` | src/extension.ts:71 | Adding an empty entry for a key leaves the resolved template unchanged: an empty string is falsy and falls through. |
| `Templates.UnconfiguredUsesLiterals` | vscode-section-headers/src/extension.ts:11-13 | With no configured mapping (absent or empty), headers use `# ${name} ----` and rules use `# ------------------------------`. |
| `Templates.ConfiguredMap` | vscode-section-headers/src/extension.ts:11 | An absent mapping setting reads as the empty mapping; a present one is used as it is. |
| `Templates.HeaderTemplate` | vscode-section-headers/src/extension.ts:11-13 | The header template is never empty, and a non-empty configured entry for the language is used as it is. |
| `Templates.RuleTemplate` | vscode-section-headers/src/extension.ts:65-67 | The rule template is never empty, and a non-empty configured entry for the language is used as it is. |
| `Templates.ConfiguredWidth` | vscode-section-headers/src/extension.ts:12 | The target line length is the setting when present, else 80. |
| `Wrappers.Option.GetOr` | vscode-section-headers/src/extension.ts:22 | `x ?? d` is the value when present, else `d`. |
| `Substitution.IndexOf` | vscode-section-headers/src/extension.ts:29 | The index found is an occurrence at or after the start with no earlier one there; none is found only when there is no occurrence. |
| `Substitution.ReplaceFirst` | vscode-section-headers/src/extension.ts:29 | A template without the placeholder is returned unchanged. Otherwise the text before the first occurrence and the text after it are kept as they are. |
| `Substitution.ExpandPatterns` | vscode-section-headers/src/extension.ts:29 | In the name passed to `replace`, `$$` gives `$`, `$&` the matched text, `` $` `` the text before the match and `$'` the text after it; a `$` before any other character or at the end stays, and every other character is copied. |
| `Substitution.ExpandLiteral` | vscode-section-headers/src/extension.ts:29 | A replacement without `$` is inserted literally. |
| `Substitution.ReplaceFirstLiteral` | src/extension.ts:37 | With a `$`-free name, the result is the text before the first placeholder, then the name, then everything after it, so later placeholders remain. |
| `Substitution.FirstOccurrenceExists` | src/extension.ts:37 | Every template containing the placeholder has a first occurrence of it. |
| `Padding.Dashes` | vscode-section-headers/src/extension.ts:44 | `'-'.repeat(n)` has length `n` and only dashes. |
| `Padding.TrailingDashCount` | vscode-section-headers/src/extension.ts:32 | The count is the length of a trailing all-dash suffix, and the rest does not end in `-`, so the run is maximal. |
| `Padding.TrailingDashesMatch` | vscode-section-headers/src/extension.ts:32-34 | `(-+)$` matches exactly when the string ends in `-`. The match is a non-empty dash run which is a suffix, and what precedes it does not end in `-`. |
| `Padding.ContentBeforeDashes` | vscode-section-headers/src/extension.ts:33-37 | The base does not end in `-`, and base plus the stripped all-dash run reconstructs the input. |
| `Padding.PadToWidth` | vscode-section-headers/src/extension.ts:39-44 | The line has length `max(W, length of base)`, starts with the base and continues only with dashes. |
| `Padding.StripUnique` | src/extension.ts:38-45 | For any split into a part not ending in `-` and a dash run, stripping returns exactly that part. |
| `Padding.PadIgnoresExistingRun` | src/extension.ts:46-48 | Padding `b + dashes` gives `b` followed by `max(0, W - length of b)` dashes, whatever the number of dashes that were there. |
| `Padding.PadIdempotent` | vscode-section-headers/src/extension.ts:70-78 | Stripping and padding a padded line again with the same `W` returns it unchanged. |
| `Format.ProcessedTemplate` | vscode-section-headers/src/extension.ts:29 | A template without `${name}` is left unchanged by the replacement. |
| `Format.HeaderLine` | vscode-section-headers/src/extension.ts:29-44 | The header line is the processed template with its trailing dashes stripped, then dashes up to the target length; its length is the larger of the two. |
| `Format.RuleLine` | vscode-section-headers/src/extension.ts:67-78 | The rule line is the template with its trailing dashes stripped, then dashes up to the target length; its length is the larger of the two. |
| `Format.HeaderLineShape` | src/extension.ts:37-48 | The header line is the stripped processed template followed by as many dashes as `W` exceeds the base length (none if it does not). The base does not end in `-` and reconstructs the processed template with the stripped run. |
| `Format.DashesUnique` | vscode-section-headers/src/extension.ts:44 | Any all-dash string is `'-'.repeat` of its length. |
| `Format.HeaderWithoutPlaceholder` | vscode-section-headers/src/extension.ts:29 | A template without `${name}` is padded as it stands, exactly like a rule. |
| `Format.HeaderLiteralName` | vscode-section-headers/src/extension.ts:29-44 | With a `$`-free name, the header is the padding of the template with only its first placeholder replaced. |
| `Format.RuleIdempotent` | src/extension.ts:74-81 | A rule line re-padded with the same width is unchanged. |
| `Format.RuleIgnoresExistingRun` | src/extension.ts:74-81 | The rule for `prefix + any dashes` is `prefix` followed by `max(0, W - length of prefix)` dashes. |
| `Format.DefaultHeader` | vscode-section-headers/src/extension.ts:13-44 | The default template gives `"# " + name + " "` followed by `max(0, W - (length of name + 3))` dashes, for a `$`-free name. |
| `Format.DefaultRule` | src/extension.ts:71-81 | The default rule is `"# "` followed by `max(0, W - 2)` dashes. |
| `Insertion.StartLines` | vscode-section-headers/src/extension.ts:48-49 | One start line per selection, in selection order. |
| `Insertion.InsertionsAt` | vscode-section-headers/src/extension.ts:52-53 | One insertion of the text at column 0 of each given line, in order. |
| `Insertion.InsertAtSelections` | vscode-section-headers/src/extension.ts:47-54 | The loop with `doneLines` inserts `line + '\n'` at column 0 of each distinct selection start line, in order of first appearance. |
| `Insertion.Distinct` | vscode-section-headers/src/extension.ts:47-54 | The distinct lines are no more than the selections and are all selection start lines. |
| `Insertion.DistinctElements` | vscode-section-headers/src/extension.ts:48-51 | A line is among the distinct lines exactly when some selection starts on it. |
| `Insertion.DistinctNoDuplicates` | vscode-section-headers/src/extension.ts:50-51 | No line appears twice among the distinct lines. |
| `Insertion.FirstIndex` | vscode-section-headers/src/extension.ts:48-50 | The first index of a line holds that line, and the line does not occur before it. |
| `Insertion.FirstIndexUnique` | vscode-section-headers/src/extension.ts:48-50 | An index whose line does not occur before it is the first index. |
| `Insertion.DistinctFirstAppearanceOrder` | vscode-section-headers/src/extension.ts:47-54 | The distinct lines are ordered by their first occurrence among the selections. |
| `Insertion.InsertionLines` | src/extension.ts:51-58 | Some insertion lands on line `l` exactly when some selection starts on `l`, and no two insertions share a position. |
| `Commands.InsertRule` | vscode-section-headers/src/extension.ts:59-89 | The rule command inserts the padded resolved rule template plus a line break above each distinct selected line. |
| `Folding.FoldingPattern` | vscode-section-headers/src/extension.ts:118 | The folding pattern is the setting when present, else the default header pattern. |
| `Folding.HeaderLines` | vscode-section-headers/src/extension.ts:121-124 | There are no more header indices than lines. |
| `Folding.HeaderLinesExact` | vscode-section-headers/src/extension.ts:121-124 | The header indices ascend strictly, all match, and every matching line is among them. |
| `Folding.ProvideFoldingRanges` | vscode-section-headers/src/extension.ts:117-135 | An invalid pattern fails. Otherwise the two loops return exactly `FoldingRanges` of the lines under the compiled pattern. |
| `Folding.RangesUpToMembers` | vscode-section-headers/src/extension.ts:128-134 | The pairing loop emits `(h[k], next header - 1 or last line)` for exactly the headers `k` whose end exceeds their start. |
| `Folding.RangesUpTo` | vscode-section-headers/src/extension.ts:127-134 | After `n` headers, at most `n` ranges are emitted, each a `Region` with start before end. |
| `Folding.FoldingRanges` | vscode-section-headers/src/extension.ts:121-135 | There are no more ranges than lines, and each is a `Region` with start before end. |
| `Folding.RangesUpToOrdered` | vscode-section-headers/src/extension.ts:128-134 | The ranges emitted so far are ordered and end before the next header. |
| `Folding.NextHeaderNoLater` | vscode-section-headers/src/extension.ts:128-130 | A matching line after the `k`-th header is at or after the `(k+1)`-th header. |
| `Folding.FoldingRangesExact` | vscode-section-headers/src/extension.ts:121-134 | A range is returned iff it starts on a matching line and ends after it, within the document, and at the line before the next match or at the last line. No line after the start inside it matches. |
| `Folding.RangeIsFold` | vscode-section-headers/src/extension.ts:127-135 | Every returned range is a fold in the sense above. |
| `Folding.FoldIsRange` | vscode-section-headers/src/extension.ts:127-135 | Every fold in the sense above is returned. |
| `Folding.PairedRangeIsFold` | src/extension.ts:126-131 | The range paired with a header that has a body starts on a match, contains no later match and ends before the next match or at the last line. |
| `Folding.FoldIsPairedRange` | src/extension.ts:126-131 | Every such fold is the range the loop pairs with the header it starts on. |
| `Folding.FoldingRangesOrdered` | src/extension.ts:126-133 | The ranges are strictly ordered by start and disjoint: each has `start < end` and ends before the next starts. |
| `Folding.NoHeadersNoFolds` | src/extension.ts:123 | With no matching line the result is empty. |
| `Folding.HeaderWithoutBodyNoFold` | vscode-section-headers/src/extension.ts:128-134 | A header directly followed by another header, or on the last line, starts no range. |
| `PackageExtension.ChooseName` | vscode-section-headers/src/extension.ts:15-22 | The name is the trimmed selection if non-empty, else the prompt's answer as typed, else `Section` when the prompt is cancelled. |
| `PackageExtension.InsertHeader` | vscode-section-headers/src/extension.ts:5-55 | The packaged header command always inserts the header line, built from the resolved template, the chosen name and the width, above each distinct selected line. |
| `RootExtension.ChooseName` | src/extension.ts:15-34 | The name is the trimmed selection if non-empty. Otherwise a cancelled prompt aborts; otherwise it is the trimmed answer if non-empty, else `Section`. A chosen name is never empty. |
| `RootExtension.InsertHeader` | src/extension.ts:5-59 | The root header command makes no edit exactly when the name choice aborts. Otherwise it inserts the header line above each distinct selected line. |
| `RootExtension.NameChoiceVariants` | src/extension.ts:20-34 | The two versions agree on a non-empty selection and on an already-trimmed non-empty answer. Only the root version aborts on cancel, and only it replaces an answer that trims to empty with `Section`. |

The helpers `Lookup`, `Or`, `Expand` and `FoldEnd` have no rows of their own. The
members above state their properties.

## Left out

- The VS Code API plumbing has no logic of its own and is left out: command and provider registration, `getConfiguration`, `showInputBox`, `editor.edit`, `context.subscriptions`, and the status bar item of the packaged version (vscode-section-headers/src/extension.ts:103-108).
- The early return when there is no active editor is left out. The model starts from an editor's state.
- The provider only registers for language `r`. That is a host concern.
- `async`/`await` is left out. The prompt's answer is an input value.
- The prompt's options (`prompt`, the prefilled `value`, `ignoreFocusOut`) are left out, because they only shape the dialog.
- Only the configured folding pattern goes through a regular-expression engine, and that engine is abstract: folding sees only whether a line matches and whether the pattern compiles. The error text of the thrown exception is not modelled. `template.replace` takes a string pattern, and the fixed `/(-+)$/` is modelled directly as the longest trailing run of dashes.
- `String.prototype.trim` is an abstract parameter; its exact whitespace set is not modelled.
- String lengths are sequence lengths, not UTF-16 code units.
- `document.getText(primarySel)` is an input: the raw text of the primary selection.
- A `targetLineLength` that is not an integer is not modelled, and neither are non-string values inside the configured records. The width is an `int`, and negative values go through `Math.max(0, …)`.
- The model produces the list of `edit.insert` calls. Applying them atomically to a document, and undo, are left to the host.
