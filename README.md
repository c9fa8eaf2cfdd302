# function-paren-newline, modelled in Dafny

This project models the layout rule of ESLint's `function-paren-newline`. The rule looks at the
parenthesised parameter or argument list of a function, call, `new` expression or dynamic `import()`.
It checks whether a line break follows the `(` and whether one precedes the `)`. Under one mode it also
checks for a line break between adjacent items. For each violation it reports a message and, where it
can, the text edit that fixes it.

The model works on one list at a time, already located by the host. The list is the text from `(` to
`)`: a gap after `(`, the first item, a separator and an item for each further item, and a gap before
`)`. A separator is all the text between one item's own text and the next item's: the comma with any
white space and comments, and any parentheses that wrap an item. An empty list has a single gap. Gaps hold only white space and comments. A trailing comma belongs
to the last item's text.

- `Modes` holds the option: `"multiline"` (the default), `"multiline-arguments"`, `"always"`, `"never"`,
  `"consistent"`, or `{ minItems: n }`.
- `Lists` holds the list, its text (`Render`), and its layout (`Classify`). The layout records whether
  `(` is followed by a line break, whether `)` is preceded by one, how many items there are, and which
  adjacent pairs of items lie on different lines.
- `Rule` decides which breaks the mode requires (`NeedsBreaks`). It gives the message ids on a layout
  (`Decide`) and the reports with their offsets and edits on the list's text (`Diagnose`).
- `RuleProperties` proves what each mode promises. It also proves that a list draws no report exactly
  when it satisfies a layout-level statement of the mode (`Satisfies`).
- `Text` models the host's one fixing pass (`ApplyFixes`). Edits are applied in order, and an edit that
  starts at or before the end of the last applied edit is skipped.
- `Fixing` states where each edit goes and what list one pass produces (`Repaired`). It proves that
  applying the offered edits to the list's text gives exactly the repaired list's text. It also proves
  that re-running the rule on the repaired list reports only what had no edit.
- `Examples` restates cases of the rule's test table as lemmas. The indentation of the tests is a
  parameter: any line break followed by spaces.

"Multi-line", under `"multiline"` and under `"multiline-arguments"` with other than one item, means that
some adjacent pair of items lies on different lines. It does not mean that the list spans several lines.
A single item whose own text spans lines (`foo =⏎1`, a template literal) does not call for breaks. The
test table pins this down at lines 79-82 and 692-704 of `tests/lib/rules/function-paren-newline.js`.

## Model

| member | source | states |
|---|---|---|
| Modes.Resolve | tests/lib/rules/function-paren-newline.js:38-619 | no option selects `"multiline"`; an option selects nothing exactly when it is a name other than the five mode names; a selected mode's own option is the option given |
| Modes.DefaultIsMultiline | tests/lib/rules/function-paren-newline.js:96-99 | writing no option and writing `"multiline"` select the same mode |
| Modes.ResolveSettingOf | tests/lib/rules/function-paren-newline.js:38-619 | every mode, including `{ minItems: n }` for each `n`, is selected by its own option |
| Modes.ResolveOnlyKnown | tests/lib/rules/function-paren-newline.js:38-619 | an option selects a mode only when it is exactly that mode's option; other names select nothing |
| Lists.Classify | tests/lib/rules/function-paren-newline.js:624-691 | the boundary flags are whether the gaps at `(` and `)` hold a line break; the count is the number of items; there is one split flag per separator, set exactly when that separator holds a line break |
| Lists.ClassifySplits | tests/lib/rules/function-paren-newline.js:624-691 | the layout marks a pair as split exactly when the list has an adjacent pair on different lines |
| Lists.RenderShape | tests/lib/rules/function-paren-newline.js:624-691 | the list's text opens with `(`, closes with `)`, and each gap, the first item and the tail lie at the offsets the model uses |
| Lists.ItemsInText | tests/lib/rules/function-paren-newline.js:917-960 | item `j` lies in the list's text at `ItemStart(l, j)`, before the gap at `)`, right after the separator that precedes it |
| Rule.Decide | tests/lib/rules/function-paren-newline.js:949-960 | at most one message per boundary plus one per pair; a `(` verdict can only come first and a `)` verdict only last; `expectedBetween` only under `"multiline-arguments"` with breaks required; an empty decision means both boundaries agree with the requirement |
| Rule.DiagnoseFollowsDecision | tests/lib/rules/function-paren-newline.js:624-741 | `Diagnose`, the rule's reports on a list's text, carries exactly the message ids decided from its layout, in the same order |
| Rule.DiagnosticsInSourceOrder | tests/lib/rules/function-paren-newline.js:949-960 | reports come in source order: the `(` side, then pairs left to right, then the `)` side, all inside the list |
| Rule.BetweenInOrder | tests/lib/rules/function-paren-newline.js:917-960 | between-items reports come in strictly increasing source order, from the first item up to the end of the last item |
| Rule.BetweenAtPairs | tests/lib/rules/function-paren-newline.js:917-960 | the between-items reports are exactly one per adjacent pair whose separator holds no line break: at the pair's first item, with an insertion of `\n` where its second item starts |
| RuleProperties.BoundaryVerdicts | tests/lib/rules/function-paren-newline.js:624-691 | each side gets `expected…` iff a break is required and absent, `unexpected…` iff present and not required, and at most one message |
| RuleProperties.MissingBetweenCounts | tests/lib/rules/function-paren-newline.js:917-960 | the between-items run holds only `expectedBetween`, once per pair on one line, and is empty iff every pair is split |
| RuleProperties.BetweenOnlyUnderMultilineArguments | tests/lib/rules/function-paren-newline.js:917-983 | `expectedBetween` appears only under `"multiline-arguments"` with breaks required, once per pair on one line |
| RuleProperties.MultilineNeedsSplitPair | tests/lib/rules/function-paren-newline.js:624-691 | `"multiline"` requires both breaks iff some adjacent pair of items lies on different lines |
| RuleProperties.RequirementOnList | tests/lib/rules/function-paren-newline.js:38-596 | mode by mode, when breaks are required, stated on the list's own text: under `"multiline"`, and `"multiline-arguments"` with other than one item, iff some adjacent pair of items lies on different lines; under `"consistent"`, and `"multiline-arguments"` with one item, iff the gap after `(` holds a line break; under `{ minItems: n }` iff there are at least `n` items; always under `"always"`, never under `"never"` |
| RuleProperties.LoneItemNeedsNoBreaks | tests/lib/rules/function-paren-newline.js:692-704 | a lone item never requires breaks under `"multiline"`, and each break at a parenthesis around it is unexpected |
| RuleProperties.AlwaysAndNever | tests/lib/rules/function-paren-newline.js:1164-1176 | `"always"` reports each missing break and `"never"` each present one, whatever lies between the items |
| RuleProperties.EmptyListUnderAlways | tests/lib/rules/function-paren-newline.js:1110-1115 | an empty list is accepted by `"always"` iff its gap holds a line break; otherwise both sides report a missing break |
| RuleProperties.AlwaysAndNeverAsMinItems | tests/lib/rules/function-paren-newline.js:464-519 | `"always"` decides as `{ minItems: 0 }`, and `"never"` as any minimum above the item count |
| RuleProperties.MinItemsCountsOnly | tests/lib/rules/function-paren-newline.js:1320-1412 | `{ minItems: n }` requires breaks iff there are at least `n` items, whatever the layout; a shorter list decides as `"never"` |
| RuleProperties.ConsistentFollowsOpen | tests/lib/rules/function-paren-newline.js:1414-1484 | `"consistent"` never reports the `(` side; the `)` side must have a break exactly when `(` has one |
| RuleProperties.MultilineArgumentsOneItem | tests/lib/rules/function-paren-newline.js:1024-1037 | with exactly one item, `"multiline-arguments"` decides as `"consistent"` and never reports the `(` side |
| RuleProperties.MultilineArgumentsSeveralItems | tests/lib/rules/function-paren-newline.js:917-983 | with other than one item, `"multiline-arguments"` has the requirement of `"multiline"`; when breaks are required, pairs on one line are reported between the `(` and `)` verdicts |
| RuleProperties.AcceptedIffSatisfies | tests/lib/rules/function-paren-newline.js:38-596 | a list draws no report exactly when it satisfies a mode-by-mode statement of the layout that mode accepts |
| RuleProperties.DecidesNothingIffSatisfies | tests/lib/rules/function-paren-newline.js:38-596 | the decision on a list's layout is empty exactly when the list satisfies the mode |
| Fixing.FixWithheldOnlyForComment | tests/lib/rules/function-paren-newline.js:726-741 | a report carries no edit exactly when it would remove a gap at a parenthesis that holds a comment; insertions are always offered |
| Fixing.BetweenAllFixed | tests/lib/rules/function-paren-newline.js:917-960 | every `expectedBetween` offers its edit |
| Fixing.FixShape | tests/lib/rules/function-paren-newline.js:630-680 | each offered edit inserts `\n` right after `(` or right before `)`, removes exactly a comment-free gap at a parenthesis that holds a break, or, for a pair of items on one line, inserts `\n` right where the pair's second item starts, after the whole separator |
| Fixing.FixesSpareItems | tests/lib/rules/function-paren-newline.js:1164-1176 | outside `"multiline-arguments"` no edit touches the items or the separators between them |
| Fixing.BetweenReportsPlaced | tests/lib/rules/function-paren-newline.js:917-960 | each `expectedBetween` offers an edit and is reported at the start of item `j`, whose separator to item `j + 1` holds no break; the edit inserts `\n` right where item `j + 1` starts, after the whole separator; under `"multiline-arguments"` with breaks required every such pair has such a report |
| Fixing.Repaired | tests/lib/rules/function-paren-newline.js:1080-1115 | one fixing pass keeps every item: the same count, the same first item and the same text for each further item; a well-formed list stays well formed |
| Fixing.BreakSepsSplitsAll | tests/lib/rules/function-paren-newline.js:949-960 | breaking the separators keeps every item and leaves every adjacent pair on different lines |
| Fixing.RepairKeepsRequirement | tests/lib/rules/function-paren-newline.js:1080-1115 | one fixing pass never changes whether the mode requires breaks |
| Fixing.OpenAfterRepair | tests/lib/rules/function-paren-newline.js:726-733 | after the fix, the `(` side reports only the message whose edit was withheld |
| Fixing.CloseAfterRepair | tests/lib/rules/function-paren-newline.js:734-741 | after the fix, the `)` side reports only the message whose edit was withheld |
| Fixing.EmptyAfterRepair | tests/lib/rules/function-paren-newline.js:705-714 | after the fix, the gap of an empty list draws only the messages whose edits were withheld |
| Fixing.RepairLeavesOnlyUnfixed | tests/lib/rules/function-paren-newline.js:896-916 | re-running the rule on the fixed list reports exactly the messages that offered no edit, in order |
| Fixing.RepairIsAccepted | tests/lib/rules/function-paren-newline.js:1110-1115 | when every report offers an edit, the fixed list is accepted by the same mode |
| Fixing.OnePassRepairs | tests/lib/rules/function-paren-newline.js:1080-1109 | one fixing pass over the list's text, applying the edits in order, yields exactly the repaired list's text |
| Fixing.EmptyOnePass | tests/lib/rules/function-paren-newline.js:1110-1115 | in an empty list the two edits land in one gap; one pass removes the gap once, or inserts one break when the gap is empty and two otherwise |
| Text.ApplyFixes | tests/lib/rules/function-paren-newline.js:1080-1115 | with no edits the text is unchanged; edits in order, inside the text and not touching each other are all applied, as `Rewrite` applies them |
| Text.HasBreakMeans | tests/lib/rules/function-paren-newline.js:624-636 | a gap holds a line break iff one of its characters is a line terminator |
| Text.HoldsCommentMeans | tests/lib/rules/function-paren-newline.js:726-741 | a gap holds a comment iff one of its characters is not blank |
| Examples.MultilineAcceptsValidLists | tests/lib/rules/function-paren-newline.js:41-54 | `function baz(foo, bar) {}`, and a list with every item on its own line, draw no report under the default mode |
| Examples.MultilineAcceptsLoneMultiLineItem | tests/lib/rules/function-paren-newline.js:79-82 | a lone template literal spanning two lines draws no report |
| Examples.MultilineMissingAfter | tests/lib/rules/function-paren-newline.js:624-636 | reports `expectedAfter`, and the fix inserts `\n` after `(` |
| Examples.MultilineMissingBefore | tests/lib/rules/function-paren-newline.js:637-649 | reports `expectedBefore`, and the fix inserts `\n` before `)` |
| Examples.MultilineUnexpectedAfter | tests/lib/rules/function-paren-newline.js:661-670 | reports `unexpectedAfter`, and the fix removes the gap after `(` |
| Examples.MultilineLoneItemSpanningLines | tests/lib/rules/function-paren-newline.js:692-704 | `foo =⏎1` alone draws both `unexpected…` messages, and the fix removes both gaps |
| Examples.MultilineEmptyWithBreak | tests/lib/rules/function-paren-newline.js:705-714 | `function baz(⏎) {}` draws both `unexpected…` messages, and one pass gives `()` |
| Examples.MultilineCommentAfterOpen | tests/lib/rules/function-paren-newline.js:726-733 | reports `unexpectedAfter` and offers no edit |
| Examples.MultilineCommentBeforeClose | tests/lib/rules/function-paren-newline.js:734-741 | reports `unexpectedBefore` and offers no edit |
| Examples.MultilineArgumentsCommentAfterOpen | tests/lib/rules/function-paren-newline.js:896-907 | under `"multiline-arguments"` the same list reports `expectedBefore`, fixed by inserting `\n` before `)` |
| Examples.MultilineArgumentsMissingBetween | tests/lib/rules/function-paren-newline.js:917-932 | reports one `expectedBetween`; the fix gives `foo, ⏎bar` |
| Examples.MultilineArgumentsAllMissing | tests/lib/rules/function-paren-newline.js:949-960 | reports `expectedAfter`, `expectedBetween`, `expectedBefore` in that order, and one pass applies all three edits |
| Examples.MultilineArgumentsOneItemMissingBefore | tests/lib/rules/function-paren-newline.js:961-972 | one item after a break: reports `expectedBefore`, fixed before `)` |
| Examples.MultilineArgumentsOneItemUnexpectedBefore | tests/lib/rules/function-paren-newline.js:973-983 | one item, no break after `(`: reports `unexpectedBefore`, and the fix removes the gap |
| Examples.AlwaysMissingBoth | tests/lib/rules/function-paren-newline.js:1080-1085 | reports `expectedAfter` and `expectedBefore`, fixed to `(⏎foo, bar⏎)` |
| Examples.AlwaysEmptyList | tests/lib/rules/function-paren-newline.js:1110-1115 | `function baz() {}` reports both, and one pass inserts a single break |
| Examples.AlwaysAcceptsEmptyWithBreak | tests/lib/rules/function-paren-newline.js:386-392 | the fixed `(⏎)`, and the valid `function baz(⏎) {}`, are accepted by `"always"` |
| Examples.NeverUnexpectedBefore | tests/lib/rules/function-paren-newline.js:1164-1176 | reports only `unexpectedBefore`; the break between the items stays |
| Examples.MinItemsReached | tests/lib/rules/function-paren-newline.js:1321-1326 | three items with `{ minItems: 3 }` report both missing breaks, fixed at both parentheses |
| Examples.ConsistentMissingBefore | tests/lib/rules/function-paren-newline.js:1415-1428 | a break after `(` and none before `)` reports `expectedBefore` |
| Examples.ConsistentUnexpectedBefore | tests/lib/rules/function-paren-newline.js:1429-1441 | no break after `(` and one before `)` reports `unexpectedBefore`, and the fix removes it |

## Left out

- `lib/rules/no-ex-assign.js`: a different rule that only forwards scope-analysis results to the report
  call. It has no layout logic.
- Locating the parentheses and items from the syntax tree. This covers function declarations and
  expressions, async and arrow functions, calls, `new` and `import()`. It needs the parser and token
  store, so a list arrives already located. Constructs without parentheses (`foo => {}`, `new Foo`)
  draw nothing and are not modelled.
- The test harness, indentation helpers, language options and the TypeScript fixture parser cases
  (tests/lib/rules/function-paren-newline.js:598-619 and 1486-1516).
- Message texts, the `type` field of reports, and validation of the configuration schema. `Resolve`
  returns no mode for an unknown name instead of rejecting the configuration.
- The host's general merging of fixes across rules and passes. Only the one-pass rule is modelled: an
  edit that starts at or before the end of the last applied edit is skipped. Later passes are not
  modelled.
- Edits whose range lies outside the text: `ApplyFixes` skips them, and the rule never produces one.
- Real source offsets: report positions are offsets within the list's own text, not line and column.
