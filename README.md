# Prompt Rescue Lab — page helpers

This project models the logic in the home page of an image-prompt "rescue"
tool (`app/page.tsx`). It covers what the page does with the analysis
result it gets from its prompt-analysis engine:

- **Risk bucketing.** The `riskDescriptors` table holds four inclusive score
  bands: "High Risk" 0–39, "At Risk" 40–69, "Needs Polish" 70–89 and
  "Launch Ready" 90–100. The page picks a row with `find`, falling back to
  "At Risk". The threshold function `gradientByScore` picks the card's colour
  gradient in parallel (`RiskBands`).
- **Severity tallies.** The risk card shows a "Critical" count and a
  "Warnings" count. "Warnings" merges `warning` and `major`. Info issues are in
  neither count (`SeverityTallies`).
- **Sorted copy of the issues.** `[...issues].sort((a, b) => a.start - b.start)`
  is modelled as a stable insertion sort on a value (`IssueOrder`).
- **Highlighted prompt.** `HighlightedPrompt` walks a cursor over the issues in
  `start` order. It emits a plain fragment for each non-empty gap, a mark for
  each issue and a plain fragment for the tail. React nodes are modelled as
  `Fragment` values carrying the text they display (`Highlight`).

The analysis engine (`analyzePrompt` from `lib/analyzer`) is not part of this
model. Its `Issue` and `AnalysisResult` records are inputs (`Analysis`). Only
the fields these helpers read are modelled: `id`, `start`, `end` and `severity`
of an issue, and `rawPrompt`, `riskScore` and `issues` of a result.

Main results:
- The descriptor bands tile 0..100 with boundaries 39|40, 69|70 and 89|90.
  So `find` never falls back on a score in that range, and it always falls
  back outside it.
- `gradientByScore` selects the same band as the descriptor lookup for every
  score 0..100.
- The counters equal the multiset counts of the corresponding severities.
- The sorted copy is sorted, is a permutation of the input, and is stable.
- If every issue satisfies `0 <= start < end <= |prompt|` and no two issues
  overlap, the highlighted fragments concatenate back to the prompt. A concrete
  case shows that overlapping issues repeat text.

The prompt and every fragment's text are sequences of UTF-16 code units
(`Analysis.Utf16`), because JavaScript string lengths, `slice` offsets and the
issues' `start`/`end` count code units: a character outside the Basic
Multilingual Plane occupies two positions. Issue ids stay Dafny strings; the
helpers only copy them.

The risk descriptor's `label` field is called `title` here, because `label` is
a reserved word in Dafny.

## Model

| member | source | states |
|---|---|---|
| `RiskBands.FindFrom` | app/page.tsx:83 | `find` from an index: the result is the first row at or after it whose band holds the score, or None when no such row exists |
| `RiskBands.Find` | app/page.tsx:83 | `riskDescriptors.find(...)`: the first matching row, or None exactly when no row's band holds the score |
| `RiskBands.TilesDisjoint` | app/page.tsx:42-47 | in a table of consecutive, gap-free bands, no score lies in two rows |
| `RiskBands.TilesCover` | app/page.tsx:42-47 | in such a table, every score from the first row's min to the last row's max lies in some row |
| `RiskBands.FindOnTiles` | app/page.tsx:83 | on such a table, `find` succeeds if and only if the score lies in [lo, hi], and the row it returns is the only row holding the score |
| `RiskBands.RiskDescriptorsTile` | app/page.tsx:42-47 | the page's four descriptors tile 0..100 with boundaries 39/40, 69/70 and 89/90 |
| `RiskBands.ScoreDescriptor` | app/page.tsx:82-85 | `find(...) ?? riskDescriptors[1]`: for a score in 0..100 the row is a table row whose band holds the score; outside 0..100 it is the "At Risk" fallback |
| `RiskBands.Descriptor` | app/page.tsx:80-86 | without an analysis the descriptor is `riskDescriptors[1]`; with one, it is the unique row whose band holds a score in 0..100, and the fallback for any other score |
| `RiskBands.DescriptorBoundaries` | app/page.tsx:42-47 | the labels at 0, 39, 40, 69, 70, 89, 90 and 100 are High Risk, High Risk, At Risk, At Risk, Needs Polish, Needs Polish, Launch Ready and Launch Ready |
| `RiskBands.GradientByScore` | app/page.tsx:49-60 | the gradient is one of the four band gradients |
| `RiskBands.GradientAgreesWithDescriptor` | app/page.tsx:49-60 | for every score 0..100, `gradientByScore` picks the gradient of the row that the descriptor lookup finds |
| `RiskBands.GradientOutsideBands` | app/page.tsx:49-60 | below 0 or above 100, `find` fails and the label falls back to "At Risk", but the gradient is the danger or the emerald one, not the At Risk one |
| `SeverityTallies.Filter` | app/page.tsx:325 | `filter` returns no more issues than it is given, and every issue it returns satisfies the predicate |
| `SeverityTallies.FilterCounts` | app/page.tsx:325 | `filter` keeps each satisfying issue as many times as it occurs in the input and drops every other issue |
| `SeverityTallies.FilterAppend` | app/page.tsx:325 | filtering a list with one issue appended gives the filtered list, followed by that issue if it satisfies the predicate |
| `SeverityTallies.CriticalFilterCount` | app/page.tsx:325 | filtering on severity `critical` keeps exactly as many issues as there are critical issues |
| `SeverityTallies.WarningsFilterCount` | app/page.tsx:331-333 | filtering on severity `warning` or `major` keeps exactly as many issues as there are warning issues plus major issues |
| `SeverityTallies.CriticalCount` | app/page.tsx:325 | the "Critical" count equals the number of critical issues, and so is at most the number of issues |
| `SeverityTallies.WarningsCount` | app/page.tsx:331-333 | the "Warnings" count equals the number of warning issues plus the number of major issues, and so is at most the number of issues |
| `SeverityTallies.SeveritiesPartition` | app/page.tsx:325-333 | the critical, major, warning and info issues add up to all issues |
| `SeverityTallies.TalliesBounded` | app/page.tsx:325-333 | Critical + Warnings + the info issues add up to all issues, so the two counters sum to at most the number of issues |
| `SeverityTallies.TalliesAfterAppend` | app/page.tsx:325-333 | adding an info issue changes neither counter; a critical issue raises only "Critical"; a warning or major issue raises only "Warnings" |
| `IssueOrder.Insert` | app/page.tsx:385 | insertion gives the multiset of the list plus the new issue |
| `IssueOrder.InsertKeepsSorted` | app/page.tsx:385 | inserting into a list sorted by `start` keeps it sorted |
| `IssueOrder.SortByStart` | app/page.tsx:385 | the copy is sorted by ascending `start` and is a permutation of the input |
| `IssueOrder.SortIsStable` | app/page.tsx:385 | for every start value, the issues starting there appear in the same order in the copy as in the input (stable sort) |
| `IssueOrder.SortKeepsOffsets` | app/page.tsx:385 | if every offset of the input lies in [0, n], every offset of the sorted copy does too |
| `IssueOrder.SortKeepsSpans` | app/page.tsx:385 | if every input issue satisfies 0 <= start < end <= n, every issue of the sorted copy does too |
| `IssueOrder.SortKeepsNonOverlapping` | app/page.tsx:385 | if no two input issues overlap, no two issues of the sorted copy overlap |
| `Highlight.Slice` | app/page.tsx:408 | `prompt.slice(a, b)` on in-range offsets has length b - a when a < b and 0 otherwise, and its k-th code unit is the prompt's (a + k)-th |
| `Highlight.MarkOf` | app/page.tsx:397-410 | an issue's mark carries the issue's id and severity; its text is by definition `Slice` of the issue's `[start, end)`, whose contract fixes its length and code units |
| `Highlight.Emit` | app/page.tsx:390-410 | definition of one loop step: a plain gap when the issue starts after the cursor, then the issue's mark; its text is pinned down by `EmitText` and its marks by `EmitMarks` |
| `Highlight.Tail` | app/page.tsx:414-420 | definition of the tail push: the rest of the prompt as one plain fragment, if any is left; pinned down by `TailText` and `TailMarks` |
| `Highlight.Sweep` | app/page.tsx:389-420 | the sweep from issue i emits at least one and at most two fragments per remaining issue, plus at most one tail; its text is pinned down by `SweepReassembles`, its marks by `SweepMarks` |
| `Highlight.HighlightFragments` | app/page.tsx:381-423 | there is always at least one fragment, at least one per issue and at most two per issue plus one; the content is pinned down by `HighlightReassembles`, `HighlightMarks` and `HighlightPlainsNonEmpty` |
| `Highlight.SortedSpansChain` | app/page.tsx:389-411 | in a sorted list of non-empty, non-overlapping spans, each issue starts at or after the previous one's end, so the cursor never passes the next issue |
| `Highlight.SweepReassembles` | app/page.tsx:387-420 | over chained issues, the gaps, marks and tail emitted from the cursor spell out `prompt[cursor..]` |
| `Highlight.HighlightReassembles` | app/page.tsx:381-420 | if all issues satisfy 0 <= start < end <= the prompt length and no two overlap, in any input order, the fragments concatenate to the prompt exactly |
| `Highlight.EmitText` | app/page.tsx:390-410 | when the cursor is at or before the issue's start, one step's gap and mark display exactly `prompt[cursor..end)` |
| `Highlight.TailText` | app/page.tsx:414-420 | the tail displays exactly `prompt[cursor..]`, and nothing is emitted when the cursor is at the end |
| `Highlight.EmitMarks` | app/page.tsx:390-410 | one step emits exactly one mark, the issue's own, and the gap is plain |
| `Highlight.TailMarks` | app/page.tsx:414-420 | the tail holds no mark |
| `Highlight.MarksOfAt` | app/page.tsx:397-410 | the list of marks of issues i onwards has one entry per issue, and its k-th entry is the mark of issue i + k |
| `Highlight.SweepMarks` | app/page.tsx:389-420 | the highlights the sweep emits from issue i on are exactly the marks of issues i onwards, in order |
| `Highlight.HighlightMarks` | app/page.tsx:385-411 | whatever the input order, there are exactly as many marks as issues, and they follow the sorted copy, which is sorted and is a permutation of the input |
| `Highlight.SweepPlainsNonEmpty` | app/page.tsx:389-420 | plain fragments are emitted only when non-empty: a gap only if `start > cursor`, the tail only if the cursor is short of the prompt length |
| `Highlight.HighlightPlainsNonEmpty` | app/page.tsx:385-420 | with at least one issue, no plain fragment of the highlighted prompt is empty |
| `Highlight.SortPair` | app/page.tsx:385 | two issues already in `start` order are left in place by the sort |
| `Highlight.SweepOverlappingPair` | app/page.tsx:389-412 | for a sweep whose cursor starts at x.start, with x.start < y.start < x.end < y.end == the prompt length (the first issue ends inside the second, which reaches the end), the sweep emits exactly the two marks: no gap between them and no tail |
| `Highlight.OverlapRepeatsText` | app/page.tsx:389-412 | overlapping issues (0,3) and (1,4) over the code units of "abcd" display those of "abcbcd", so the text shared by the two issues appears twice |
| `Highlight.SweepFragments` | app/page.tsx:386-420 | the cursor loop plus the tail push produce exactly the sweep's fragments for the issues in the order given; the loop invariant ties the fragments pushed so far to what remains of the sweep |
| `Highlight.HighlightedPrompt` | app/page.tsx:381-423 | with no issues, exactly one plain fragment with the whole prompt (even an empty one); otherwise the sweep over the sorted copy; for in-range, non-overlapping issues, the fragments concatenate to the prompt |

## Left out

- The analysis engine `analyzePrompt` (imported at app/page.tsx:4). `lib/analyzer` is not part of this model, so issues and scores are inputs. The engine's own promises (issues sorted, non-overlapping and inside the prompt; score 0..100) appear only as the preconditions of the lemmas that need them.
- The debounce effect and its 80/320 ms timers (app/page.tsx:68-78), including the reset of the analysis to null for a blank prompt: these are timers and scheduling.
- The clipboard copy and the "copied" timeout (app/page.tsx:93-97): browser I/O.
- All JSX, React state and memo plumbing, `severityStyles`, icons and class strings (app/page.tsx:19-40 and the render bodies). A mark keeps only its issue's id and severity. React keys and CSS classes are not modelled.
- JavaScript `slice` clamping of negative or too-large offsets: the sweep requires every offset to lie in [0, |prompt|]. Within that range, `slice(a, b)` with `a >= b` is modelled (it gives the empty string).
- Scores are modelled as integers. A JavaScript `number` can also be fractional or NaN. For example, 39.5 would match no band (fallback "At Risk") while `gradientByScore` gives danger. The engine produces integer scores, so such inputs are not modelled.
- `IssueOrder.SortByStart`: the copy `[...issues]` and the built-in in-place `sort` are modelled on sequence values. The caller's list cannot change because sequences are values. Aliasing and the built-in's own algorithm are not modelled; only its result is: sorted, a permutation, and stable, as JavaScript's sort is.
- `Highlight.HighlightedPrompt`: the source's single function is modelled in two parts. `HighlightedPrompt` handles the empty case, sorts with the function `IssueOrder.SortByStart` and calls the method `SweepFragments`, which holds the cursor loop and is proved equal to the specification function `Sweep`. Together they compute what the one source function computes.
- Issue fields that the helpers display but do not compute with (`category`, `label`, `description`, `recommendation`, `replacement`, `match`), and the result fields `cleanedPrompt`, `metaSignals` and `rationale`, which the page only renders.
- tailwind.config.ts, app/layout.tsx and components/theme-provider.tsx: styling configuration, font and metadata setup, and a mount-flag animation wrapper; no logic.
