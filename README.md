# Markdown word count: a Dafny model

This project models the core of a small editor extension that shows a live
word count for the active markdown document in a status-bar item. The code
lives in one file, `extension.ts`. The model covers four things:

- `countWords`, the text routine that does the counting. It first deletes
  fragments matching the pattern `(< ([^>]+)<)`. It then collapses whitespace
  runs, trims both ends, and counts the pieces between spaces.
- `_getWordCountForDoc` and `_getWordCountForSelections`. The second maps
  each selection to its count and adds the counts with a seedless `reduce`.
- The two status labels, `$(pencil) n Word(s)` and `$(pencil) s of d Word(s)`.
- The state of the status item and the controller that forwards editor
  events. The state is whether the item was created, whether it is visible,
  and its text.

Modules, one file each:

- `Wrappers` (`wrappers.dfy`): `Option`.
- `TextSteps` (`text_steps.dfy`): JavaScript's `\s` as `IsWs`, the collapse
  step, the two trims and `split`. It also defines `Words`, the maximal
  whitespace-free runs of a text. `Words` is the reference the counter is
  proved against.
- `TagStrip` (`tag_strip.dfy`): the global, greedy tag-fragment replacement,
  written out for this one pattern.
- `Numerals` (`numerals.dfy`): the decimal numeral a template literal prints
  for a count.
- `Labels` (`labels.dfy`): the two label forms.
- `Counting` (`word_count.dfy`): the word count of a text and the sum over
  selections.
- `Extension` (`extension.dfy`): the classes `WordCounter` and
  `WordCounterController`.

The main result is `TextSteps.NormalizedIsJoinedWords`. After the collapse
and both trims, a text is exactly its words joined by single spaces. So
`split(" ")` yields one piece per word, and `WordCounter.CountWords` is proved
to return the number of words in the tag-stripped text.

Behaviour of the code that may surprise a reader, and which the model keeps:

- The strip pattern needs a literal space after `<` and ends at a `<`. It
  does not remove ordinary tags such as `<b>`.
- Both labels start with the `$(pencil) ` icon prefix.
- An empty selection list never reaches the seedless `reduce`. The update
  sends an empty list to the whole-document branch (line 47), and so does
  the selection handler, because `every` holds for an empty list. The model
  therefore requires a non-empty list rather than defining a count of 0 for it.
- The item does not exist before the first update. It is created on demand
  (lines 30-32).

## Model

| member | source | states |
|---|---|---|
| `TextSteps.IsWs` | extension.ts:85-86 | the range test used for `\s` accepts exactly the ECMAScript white-space and line-terminator code points, listed one by one |
| `TextSteps.DropWs` | extension.ts:86 | the `^\s\s*` trim never lengthens the text and leaves it empty or starting with a non-whitespace character |
| `TextSteps.WsLen` | extension.ts:86 | the leading whitespace run removed by the `^\s\s*` trim is all whitespace and maximal |
| `TextSteps.TrimEnd` | extension.ts:86 | the `\s\s*$` trim leaves a prefix, drops only whitespace, and leaves no trailing whitespace |
| `TextSteps.CollapseWs` | extension.ts:85 | collapsing `\s+` runs to one space never lengthens the text, keeps it non-empty, and keeps a leading non-space character |
| `TextSteps.Split` | extension.ts:90 | `split(" ")` yields at least one piece and no piece contains the separator |
| `TextSteps.JoinSplit` | extension.ts:90 | joining the pieces of `split` with the separator gives back the text |
| `TextSteps.SplitJoin` | extension.ts:90 | splitting pieces that contain no separator, after joining them, gives back the pieces |
| `TextSteps.NormalizedIsJoinedWords` | extension.ts:85-86 | after the collapse and both trims, the text is its words joined by single spaces: no leading, trailing or doubled space |
| `TextSteps.SplitCountsWords` | extension.ts:85-91 | the normalised text is empty exactly when there are no words, and otherwise `split(" ")` gives one piece per word |
| `TextSteps.WordsBlank` | extension.ts:88-91 | a text has no words exactly when it is empty or all whitespace |
| `TextSteps.WordsLeadingWs` | extension.ts:86 | leading whitespace does not change the words |
| `TextSteps.WordsTrailingWs` | extension.ts:86 | trailing whitespace does not change the words |
| `TextSteps.CollapseIdempotent` | extension.ts:85 | collapsing whitespace runs a second time changes nothing |
| `TextSteps.WordsOfCollapsed` | extension.ts:85 | replacing every whitespace run by one space does not change the words |
| `TextSteps.WordsBound` | extension.ts:88-91 | a text of length L has at most (L + 1) / 2 words |
| `TextSteps.CollapseKeepsOut` | extension.ts:85 | the collapse step adds no character other than a space |
| `TagStrip.TagMatch` | extension.ts:85 | the match at the head of a text is the longest `<`, space, non-`>` characters, `<`; there is none exactly when no such prefix exists |
| `TagStrip.StripTags` | extension.ts:85 | deleting the matches never lengthens the text |
| `TagStrip.StripTagsWithoutOpener` | extension.ts:85 | a text with no `< ` pair passes through the strip unchanged |
| `TagStrip.StripTagsWithoutLt` | extension.ts:85 | a text with no `<` passes through the strip unchanged |
| `TagStrip.TagMatchAppend` | extension.ts:85 | appending text without `<` does not change the match at the head |
| `TagStrip.StripTagsPrefix` | extension.ts:85 | a prefix without `<` is kept as it is, and the rest is stripped as before |
| `TagStrip.StripTagsSuffix` | extension.ts:85 | a suffix without `<` is kept as it is, and the text before it is stripped as before |
| `Counting.WordCount` | extension.ts:83-94 | the count is 0 exactly when the tag-stripped text is empty or all whitespace, and a text of length L has at most (L + 1) / 2 words |
| `Counting.CountIgnoresOuterWs` | extension.ts:85-86 | whitespace before and after a text does not change its count |
| `Counting.CountIgnoresWsRuns` | extension.ts:85 | after the tag strip, collapsing whitespace runs does not change the count |
| `Counting.CountIgnoresWsRunsWithoutLt` | extension.ts:85 | in a text without `<`, collapsing whitespace runs first does not change the count |
| `Counting.TabBeforeStripMatters` | extension.ts:85 | with a `<` present, a tab and a space count differently: `<\tx<` has 2 words and `< x<` has 0 |
| `Counting.SelectionCounts` | extension.ts:77-79 | the `map` step gives one count per selection |
| `Counting.ReduceAdd` | extension.ts:80 | the seedless `reduce` of a non-empty list of counts is at least each of the counts |
| `Counting.ReduceAddIsSum` | extension.ts:80 | the seedless `reduce` of a non-empty list is the sum of its elements |
| `Counting.SelectionWordCount` | extension.ts:76-81 | the selection count is at least the count of each selected substring |
| `Counting.SelectionWordCountIsSum` | extension.ts:76-81 | the selection count is the in-order sum of the counts of the selected substrings |
| `Counting.SelectionWordCountAppend` | extension.ts:76-81 | the count of two lists of selections, one after the other, is the sum of their counts |
| `Counting.WholeTextSelection` | extension.ts:72-81 | one selection that spans the whole document counts what the document counts |
| `Numerals.Decimal` | extension.ts:60 | the numeral of a count is all digits and starts with `0` only for 0 |
| `Numerals.DecimalRoundTrip` | extension.ts:60 | reading the numeral back gives the count |
| `Numerals.DecimalInjective` | extension.ts:60 | different counts print differently |
| `Labels.DocLabel` | extension.ts:58-61 | the document label is `$(pencil) `, the count, and ` Word`, with an `s` exactly when the count is not 1 (0 included); the literal `'$(pencil) 1 Word'` has that form too |
| `Labels.DocLabelInjective` | extension.ts:58-61 | the document label determines the count |
| `Labels.SelectionLabel` | extension.ts:50-53 | the selection label is `$(pencil) `, the selection count, ` of `, the document count and ` Word`, with an `s` exactly when the document count is not 1, whatever the selection count |
| `Labels.SelectionLabelInjective` | extension.ts:50-53 | the selection label determines both the selection count and the document count |
| `Extension.IsMarkdown` | extension.ts:36-44 | with no active editor the item is not shown, and it is shown only for the language id `markdown` |
| `Extension.AllEmpty` | extension.ts:125 | `every(s => s.isEmpty)` holds for an empty list, and when it fails there is a selection that covers at least one character |
| `Extension.StatusText` | extension.ts:47-62 | the label chosen for a markdown document starts with `$(pencil) `, and in both branches it is plural exactly when the document count is not 1 |
| `Extension.StatusTextSingular` | extension.ts:56-62 | with no selection, the label is `$(pencil) 1 Word` exactly when the document has one word, and `$(pencil) n Words` otherwise |
| `Extension.WordCounter.constructor` | extension.ts:23-25 | a new counter has no status item yet |
| `Extension.WordCounter.UpdateWordCount` | extension.ts:27-70 | afterwards the item exists. It is visible exactly for a markdown editor and then carries the computed label. With no editor or another language it is hidden and keeps its old text |
| `Extension.WordCounter.GetWordCountForDoc` | extension.ts:72-74 | the document count is the word count of the whole text |
| `Extension.WordCounter.CountWords` | extension.ts:83-94 | the result is the number of maximal whitespace-free runs in the tag-stripped text |
| `Extension.WordCounter.Dispose` | extension.ts:96-98 | disposal succeeds exactly when the item was created; it then hides the item and marks it disposed |
| `Extension.WordCounterController.constructor` | extension.ts:106-108 | construction runs one whole-document update: the item exists afterwards, is visible exactly for a markdown editor and then carries the document label, and its disposed flag is unchanged |
| `Extension.WordCounterController.OnEvent` | extension.ts:119-121 | an editor change is a whole-document update |
| `Extension.WordCounterController.OnSelectionEvent` | extension.ts:123-131 | an all-empty or empty selection list has the same effect as a whole-document update; otherwise the selections are counted |

## Left out

- `activate` (extension.ts:7-21) is not modelled as a member. What it computes is covered by the two constructors: it builds a `WordCounter` and a `WordCounterController`, whose constructor runs the first update (extension.ts:14-15, 108). The console log and the registration of the two disposables with the host are left out.
- Event subscription is not modelled: `onDidChangeTextEditorSelection`, `onDidChangeActiveTextEditor`, `Disposable.from` and `WordCounterController.dispose` (extension.ts:111-116, 133-135). These are host plumbing with nothing to compute. Each event is a direct method call in the model.
- The host calls `createStatusBarItem`, `show`, `hide` and `dispose` become updates of the fields `created`, `visible`, `text` and `disposed`.
- `Extension.WordCounter.UpdateWordCount`: after disposal the model still sets `visible` and the text, though the host does not show an item that was disposed of. The host disposes of the item once, at deactivation.
- `window.activeTextEditor` is a parameter (`editor`). The event's own editor is assumed to be the active one.
- `doc.getText(new Range(...))` is not modelled. A selection is a pair of offsets `start <= end <= |text|` into the document text, and the host is assumed to pass only such selections.
- Strings are sequences of code points, while JavaScript strings are UTF-16 code units. Neither `\s` nor `<`, `>` or space lies outside the basic plane, so the count is the same. The bound in `Counting.WordCount` is stated in code points.
- `IsWs` lists the ECMAScript white-space and line-terminator code points. No Unicode database is consulted.
- JavaScript numbers are doubles. The model uses unbounded integers, which agree with doubles for every count below 2^53. The count is at most half the text length, so it stays far below that.
- A template literal prints numbers of 10^21 or more in exponent form. This is not modelled, because no count gets that large.
