# Suggestion engine of the AI document editor

This project models, in Dafny, how the editor handles "track changes" suggestions:

- **Marks.** An AI edit marks new text with the `insertion` mark and old text with the `deletion` mark. Both are exchanged with HTML as `<span class="suggestion-insertion">` and `<span class="suggestion-deletion">`.
- **Range actions.** The editor accepts or rejects one suggestion through range-based transactions. `getAdjacentMarkRanges` finds the runs of the opposite mark that touch a range. `acceptSuggestion` and `rejectSuggestion` remove a mark over the range and delete the adjacent runs.
- **Scanner.** The review panel lists the suggestions by scanning the document's text nodes (`scanSuggestions`).
- **Markup layer.** A word diff is rendered into span-tagged HTML (`computeDiff`). The toolbar's Accept and Reject buttons and the export's `stripSuggestionSpans` rewrite that HTML with regular expressions.
- **Exports.** The export turns the HTML tree into Markdown (`nodeToMarkdown`, `htmlToMarkdown`, `normalizeWhitespace`) or wraps it for Word (`wrapHtmlForWord`).
- **API-key dialog.** The dialog validates and stores the key (`handleSave`, `handleKeyDown`, `onChange`).

## The document model

- **Document.** A document is a sequence of slots (`Document.Doc`). A slot is either a character carrying a set of suggestion marks, or a token that holds no character: the opening or closing of a block.
- **Positions.** The character in slot `i` sits between positions `i` and `i + 1`. The length of the sequence is the document's `content.size`.
- **Mark ranges.** `getMarkRange` becomes `Document.MarkRange`. It looks at the character after the position and then at the one before, and it returns the maximal run of characters carrying the mark, which a token ends.
- **Steps.** `removeMark` unmarks the characters of a range. It throws a `TypeError` when the range ends beyond the document, because its walk over the blocks runs past the last one; a `from` before the start is cut back to the start. `delete` cuts the slots of a range. An empty range (`from == to`) adds no step and never throws, wherever it lies. Any other range outside the document, or with `from > to`, throws a `RangeError`. When a step throws, the action ends without dispatching.
- **Multiple deletes.** When several adjacent runs are deleted, they are deleted in descending order of `from`. `SuggestionActions.DescendingDeleteKeeps` proves that this deletes exactly the slots those runs cover in the snapshot (`Document.Keep`): the offsets taken from the snapshot stay valid.

## How the code is modelled

- **`useSuggestionActions.ts`.**
  - The editor (`SuggestionActions.Editor`) and the transaction being built (`SuggestionActions.Transaction`) are classes whose fields the methods update.
  - `getAdjacentMarkRanges` keeps the source's loop over the four probes.
  - The deletes of the adjacent runs and the unmarking of the adjacent runs are loops over the runs.
  - The value each action dispatches is given by a function (`AcceptOutcome`, `RejectOutcome`), and lemmas state what that function does to the document.
- **`ReviewTab.tsx`.** `scanSuggestions` is a method that appends to and updates the last record. It is proved equal to a left fold (`ReviewTab.Scan`), and lemmas about that fold state the properties of the scan.
- **`diff.ts`.** `computeDiff` is a loop; `diffWords` is left out and its part list is an input.
- **Regex rewrites.** The `.replace` chains of `export.ts` and `EditorToolbar.tsx` are written as scanners over strings:
  - `SpanPatterns.ReplaceSpans` covers both span patterns;
  - `Export.ReplaceWsNewline` covers `\s+\n`;
  - `Export.CollapseNewlines` covers `\n{3,}`.
- **`nodeToMarkdown`.** It is a class holding `listDepthStack`. Its recursive methods push and pop that stack. They are proved against the function `Markdown.NodeMd`, whose argument `depth` is the stack's length.
- **ApiKeyModal.** It is a class with the typed key, the error, the stored key, and the calls it makes to `onSave` and `onClose`.

## Model

| member | source | states |
|---|---|---|
| SuggestionMarks.TypeOfName | app/components/Editor/extensions/Suggestions.ts:4-24 | a mark name denotes the suggestion type of that name, and any other name denotes none |
| SuggestionMarks.NamesDistinct | app/components/Editor/extensions/Suggestions.ts:4-32 | the two mark names differ, the two class names differ, and a type's name denotes that type |
| SuggestionMarks.GetAttrs | app/components/Editor/extensions/Suggestions.ts:10-33 | `getAttrs` matches without attributes exactly when it receives an element whose class list holds the type's class; a string input never matches |
| SuggestionMarks.FirstMatch | app/components/Editor/RichTextEditor.tsx:36-41 | the parser applies the first rule, in registration order, whose `getAttrs` matches, or none when no rule matches |
| SuggestionMarks.ParsedMarks | app/components/Editor/extensions/Suggestions.ts:6-36 | a parsed `span` gets the insertion mark exactly when it carries the insertion class, and the deletion mark exactly when it carries the deletion class but not the insertion class |
| SuggestionMarks.RenderHtml | app/components/Editor/extensions/Suggestions.ts:18-20 | rendering gives a `span` with content hole 0 whose classes are the attribute classes plus the type's class |
| SuggestionMarks.RenderThenParse | app/components/Editor/extensions/Suggestions.ts:6-40 | parsing a rendered mark gives exactly that mark, unless the attributes carry the insertion class, which then wins; with no suggestion class among the attributes, exactly that mark |
| SuggestionMarks.BothClassesParseAsInsertion | app/components/Editor/extensions/Suggestions.ts:10-32 | a span with both classes gets the insertion mark only: the first matching rule consumes it |
| SuggestionMarks.RenderedOpenTag | app/components/Editor/extensions/Suggestions.ts:18-20 | the serialised opening tag of a rendered mark is the exact span tag the HTML rewrites look for |
| Document.MarkRange | app/components/Editor/hooks/useSuggestionActions.ts:19-20 | a range is found exactly when the character after or before the position carries the mark; it is a maximal run of that mark, containing the character after the position or ending at the position |
| Document.RunsEqualOrDisjoint | app/components/Editor/hooks/useSuggestionActions.ts:19-20 | two maximal runs of a mark are equal or disjoint |
| Document.RunIsText | app/components/Editor/hooks/useSuggestionActions.ts:19-20 | a mark run covers characters only, never a block boundary |
| Document.RemoveMarkIn | app/components/Editor/hooks/useSuggestionActions.ts:57 | where `removeMark` does not throw, it unmarks exactly the characters of the range and changes nothing else |
| Document.DeleteRange | app/components/Editor/hooks/useSuggestionActions.ts:62 | `delete` keeps the slots before `from`, shifts the slots from `to` on by `to - from`, and shortens the document by that much |
| Document.RemoveMarkKeepsText | app/components/Editor/hooks/useSuggestionActions.ts:56-57 | removing a mark, where it does not throw, leaves the text of the document unchanged |
| SuggestionActions.Found | app/components/Editor/hooks/useSuggestionActions.ts:15-24 | at most one range is collected per probe |
| SuggestionActions.FoundMembers | app/components/Editor/hooks/useSuggestionActions.ts:15-24 | the collected ranges are exactly the mark ranges found at the probes inside the document |
| SuggestionActions.Dedup | app/components/Editor/hooks/useSuggestionActions.ts:26-29 | the filter leaves no duplicate, drops no distinct range, never grows the list, and leaves a duplicate-free list as it is |
| SuggestionActions.DedupKeepsFirstOrder | app/components/Editor/hooks/useSuggestionActions.ts:26-29 | the kept ranges are in the order of their first occurrence |
| SuggestionActions.AdjacentRangesFacts | app/components/Editor/hooks/useSuggestionActions.ts:15-29 | the adjacent ranges number at most 4, are distinct, pairwise disjoint and maximal runs, and are exactly the runs found at `from`, `from-1`, `to`, `to-1` when inside `[0, size]` |
| SuggestionActions.GetAdjacentMarkRanges | app/components/Editor/hooks/useSuggestionActions.ts:7-30 | no editor or a mark missing from the schema gives `[]`; otherwise the result is the adjacent ranges of the snapshot |
| SuggestionActions.InsertByFrom | app/components/Editor/hooks/useSuggestionActions.ts:61 | inserting into a list sorted by descending `from` keeps it sorted and adds exactly that range |
| SuggestionActions.SortByFromDescending | app/components/Editor/hooks/useSuggestionActions.ts:61 | the sort by `b.from - a.from` gives a permutation in descending order of `from` |
| SuggestionActions.SortKeepsDistinct | app/components/Editor/hooks/useSuggestionActions.ts:61 | sorting a duplicate-free list keeps it duplicate-free with the same ranges |
| SuggestionActions.SortedRunsDescend | app/components/Editor/hooks/useSuggestionActions.ts:61-63 | distinct mark runs sorted by descending `from` lie right to left, each ending before the previous starts, inside the document |
| SuggestionActions.StepRemoveMark | app/components/Editor/hooks/useSuggestionActions.ts:57 | a `removeMark` step throws exactly when the range ends beyond the document; otherwise it keeps the document's size and the selection |
| SuggestionActions.StepDelete | app/components/Editor/hooks/useSuggestionActions.ts:62 | a `delete` step succeeds exactly when the range is empty or lies inside the document with `from <= to`; an empty range leaves the state unchanged, a valid one cuts it and maps the anchor, and the selection stays inside |
| SuggestionActions.UnmarkEach | app/components/Editor/hooks/useSuggestionActions.ts:101-103 | removing a mark over each range throws exactly when some range ends beyond the document; otherwise it unmarks exactly the characters some range covers |
| SuggestionActions.UnmarkStep | app/components/Editor/hooks/useSuggestionActions.ts:101-103 | unmarking one more range that ends inside the document extends the unmarked set by that range |
| SuggestionActions.DeleteAfterKeep | app/components/Editor/hooks/useSuggestionActions.ts:61-63 | after the runs to the right are cut, the next run to the left still has valid snapshot offsets, and cutting it extends the cut |
| SuggestionActions.DescendingDeleteKeeps | app/components/Editor/hooks/useSuggestionActions.ts:61-63 | deleting disjoint ranges right to left never throws and removes exactly the slots they cover in the snapshot |
| SuggestionActions.KeepOne | app/components/Editor/hooks/useSuggestionActions.ts:66 | deleting one range is keeping what it does not cover |
| SuggestionActions.AcceptEmptyDeletionAnywhere | app/components/Editor/hooks/useSuggestionActions.ts:64-69 | accepting an empty deletion range, even one outside the document, throws nothing and dispatches the state unchanged |
| SuggestionActions.KeepEmpty | app/components/Editor/hooks/useSuggestionActions.ts:66 | leaving out an empty range keeps the whole document |
| SuggestionActions.AdjacentEndWithin | app/components/Editor/hooks/useSuggestionActions.ts:15-29 | every adjacent range ends inside the document it was found in |
| SuggestionActions.UnmarkThenDeleteAdjacent | app/components/Editor/hooks/useSuggestionActions.ts:55-63 | unmarking a range and then deleting the adjacent runs of the other mark throws exactly when the range ends beyond the document (the deletes never throw), and otherwise cuts exactly those runs from the unmarked document, keeping the anchor inside |
| SuggestionActions.AcceptOutcomeMeaning | app/components/Editor/hooks/useSuggestionActions.ts:55-67 | accepting an insertion throws exactly when its range ends beyond the document, and otherwise keeps its text without the mark and cuts the adjacent deletions; accepting a deletion succeeds exactly when the range is empty or valid and cuts exactly the range; the anchor stays inside |
| SuggestionActions.RejectOutcomeMeaning | app/components/Editor/hooks/useSuggestionActions.ts:95-113 | rejecting a deletion throws exactly when its range ends beyond the document, and otherwise keeps its text without the mark and cuts the adjacent insertions; rejecting an insertion throws exactly when the range is non-empty and invalid, or an adjacent deletion ends beyond the shortened document, and otherwise cuts the range and unmarks the snapshot offsets of the adjacent deletions in the shortened document |
| SuggestionActions.Target | app/components/Editor/hooks/useSuggestionActions.ts:38-53 | an explicit range and type are used as given; otherwise the type is the active mark, insertion first, and the range is the mark run at the selection anchor, with no target exactly when no such run exists or neither mark is active |
| SuggestionActions.Transaction.constructor | app/components/Editor/hooks/useSuggestionActions.ts:35 | a new transaction starts from the editor's document and selection |
| SuggestionActions.Transaction.RemoveMark | app/components/Editor/hooks/useSuggestionActions.ts:57 | on a range ending inside the document, the transaction's state becomes the `removeMark` step of its old state |
| SuggestionActions.Transaction.Delete | app/components/Editor/hooks/useSuggestionActions.ts:62 | for a range `delete` does not reject, the transaction's state becomes the `delete` step of its old state |
| SuggestionActions.Editor.constructor | app/components/Editor/hooks/useSuggestionActions.ts:6 | an editor holds a document, a selection inside it and a schema |
| SuggestionActions.Editor.Dispatch | app/components/Editor/hooks/useSuggestionActions.ts:69 | dispatching sets the editor's state to the transaction's and counts one dispatch |
| SuggestionActions.DeleteAll | app/components/Editor/hooks/useSuggestionActions.ts:61-63 | the loop of deletes over the sorted runs leaves the transaction in the state of deleting them one by one |
| SuggestionActions.UnmarkAll | app/components/Editor/hooks/useSuggestionActions.ts:101-103 | the loop of `removeMark` calls throws exactly when unmarking every run throws, and otherwise leaves the transaction in the state of unmarking every run |
| SuggestionActions.ResolveTarget | app/components/Editor/hooks/useSuggestionActions.ts:38-53 | the fallback picks exactly the target of `Target` |
| SuggestionActions.BuildAccept | app/components/Editor/hooks/useSuggestionActions.ts:55-67 | the steps added to the transaction throw exactly when the accept outcome is a thrown step, and otherwise leave the transaction in the accept outcome with the anchor inside the document |
| SuggestionActions.BuildReject | app/components/Editor/hooks/useSuggestionActions.ts:95-114 | the steps added to the transaction throw exactly when the reject outcome is a thrown step (a `RangeError` from `delete` or a `TypeError` from `removeMark`), and otherwise leave the transaction in the reject outcome, as written, with the anchor inside the document |
| SuggestionActions.AcceptSuggestion | app/components/Editor/hooks/useSuggestionActions.ts:32-70 | no editor or no target is a no-op; a step that throws dispatches nothing and leaves the editor as it was; otherwise exactly one transaction is dispatched and the editor's new state is the accept outcome |
| SuggestionActions.RejectSuggestion | app/components/Editor/hooks/useSuggestionActions.ts:72-117 | no editor or no target is a no-op; a step that throws dispatches nothing and leaves the editor as it was; otherwise exactly one transaction is dispatched and the editor's new state is the reject outcome, as written |
| SuggestionActions.RejectInsertionRestoring | app/components/Editor/hooks/useSuggestionActions.ts:95-103 | the intended rejection of an insertion unmarks the adjacent deletions first and then cuts the insertion, failing exactly when the range is non-empty and invalid |
| SuggestionActions.RestoringClearsDeletion | app/components/Editor/hooks/useSuggestionActions.ts:99-103 | after the intended rejection no surviving character of an adjacent deletion run keeps the deletion mark |
| SuggestionActions.RejectInsertionAgreesWhenDeletionsPrecede | app/components/Editor/hooks/useSuggestionActions.ts:95-103 | when every adjacent deletion ends at or before the insertion's `from`, the rejection as written equals the intended one |
| SuggestionActions.InsertionBeforeDeletionAdjacent | app/components/Editor/hooks/useSuggestionActions.ts:100 | in "A", inserted "n", deleted "o", "B", the deletion adjacent to the insertion is the "o" |
| SuggestionActions.InsertionBeforeDeletionCut | app/components/Editor/hooks/useSuggestionActions.ts:97 | cutting the insertion shifts the "o" one position to the left |
| SuggestionActions.RejectInsertionLeavesDeletionMark | app/components/Editor/hooks/useSuggestionActions.ts:95-103 | as written, rejecting the "n" leaves the "o" still marked as deleted |
| SuggestionActions.RestoringUnmarksDeletion | app/components/Editor/hooks/useSuggestionActions.ts:99-103 | as intended, rejecting the "n" leaves the "o" unmarked |
| SuggestionActions.InsertionBeforeFinalDeletionAdjacent | app/components/Editor/hooks/useSuggestionActions.ts:100 | in inserted "nn", deleted "o" at the end of the paragraph, the deletion adjacent to the insertion is the "o" at [3, 4) |
| SuggestionActions.RejectInsertionThrowsPastEnd | app/components/Editor/hooks/useSuggestionActions.ts:97-103 | as written, rejecting the "nn" throws: after the cut the document has size 3 and `removeMark(3, 4)` runs past its end |
| SuggestionActions.FinalDeletionUnmarked | app/components/Editor/hooks/useSuggestionActions.ts:99-103 | unmarking that adjacent deletion clears the mark of the "o" only |
| SuggestionActions.RestoringIs | app/components/Editor/hooks/useSuggestionActions.ts:99-103 | the intended rejection deletes the range from the document with the adjacent deletions unmarked |
| SuggestionActions.RestoringFinalDeletion | app/components/Editor/hooks/useSuggestionActions.ts:99-103 | as intended, rejecting the "nn" does not throw and leaves the paragraph "o" unmarked |
| SuggestionExamples.DeletionAdjacentToNew | app/components/Editor/hooks/useSuggestionActions.ts:60 | in "A", deleted "old", inserted "new", "B", the deletion adjacent to "new" is "old" |
| SuggestionExamples.InsertionAdjacentToOld | app/components/Editor/hooks/useSuggestionActions.ts:110 | the insertion adjacent to "old" is "new" |
| SuggestionExamples.AcceptNewGivesNew | app/components/Editor/hooks/useSuggestionActions.ts:55-63 | accepting "new" gives the paragraph "AnewB" with no marks |
| SuggestionExamples.AcceptOldCutsOld | app/components/Editor/hooks/useSuggestionActions.ts:64-66 | accepting the deletion "old" cuts it and leaves "new" marked |
| SuggestionExamples.RejectOldGivesOld | app/components/Editor/hooks/useSuggestionActions.ts:105-113 | rejecting "old" gives "AoldB" with no marks |
| SuggestionExamples.RejectNewGivesOld | app/components/Editor/hooks/useSuggestionActions.ts:95-103 | rejecting "new" gives "AoldB" with no marks, the deletion lying before the insertion |
| JsStrings.Trim | app/components/ApiKeyModal/ApiKeyModal.tsx:27 | `trim` gives the empty string exactly for all-white-space input, and otherwise neither starts nor ends with white space |
| JsStrings.DecimalString | app/components/Sidebar/ReviewTab.tsx:45 | the decimal form of a position is non-empty, all digits, without a leading zero, and denotes that position |
| JsStrings.DecimalStringInjective | app/components/Sidebar/ReviewTab.tsx:45 | different positions have different decimal forms |
| ReviewTab.Record | app/components/Sidebar/ReviewTab.tsx:35-50 | a run with the last suggestion's type ending at this position extends it, appending the text and growing `to` by the length; otherwise a new suggestion `type-pos` spanning `[pos, pos + size)` is appended |
| ReviewTab.Step | app/components/Sidebar/ReviewTab.tsx:33-51 | marks other than insertion and deletion change nothing; a suggestion mark records the node |
| ReviewTab.ScanTextNode | app/components/Sidebar/ReviewTab.tsx:31-53 | the loop over a node's marks records the node once per suggestion mark, in order |
| ReviewTab.ReviewPanel.constructor | app/components/Sidebar/ReviewTab.tsx:19 | the panel starts with no suggestions |
| ReviewTab.ReviewPanel.ScanSuggestions | app/components/Sidebar/ReviewTab.tsx:22-57 | without an editor the list stays as it was; otherwise it becomes the scan of the document's text nodes in traversal order |
| ReviewTab.ScanWellFormed | app/components/Sidebar/ReviewTab.tsx:41-49 | every suggestion's `to - from` equals the length of its text |
| ReviewTab.UnmarkedContributesNothing | app/components/Sidebar/ReviewTab.tsx:29-33 | non-text nodes and text nodes without suggestion marks add no suggestion |
| ReviewTab.ScanMarksNoSuggestion | app/components/Sidebar/ReviewTab.tsx:32-33 | a text node whose marks are all other marks leaves the list unchanged |
| ReviewTab.NameDenotes | app/components/Sidebar/ReviewTab.tsx:33 | a mark name is taken as a suggestion type exactly when it is that type's name |
| ReviewTab.ScanKeepsMarkedText | app/components/Sidebar/ReviewTab.tsx:28-53 | the texts of the suggestions of a type, in order, are the text of every node carrying that mark, in order |
| ReviewTab.ScanOrdered | app/components/Sidebar/ReviewTab.tsx:28-44 | for a traversal in document order, the suggestions are in non-decreasing `from`, and consecutive suggestions of one type never touch |
| ReviewTab.ChainCoalesces | app/components/Sidebar/ReviewTab.tsx:35-43 | after any earlier nodes, a chain of touching text nodes with the same single mark is recorded as one piece of text, their joined text from the first node's start, which ends at the last node's end |
| ReviewTab.RecordTwice | app/components/Sidebar/ReviewTab.tsx:35-43 | recording two touching texts of one type, one after the other, is recording their concatenation |
| ReviewTab.ChainAlone | app/components/Sidebar/ReviewTab.tsx:35-43 | a chain on its own becomes exactly one suggestion with the joined text, from the first node's start to the last node's end |
| Diff.PartKind | app/utils/diff.ts:9-15 | an added part is an insertion whatever its removed flag; a removed part that is not added is a deletion; other parts are plain |
| Diff.RenderPartsAppend | app/utils/diff.ts:7-16 | rendering a list of parts is the concatenation of rendering its pieces |
| Diff.ComputeDiff | app/utils/diff.ts:3-19 | the loop's HTML is the in-order concatenation of the rendered parts, and no parts give `""` |
| SpanPatterns.CloseAt | app/utils/export.ts:5 | the lazy `.*?</span>` ends at the first `</span>` after the opening tag, with no line terminator before it |
| SpanPatterns.CopyPlain | app/utils/export.ts:3-7 | text without `<` passes through both rewrites unchanged |
| SpanPatterns.ReplaceSpanAtFront | app/utils/export.ts:5-7 | a span of the rewritten kind around plain content is dropped, or replaced by its content |
| SpanPatterns.CopyOtherSpan | app/utils/export.ts:5-7 | a span of the other kind is left as it is |
| SpanPatterns.KeepSpanWithLineBreak | app/utils/export.ts:5-7 | a span whose content holds a line terminator does not match and is left as it is |
| SpanPatterns.NoOpenTagUnchanged | app/utils/export.ts:5-7 | HTML without the opening tag is unchanged by the rewrite |
| Export.StripSuggestionSpans | app/utils/export.ts:1-8 | empty input gives `""` |
| Export.StripWithoutSpans | app/utils/export.ts:3-7 | HTML without suggestion tags comes back unchanged |
| Export.GreedyEnd | app/utils/export.ts:18 | the greedy white-space run ends after its last `\n`, and a match exists exactly when the run reaches a `\n` |
| Export.WsNewlineMatch | app/utils/export.ts:18 | `\s+\n` matches exactly at a white-space character followed by a white-space run that reaches a `\n`, and the match is all white space ending in `\n` |
| Export.ReplaceWsNewlineClean | app/utils/export.ts:18 | after the first rewrite no `\n` follows a white-space character |
| Export.CollapseWithoutDoubleNewline | app/utils/export.ts:18 | the `\n{3,}` rewrite changes nothing in text without two consecutive `\n` |
| Export.NormalizeWhitespaceClean | app/utils/export.ts:17-19 | after `normalizeWhitespace` no `\n` is preceded by white space, and the second rewrite never fires |
| Export.ReplaceWsNewlineOfClean | app/utils/export.ts:18 | the first rewrite leaves text with no white space before a `\n` unchanged |
| Export.NormalizeWhitespaceIdempotent | app/utils/export.ts:17-19 | normalizing twice is normalizing once |
| Export.NormalizeWhitespaceMergesParagraphs | app/utils/export.ts:18 | no two `\n` in a row survive normalization |
| Export.DropBlanksFacts | app/utils/export.ts:18 | the intended first rewrite leaves no blank before a `\n` and keeps every `\n` |
| Export.CollapseFacts | app/utils/export.ts:18 | after the `\n{3,}` rewrite no three `\n` are in a row |
| Export.CollapseOfTripleFree | app/utils/export.ts:18 | the `\n{3,}` rewrite leaves text without three `\n` in a row unchanged |
| Export.NormalizeWhitespaceIntendedFacts | app/utils/export.ts:17-19 | the intended normalization leaves no three `\n` in a row, and is the identity on text without blanks before a `\n` or triple `\n` |
| Export.TwoParagraphsMerged | app/utils/export.ts:18 | as written, `a\n\nb` is changed |
| Export.TwoParagraphsKept | app/utils/export.ts:18 | as intended, `a\n\nb` is kept |
| Export.WrapHtmlForWord | app/utils/export.ts:108-119 | the Word document is the fixed prologue, the body, then the fixed epilogue, and the body can be read back from between them |
| Export.WrapHtmlForWordInjective | app/utils/export.ts:108-119 | different bodies give different documents |
| Markdown.Split | app/utils/export.ts:70 | splitting gives at least one piece and no piece holds the separator |
| Markdown.JoinSplit | app/utils/export.ts:70 | joining the lines of a split gives the string back |
| Markdown.SplitJoin | app/utils/export.ts:70 | splitting a join of separator-free lines gives the lines back |
| Markdown.BlockquoteLines | app/utils/export.ts:69-72 | the lines of a quote are the lines of the trimmed content, each behind `> ` |
| Markdown.ListLineShape | app/utils/export.ts:87-91 | a list line starts with two spaces per enclosing list level beyond the first, then a decimal numeral of `idx + 1` and `. ` for `ol`, or `- ` for `ul`, then the content |
| Markdown.ItemContents | app/utils/export.ts:83-86 | there are at most as many item contents as children |
| Markdown.ItemContentsTrimmed | app/utils/export.ts:85-86 | every item content is non-empty and has no white space at either end |
| Markdown.ItemContentsSelected | app/utils/export.ts:83-86 | the item contents are the trimmed conversions of the children at indices `js`, in strictly increasing order, where `js` holds exactly the `li` children whose trimmed conversion is not empty |
| Markdown.ConversionAt | app/utils/export.ts:83-86 | entry `j` of the conversions is child `j` converted and trimmed, and its flag says whether that child is a non-empty `li` item |
| Markdown.ListRule | app/utils/export.ts:80-96 | a list is one line per non-empty `li` child joined by `\n`, followed by a blank line, numbered over the kept items only; the items are selected from the children by a strictly increasing index sequence holding exactly the non-empty `li` children |
| Markdown.LinkRule | app/utils/export.ts:75-79 | a link without `href` is its trimmed label; with one it is `[label](href)`, the label falling back to `href` when the trimmed children are empty |
| Markdown.MarkdownDocumentShape | app/utils/export.ts:104-105 | the Markdown ends in exactly one `\n` after trimmed text, with no white space before any line break |
| Markdown.MarkdownConverter.constructor | app/utils/export.ts:26 | the list stack starts empty |
| Markdown.MarkdownConverter.NodeToMarkdown | app/utils/export.ts:28-102 | converting a node leaves `listDepthStack` as it was and gives the node's Markdown at the stack's depth |
| Markdown.MarkdownConverter.ListToMarkdown | app/utils/export.ts:80-95 | converting a list pushes its kind, converts its items one level deeper, pops, and gives the list's Markdown at the stack's depth |
| Markdown.MarkdownConverter.ListItemsToMarkdown | app/utils/export.ts:83-86 | the `li` children's trimmed, non-empty conversions in order, leaving the stack as it was |
| Markdown.MarkdownConverter.ChildrenToMarkdown | app/utils/export.ts:37 | the children's conversions are concatenated in order, leaving the stack as it was |
| Markdown.HtmlToMarkdown | app/utils/export.ts:21-106 | the converter's result over the body is the Markdown document |
| EditorToolbar.AcceptAllIsStrip | app/components/Editor/EditorToolbar.tsx:86-88 | the Accept rewrite is the export's span stripping, the empty string included |
| EditorToolbar.NoSpansUnchanged | app/components/Editor/EditorToolbar.tsx:86-101 | HTML without suggestion tags is unchanged by Accept and by Reject |
| DiffRoundTrip.PassRenders | app/utils/export.ts:5-7 | on a rendered diff with plain values, each rewrite drops or unwraps exactly the parts of its kind |
| DiffRoundTrip.AcceptAllOfDiff | app/utils/diff.ts:7-16 | Accept and the span stripping turn a rendered diff with plain values into its unchanged and added values, in order |
| DiffRoundTrip.RejectAllOfDiff | app/components/Editor/EditorToolbar.tsx:99-101 | Reject turns a rendered diff with plain values into its unchanged and removed values, in order |
| DiffRoundTrip.CatDogButtons | app/components/Editor/EditorToolbar.tsx:86-101 | on the rendered diff of the parts `The `, removed `cat`, added `dog`, ` sat.` (`The <span class="suggestion-deletion">cat</span><span class="suggestion-insertion">dog</span> sat.`), Accept gives `The dog sat.` and Reject gives `The cat sat.` |
| ApiKeyModal.Validate | app/components/ApiKeyModal/ApiKeyModal.tsx:26-39 | a blank key is refused first with `Please enter an API key`; a non-blank key not starting with `sk-` before trimming gets the prefix error; otherwise the trimmed key is stored |
| ApiKeyModal.StoredKeyShape | app/components/ApiKeyModal/ApiKeyModal.tsx:35-36 | a stored key starts with `sk-` and has no white space at either end |
| ApiKeyModal.LeadingSpaceRefused | app/components/ApiKeyModal/ApiKeyModal.tsx:31 | white space before `sk-` is refused with the prefix error |
| ApiKeyModal.Dialog.constructor | app/components/ApiKeyModal/ApiKeyModal.tsx:14-15 | the dialog starts with an empty key and no error |
| ApiKeyModal.Dialog.HandleSave | app/components/ApiKeyModal/ApiKeyModal.tsx:26-39 | a refused key sets the error and stores and calls nothing; an accepted key is stored trimmed, passed trimmed to `onSave`, the error is cleared and `onClose` follows |
| ApiKeyModal.Dialog.HandleKeyDown | app/components/ApiKeyModal/ApiKeyModal.tsx:41-47 | Enter saves, Escape closes, and any other key changes nothing |
| ApiKeyModal.Dialog.OnChange | app/components/ApiKeyModal/ApiKeyModal.tsx:63-66 | editing takes the new text and always clears the error |

## Left out

- **tiptap and ProseMirror internals.** `doc.resolve`, the real `getMarkRange`, transaction mapping and `view.dispatch` are not modelled as such. They appear only as the document model above. A delete across a block boundary just cuts slots and does not join blocks. The runs the actions delete never cross a boundary (`Document.RunIsText`).
- **HTML parsing.** ProseMirror's `DOMParser` is modelled only as its rule choice for the two suggestion `span` rules: the first rule that matches, in the order `Insertion`, `Deletion`, applies and consumes the element. The parse rules of the other extensions (`StarterKit`, `BubbleMenuExtension`) are not modelled.
- **`editor.isActive`.** This is tiptap's view of the stored marks and the selection. It is an input of the actions (`activeMarks`).
- **The selection.** Only its anchor is modelled.
- SuggestionActions.AcceptSuggestion: requires both marks in the schema, because the source reads `state.schema.marks.insertion` and `.deletion` without a check and the model does not represent calling `removeMark` with a missing mark type. RejectSuggestion requires the same.
- SuggestionActions.StepDelete: a non-empty delete with `from > to` is taken to throw like an out-of-range delete. The model does not represent ProseMirror's own handling of a reversed range.
- Document.RemoveMarkIn: an explicit reversed range (`from > to`) ending inside the document unmarks nothing in the model. ProseMirror's step for such a range is not modelled.
- Export.StripSuggestionSpans: its own contract states only the empty case. What the two rewrites do is stated by the `SpanPatterns` lemmas and by `DiffRoundTrip.AcceptAllOfDiff`.
- **The word diff.** `diffWords` and its longest-common-subsequence algorithm are left out; its part list is an input.
- **DOM parsing.** `DOMParser` and the lower-casing of tag names (`toLowerCase`) are left out: the tree walk receives an abstract tree with lower-case tag names. `htmlToMarkdown`'s early return of `''` when `window` is undefined (server rendering, app/utils/export.ts:22) is left out: the model is the browser path. `htmlToPlainText` depends on `innerText` and is left out.
- **Browser storage.** The dialog's loading of the stored key from browser storage (the `useEffect`) is left out. The stored key is a field the dialog writes. The `onSave` and `onClose` calls are recorded as events.
- **Characters.** JavaScript strings are sequences of UTF-16 code units, and the model's `char` stands for one code unit. `\s` is the ECMAScript white-space and line-terminator set.
- **UI components and rendering.** Everything outside the functions listed above is left out.

## Findings

| source | as written | input that shows it | evidently intended | confidence | as-written member | corrected member |
|---|---|---|---|---|---|---|
| app/components/Editor/hooks/useSuggestionActions.ts:95-103 | rejecting an insertion first deletes its range, then removes the deletion mark at the adjacent runs' pre-delete offsets, which are stale when a run lies after the insertion | paragraph "A", inserted "n", deleted "o", "B"; reject the "n" at [2, 3): the "o" moves to [2, 3) but the mark is removed at [3, 4), so "o" stays marked as deleted | restore the adjacent deletions at their current offsets (unmark first, or map the offsets through the delete) | medium, not executed | SuggestionActions.RejectInsertionLeavesDeletionMark | SuggestionActions.RestoringUnmarksDeletion |
| app/components/Editor/hooks/useSuggestionActions.ts:97-102 | the same stale offsets can lie beyond the shortened document, and then `removeMark` throws a `TypeError` and the rejection dispatches nothing | paragraph of inserted "nn" then deleted "o" (size 5); reject the "nn" at [1, 3): the document shrinks to size 3 and `removeMark(3, 4)` runs past its end | the same: unmark the adjacent deletions first, so the rejection goes through and restores the "o" | medium, not executed | SuggestionActions.RejectInsertionThrowsPastEnd | SuggestionActions.RestoringFinalDeletion |
| app/utils/export.ts:18 | `\s` also matches `\n`, so `\s+\n` rewrites every blank line to one line break: Markdown paragraphs merge and the `\n{3,}` rewrite can never fire | `<p>a</p><p>b</p>` gives `a\n\nb\n\n`, and normalizing it gives `a\nb\n`, a single Markdown paragraph | drop only the non-line-break white space before a `\n`, and cap runs of blank lines at one | medium, not executed | Export.TwoParagraphsMerged | Export.TwoParagraphsKept |

The action methods and `Markdown.HtmlToMarkdown` model the code as written. The corrected definitions are `SuggestionActions.RejectInsertionRestoring` and `Export.NormalizeWhitespaceIntended`, with the lemmas listed in the table.
