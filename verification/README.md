# OmniSearch search front end — a Dafny model

OmniSearch is a single-page research assistant. The user types a query, picks a
domain (General, Health, Emotion, Business, Education or Creative) and receives a
grounded answer from a language model: a markdown text and a list of cited web
sources. This project models the logic of that page as pure functions over
immutable datatypes and proves what it promises:

- **SourceList** (`source_list.dfy`): `getCategory` puts a URI into PAPER, APP or
  GENERAL by substring tests against two fixed domain lists. The `reduce` groups a
  source list into buckets. The reference panel shows the non-empty buckets in the
  fixed order PAPER, APP, GENERAL.
- **ResultDisplay** (`result_display.dfy`): the answer is split into its four
  numbered sections with the pattern `\n?##\s*\d+\.?\s+`. The model follows the
  ECMAScript `split` algorithm as a left-to-right scan. The module also covers the
  choice between the "no content", plain and tabbed layouts, the per-tab filter of
  the sources, and when the source panel is shown. `App.tsx` never imports or
  mounts this component: the page shows the answer through `MarkdownRenderer` and
  the sources through `SourceList` (App.tsx lines 5-7, 190 and 196). The component
  is modelled for the view it defines.
- **GeminiService** (`gemini_service.dfy`): covers everything the service does
  after the model call. That is:
  - the per-category instruction table and its fallback;
  - the fallback answer text;
  - the conversion of grounding chunks into sources, with the "Web Source" default
    title;
  - de-duplication by URI through `findIndex`.
- **MarkdownRenderer** (`markdown_renderer.dfy`): the text is cut into lines. Each
  line becomes a heading, a bold key/value item, a list item, a spacer or a
  paragraph with bold runs. The bold pattern `\*\*(.*?)\*\*` is modelled as the
  lazy match it is, used by both `split` and `replace`. `ClassifyLine` renders
  paragraphs as the code does. A corrected choice of bold segments is given
  alongside it (see Findings).
- **App** (`app.dfy`): the page's state machine. Its handlers are submit, category
  change, suggestion chips, and the completion of a search as an event. An
  invariant over every reachable state is proved.
- `text.dfy`, `seqs.dfy` and `types.dfy` hold the shared string helpers, the
  subsequence and concatenation helpers, and the types of `types.ts`.

Whitespace is the exact ECMAScript set used by `\s` and `trim()`. `toLowerCase` is
modelled on ASCII letters only.

The section pattern consumes only the `## 1. ` marker, so a header's title stays
the first line of its section: `"Intro\n## 1. Apps\nA"` has the applications
section `"Apps\nA"` (`ResultDisplay.PartitionKeepsTitle`).

Several lemmas about the split are stated for well-separated pieces and markers.
`ResultDisplay.SplitWellSeparated` shows that every text's own split is
well-separated, so those lemmas cover every answer text.

## Model

| member | source | states |
|---|---|---|
| SourceList.CategorySpec | components/SourceList.tsx:9-27 | PAPER exactly when some paper domain occurs in the lower-cased URI. APP exactly when no paper domain occurs and some app domain does. GENERAL exactly when neither list matches. |
| SourceList.CategoryIgnoresCase | components/SourceList.tsx:9-10 | Two URIs that differ only in letter case get the same category. |
| SourceList.EmbeddedPaperDomain | components/SourceList.tsx:12-24 | A paper domain anywhere in the URI, not only in its host, makes it a paper, whatever else it contains. |
| SourceList.EmbeddedAppDomain | components/SourceList.tsx:18-25 | An app domain anywhere in the URI makes it an app when no paper domain occurs. |
| SourceList.OfCategory | components/SourceList.tsx:33-38 | A bucket is an order-preserving subsequence of the sources, and every member has the bucket's category. |
| SourceList.OfCategoryCount | components/SourceList.tsx:33-38 | A bucket holds each source of its category as often as the input does, and no other source. |
| SourceList.CategoriesPartition | components/SourceList.tsx:33-38 | The three buckets together hold every input source exactly once. |
| SourceList.Group | components/SourceList.tsx:33-38 | The grouped record has a key exactly for each category present. Each key's list is that category's sources in input order. |
| SourceList.RenderedGroups | components/SourceList.tsx:31-82 | An absent or empty list renders nothing. Groups are non-empty and appear in PAPER, APP, GENERAL order. Exactly the present categories appear, and the links are a permutation of the sources. |
| ResultDisplay.MarkerEndSound | components/ResultDisplay.tsx:21 | A match the matcher reports is a match of the section pattern, and its trailing whitespace run is maximal. |
| ResultDisplay.MarkerEndComplete | components/ResultDisplay.tsx:21 | Every match of the pattern at a position is found. The reported one is the longest, extended only over whitespace. |
| ResultDisplay.SplitSections | components/ResultDisplay.tsx:21 | The pieces with the matched markers between them give back the text. Every marker is a match, and no piece contains one. |
| ResultDisplay.SplitSectionsWhole | components/ResultDisplay.tsx:21 | The split yields a single piece exactly when the text contains no marker. |
| ResultDisplay.MarkerNeedsHash | components/ResultDisplay.tsx:21 | A text without `#` contains no marker. |
| ResultDisplay.NumberedHeaderIsMarker | components/ResultDisplay.tsx:20-21 | The header `\n## N. ` that the prompt asks for is a match of the pattern. |
| ResultDisplay.SplitInterleave | components/ResultDisplay.tsx:21 | Splitting a text assembled from well-separated pieces and markers gives back exactly those pieces and markers. |
| ResultDisplay.SplitWellSeparated | components/ResultDisplay.tsx:21 | The pieces and markers the split finds in any text are well-separated. |
| ResultDisplay.SplitIffWellSeparated | components/ResultDisplay.tsx:21 | Pieces and markers are exactly what the split of their assembly gives back if and only if they are well-separated. |
| ResultDisplay.Partition | components/ResultDisplay.tsx:18-29 | All four sections are trimmed. A text without markers gives its trimmed self as overview and three empty sections. A non-empty later section implies a marker. |
| ResultDisplay.PartitionOfPieces | components/ResultDisplay.tsx:21-27 | For well-separated pieces and markers, section i is piece i trimmed, or empty when there is no piece i. Every text's own split qualifies. |
| ResultDisplay.PartitionKeepsTitle | components/ResultDisplay.tsx:21-27 | The marker consumes only `\n## 1. `, so the header title stays the first line of its section. |
| ResultDisplay.PartitionAfterBlankLine | components/ResultDisplay.tsx:21-27 | A section that ends in "2." and has a blank line before the next header keeps its text. `"Intro 2.\n\n## 1. Apps\nA"` has overview "Intro 2." and applications "Apps\nA". |
| ResultDisplay.LaterSectionsDropped | components/ResultDisplay.tsx:21-27 | For well-separated pieces and markers, anything after the fourth piece does not change the partition. |
| ResultDisplay.LaterSectionsDroppedText | components/ResultDisplay.tsx:21-27 | For every text, cutting it after its fourth piece does not change the partition. |
| ResultDisplay.ChooseLayout | components/ResultDisplay.tsx:49-75 | "No content" exactly for the empty text. The tabbed layout needs a marker. Text without markers uses the plain renderer. |
| ResultDisplay.TabbedIffContent | components/ResultDisplay.tsx:49-75 | For a non-empty text built from well-separated pieces, the tabbed layout is chosen exactly when the applications or the research piece is not blank. Every text's own split qualifies. |
| ResultDisplay.EmptySectionsStayPlain | components/ResultDisplay.tsx:49-75 | A numbered header followed by nothing keeps the plain layout. |
| ResultDisplay.FilteredSources | components/ResultDisplay.tsx:32-45 | Absent sources give nothing. The overview tab keeps the list. Every tab keeps an order-preserving subsequence whose members carry the tab's category. |
| ResultDisplay.FilteredMembers | components/ResultDisplay.tsx:38-44 | On a category tab, a source is kept exactly when it is in the list and has the tab's category. |
| ResultDisplay.TabsPartitionSources | components/ResultDisplay.tsx:36-44 | The research, applications and ecosystem tabs together show the overview's list, each source exactly once. |
| ResultDisplay.ShowSourcePanel | components/ResultDisplay.tsx:136 | The panel is shown only for a non-empty list. On the overview tab it is shown exactly then. |
| ResultDisplay.PanelIffCategoryPresent | components/ResultDisplay.tsx:136 | On a category tab, the panel is shown exactly when some source has that category. |
| ResultDisplay.CategoryTabShowsOneGroup | components/ResultDisplay.tsx:136-138 | On a category tab, the panel's reference list has at most one group, the tab's own. |
| GeminiService.ParseCategory | services/geminiService.ts:6-13 | A key selects a table entry exactly when it is a category's name. |
| GeminiService.PromptsDistinct | services/geminiService.ts:6-13 | Different categories have different instructions. |
| GeminiService.InstructionFor | services/geminiService.ts:17 | The instruction is never empty. A category name gets its own entry, and any other key gets the General entry. |
| GeminiService.InstructionForCategory | services/geminiService.ts:17 | Every category's name selects its own instruction. A key that names no category selects the General one. |
| GeminiService.InstructionForInjective | services/geminiService.ts:6-17 | Two category names with the same instruction are the same category. |
| GeminiService.ResponseText | services/geminiService.ts:48 | A non-empty answer text is kept. A missing or empty one becomes "No information found.". |
| GeminiService.ChunksOf | services/geminiService.ts:51 | No candidates, or a first candidate without grounding metadata or chunks, give no chunks. Otherwise the chunks are the first candidate's list, unchanged. |
| GeminiService.ChunkToSource | services/geminiService.ts:55-63 | A chunk yields a source exactly when it has a web part with a non-empty URI. The URI is carried unchanged. A present, non-empty title is kept, otherwise the title is "Web Source". |
| GeminiService.CollectSources | services/geminiService.ts:53-64 | At most one source per chunk, and each source has a non-empty URI and a non-empty title. |
| GeminiService.CollectSourcesAppend | services/geminiService.ts:53-64 | Collecting keeps the chunks' order: the sources of two chunk lists joined are the sources of the first followed by those of the second. |
| GeminiService.CollectSourcesMembers | services/geminiService.ts:53-64 | A source is collected exactly when some chunk converts to it. |
| GeminiService.CollectSourcesCount | services/geminiService.ts:53-64 | Exactly one source is collected per usable chunk. |
| GeminiService.FirstIndexOfUri | services/geminiService.ts:66 | `findIndex` gives the first index holding the URI, or -1 exactly when no source has it. |
| GeminiService.DedupByUri | services/geminiService.ts:66 | The result is an order-preserving subsequence with pairwise distinct URIs and the same set of URIs. Each kept source is the first source with its URI, title included. |
| GeminiService.DedupMatchesReference | services/geminiService.ts:66 | The `findIndex` filter equals a one-pass filter that remembers the URIs already kept. |
| GeminiService.DedupIdempotent | services/geminiService.ts:66 | De-duplicating twice changes nothing. A list without repeated URIs is kept whole. |
| GeminiService.ExtractedUris | services/geminiService.ts:53-64 | The collected URIs are exactly the URIs of the usable chunks. |
| GeminiService.FirstChunkWith | services/geminiService.ts:53-66 | The index of the first chunk that yields a URI: that chunk yields it and no earlier one does. It is -1 exactly when no chunk yields the URI. |
| GeminiService.CollectFirst | services/geminiService.ts:53-66 | The collected source that `findIndex` finds first for a URI is the conversion of the first chunk yielding that URI. |
| GeminiService.ExtractResult | services/geminiService.ts:48-71 | The text falls back to "No information found.". No chunks give no sources. The sources are an order-preserving subsequence of the collected ones, with distinct, non-empty URIs and non-empty titles. A URI appears exactly when some usable chunk carries it. Each kept source is the conversion of the first chunk carrying its URI. |
| MarkdownRenderer.Render | components/MarkdownRenderer.tsx:11-15 | One block per line, so the number of newlines plus one. The lines hold no newline and, joined with newlines, give back the text. Block i is the classification of line i. |
| MarkdownRenderer.ClassifyLine | components/MarkdownRenderer.tsx:15-72 | An h2 exactly for lines starting with "## ", and an h3 exactly for "### ". Their texts are the line minus that prefix. A key/value item exactly for a bold-list opening whose marker-stripped text splits into at least three parts at `**`. Its key is the second part, and its value is the rest rejoined. A list item exactly for the other list lines, showing the marker-stripped line with its bold runs unwrapped. A paragraph exactly for the other non-blank lines, with the segments as written. |
| MarkdownRenderer.KeyValueRoundTrip | components/MarkdownRenderer.tsx:32-43 | The key contains no `**`. The marker-stripped line is the text before the first `**`, then the key and the value with the two `**` put back. |
| MarkdownRenderer.SpacerIffBlank | components/MarkdownRenderer.tsx:57-59 | A line is a spacer exactly when it is all whitespace. |
| MarkdownRenderer.BoldClose | components/MarkdownRenderer.tsx:49 | The bold pattern matched at a position ends at the first `**` after it, with no line terminator before. It fails exactly when no such end exists. |
| MarkdownRenderer.BoldRuns | components/MarkdownRenderer.tsx:62 | The outside pieces with the wrapped runs between them give back the text. No run holds a line terminator or a `**`. No outside piece holds a bold match. There are no runs exactly when the text has no bold match. |
| MarkdownRenderer.StripBoldFacts | components/MarkdownRenderer.tsx:49 | Unwrapping removes exactly four asterisks per bold run, so a text with a bold match gets shorter. A text without a bold match, in particular one without `**`, is left as it is. |
| MarkdownRenderer.SplitBold | components/MarkdownRenderer.tsx:62 | The capturing split yields two parts per bold run plus one, and they concatenate back to the line. Even parts are the outside pieces, which hold no bold match. Odd parts are the captured runs with their asterisks. |
| MarkdownRenderer.SliceInner | components/MarkdownRenderer.tsx:67 | `slice(2, -2)` drops two characters from each end, giving the empty string for parts shorter than four. |
| MarkdownRenderer.SegmentAsWritten | components/MarkdownRenderer.tsx:66-69 | As written, a part is bold exactly when it starts and ends with `**`, and then shows `slice(2, -2)` of it. A plain part is shown unchanged. |
| MarkdownRenderer.ParagraphAsWritten | components/MarkdownRenderer.tsx:62-70 | As written, one segment per split part. Every captured run is bold with its own text. An outside piece is plain and unchanged exactly when it does not both start and end with `**`. |
| MarkdownRenderer.SegmentMarkup | components/MarkdownRenderer.tsx:66-69 | The markup of an as-written segment is never shorter than its part. It equals the part unless the part is a lone `**` or `***`, which comes out longer. |
| MarkdownRenderer.ParagraphAsWrittenLosesText | components/MarkdownRenderer.tsx:62-70 | As written, the line `**` becomes one empty bold segment, so its markup no longer gives back the line. |
| MarkdownRenderer.ParagraphAsWrittenDiffers | components/MarkdownRenderer.tsx:62-70 | The as-written and the corrected choices differ exactly on outside pieces that start and end with `**`. |
| MarkdownRenderer.ParagraphSegments | components/MarkdownRenderer.tsx:62-70 | Corrected: one segment per split part, and a segment is bold exactly at the captured places. |
| MarkdownRenderer.ParagraphRoundTrip | components/MarkdownRenderer.tsx:62-70 | The corrected segments give back the line exactly, and every bold segment is a run without terminators or `**`. |
| MarkdownRenderer.ParagraphKeepsLine | components/MarkdownRenderer.tsx:61-70 | The segments a paragraph block shows give back its line exactly when no outside piece is a lone `**` or `***`. |
| App.PerformSearch | App.tsx:18-25 | A blank query changes nothing and starts nothing. Any other query starts a search for that query and category, sets the loading state and clears the result and the error. |
| App.Apply | App.tsx:18-49 | Typing only changes the query, and a category change always sets the category. A submit with a blank query changes nothing. Any other submit starts a search for the current query and category, shows loading and clears the result and the error, and changes nothing else. Success stores the extracted result and keeps the error message. Failure sets the fixed message and keeps the result. A completion keeps the query and the category, and a category change keeps the query. A started search always has a non-blank query and shows loading. |
| App.BlankSubmitIgnored | App.tsx:19 | Submitting a whitespace-only query changes no state. |
| App.CategoryChangeResearches | App.tsx:43-49 | A category change searches again, under the new category, exactly when the query is not blank and the status is SUCCESS. Otherwise only the category changes. |
| App.ChipLabelsNotBlank | App.tsx:137-158 | No suggestion label is blank. |
| App.ChipSearches | App.tsx:137-158 | A chip, offered only while idle, sets the query to its label and searches under the current category. |
| App.NoBusyGuard | App.tsx:18-41 | `performSearch` has no busy check. A submit reaching it while loading starts a second search, and only the disabled button prevents that. |
| App.StepInv | App.tsx:18-119 | Every offered action and every completion of an outstanding search preserves the invariant. |
| App.Reachable | App.tsx:18-119 | After any run from the first render: at most one search is outstanding, a result is held exactly in SUCCESS, and an error message is held only in ERROR. |

## Left out

- The model call itself, the API-key client, logging and the rethrow are left out. The model's response is an input value, and a failed call is the `Failed` event.
- The prompt template's wording is left out. Only the per-category instruction that goes into it is modelled.
- `new URL(uri).hostname` in the reference list is left out. It is a library URL parser used only for display.
- JSX, styling, icons, animations, the mobile menu flag, `CategorySidebar` and `SearchTabs` are left out, since they are view-only.
- The overview-length hint (ResultDisplay.tsx line 94) is left out. It is a display hint only.
- React batching and overlapping completions are not modelled. A completion is one discrete event. `App.Sys` counts the outstanding searches, and a completion is applied only while one is outstanding.
- ResultDisplay's `result.markdownText || ""` guard is not modelled, because `types.ts` declares the text as a required string. The empty text is modelled.
- SourceList.CategoryIgnoresCase: holds for ASCII case only, because `toLowerCase` is modelled on ASCII letters only. Full Unicode case mapping is a library table.
- GeminiService.ParseCategory: does not model keys such as `"constructor"`, which reach JavaScript's object prototype. Every other key behaves as modelled.
- `SearchTabs.tsx` refers to a session type that the shown types do not define. No session store is modelled.

## Findings

| source | as written | input that shows it | evidently intended | confidence | as-written member | corrected member |
|---|---|---|---|---|---|---|
| components/MarkdownRenderer.tsx:66-67 | Every split part that starts and ends with `**` is rendered bold. This includes outside pieces, such as a lone `**` or `***`, or `**a` followed by a carriage return and `b**`, that the bold pattern did not match. | The paragraph line `**` renders as one empty bold element, so the two asterisks vanish. | Only the runs the split captured (the odd places) are bold, and other text is shown as typed. | medium; not executed | MarkdownRenderer.ParagraphAsWrittenLosesText | MarkdownRenderer.ParagraphRoundTrip |
