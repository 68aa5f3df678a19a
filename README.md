# Bear species page: extractor, image resolver and comment section

This project models, in Dafny, the three parts of the bear species site that
hold logic.

- **The species extractor** (`extractBears` in
  `frontend/src/components/BearList.tsx`). It cuts the wikitext of the bear
  species tables into table blocks at `{{Species table/end}}`. It cuts each
  block into row fragments at `{{Species table/row`. Four regular expressions
  pull out a name, a binomial, an image file name and a range. A fragment on
  which all four match becomes one record. Its image is whatever the image
  resolver returns for the trimmed file name with its first `File:` removed,
  and an empty range becomes `Unknown`. Records are pushed as
  their image lookups settle. Within a block that is in completion order, and
  each block is finished before the next one starts.
- **The image resolver** (`fetchImageUrl` in `src/services/bearImageService.ts`).
  It asks the wiki API for the image information of `File:<name>`. It takes
  the first page's first URL and keeps it only if the availability check
  accepts it. Every other outcome, a thrown error included, gives
  `media/placeholder.png`.
- **The comment section** (`frontend/src/components/CommentSection.tsx`). It
  holds a list seeded with one comment, a name field, a comment field and a
  show/hide switch. A submit with a blank field raises one of three alerts and
  changes nothing. Otherwise it appends the comment and clears both fields.

Files:

- `Text.dfy` holds the JavaScript string operations the code relies on:
  - the ECMAScript white-space set;
  - `split` with a string separator;
  - `trim`;
  - `replace` with a string pattern, which replaces the first occurrence only.
- `BearImageService.dfy` models the image resolver. The network is an input:
  the lookup's answer is a function of the request, and availability is a
  predicate.
- `BearList.dfy` models the extractor:
  - the four regular expressions as JavaScript's backtracking matcher runs
    them;
  - a declarative description of what each one captures, proved equal to the
    matcher;
  - the per-fragment record;
  - the extraction as a method in which the next lookup to settle is
    chosen nondeterministically;
  - lemmas on what every possible outcome shares.
  - `ExtractBearsInRowOrder`, the extraction with row order restored (see
    Findings).
- `WikiRows.dfy` writes rows and tables from their fields, in one fixed
  layout: `|name=` right after the row marker, then the binomial and image
  lines, then the range line ending in `(note)` and `}}`. It proves the round
  trip: a row written from well-formed fields yields the record of those
  fields. Name and binomial come back verbatim, the range verbatim unless it
  is empty (then `Unknown`), and the image is the resolver's answer for the
  file name. A table yields one record per row.
  A sample polar bear row is an instance: a one-row table whose only
  outcome is one record, with the range `"Arctic "` keeping its trailing
  space.
- `CommentSection.dfy` models the comment section as a class. Its fields are
  the component's state. Its methods are the handlers, and they keep the
  invariant that every posted comment has a non-blank name and text.

Three behaviours of the code are worth knowing before reading the model:

- **Range.** The range capture runs to the last `(` before the next `|`, not
  the first, because `[^|]*` is greedy and backtracks only as far as
  `(?=\s*\()` needs. A fragment with no such `(` yields nothing.
- **Order.** Each record is pushed when its image lookup completes, so
  within a block any order is possible. `ExtractBears` promises exactly
  that: block order, and per block the right multiset of records. Findings
  below records this, and `ExtractBearsInRowOrder` models the row-order
  behaviour. The row-order outcome is one of the code's outcomes
  (`SequentialIsAdmissible`), so every property proved for all outcomes
  holds for it too.
- **`File:`.** The first occurrence of `File:` anywhere in the trimmed file
  name is removed, not only a leading one.

## Model

| member | source | states |
|---|---|---|
| `Text.FindFrom` | frontend/src/components/BearList.tsx:35 | the result is the leftmost occurrence at or after the start; none means the text has no occurrence there |
| `Text.Split` | frontend/src/components/BearList.tsx:35 | a split always has at least one piece |
| `Text.SplitJoin` | frontend/src/components/BearList.tsx:35 | joining the pieces with the separator gives the input back |
| `Text.SplitPiecesFree` | frontend/src/components/BearList.tsx:39 | no piece of a split contains the separator |
| `Text.SplitWithoutSeparator` | frontend/src/components/BearList.tsx:39 | a text without the separator splits into itself alone |
| `Text.SplitAfterFree` | frontend/src/components/BearList.tsx:39 | a piece without the separator's first character, then the separator, splits off as the first piece |
| `Text.SplitJoinInverse` | frontend/src/components/BearList.tsx:35-39 | splitting undoes joining when no part holds the separator's first character |
| `Text.NoOccurrenceWithoutFirstChar` | frontend/src/components/BearList.tsx:35-39 | a text lacking the separator's first character does not contain the separator |
| `Text.TrimStart` | frontend/src/components/BearList.tsx:53 | the result is a suffix of the input; what was dropped is all white space; the result does not start with white space |
| `Text.TrimEnd` | frontend/src/components/BearList.tsx:53 | the result is a prefix of the input; what was dropped is all white space; the result does not end with white space |
| `Text.TrimSlice` | frontend/src/components/BearList.tsx:53 | `trim` keeps a contiguous slice that neither starts nor ends with white space, and everything around it is white space |
| `Text.TrimEmptyIffAllWhitespace` | frontend/src/components/CommentSection.tsx:43-44 | `trim` gives the empty string exactly when every character is white space |
| `Text.TrimKeepsUnpadded` | frontend/src/components/BearList.tsx:53 | a text that neither starts nor ends with white space is its own `trim` |
| `Text.ReplaceFirst` | frontend/src/components/BearList.tsx:53 | a text without the pattern is unchanged; otherwise exactly the first occurrence is replaced |
| `BearImageService.QueryFor` | src/services/bearImageService.ts:9-16 | the request names the file `File:<name>` and asks for image information with URLs, as JSON, from any origin |
| `BearImageService.QueryForInjective` | src/services/bearImageService.ts:9-16 | different file names give different requests |
| `BearImageService.Resolve` | src/services/bearImageService.ts:28-42 | the availability check is called exactly when the first page's first image entry has a URL, and with that URL; the URL is returned only if it is available; every other case gives the placeholder |
| `BearImageService.FetchImageUrl` | src/services/bearImageService.ts:8-43 | the result is the placeholder or a URL the availability check was asked about and accepted |
| `BearImageService.OnlyFirstEntryMatters` | src/services/bearImageService.ts:28-34 | pages after the first and image entries after the first never affect the result |
| `BearImageService.NoImageInfoSkipsCheck` | src/services/bearImageService.ts:31-38 | a first page without image entries gives the placeholder without calling the availability check |
| `BearImageService.FirstUrlAvailable` | src/services/bearImageService.ts:36-38 | a first URL that passes the availability check is returned |
| `BearList.LazyUntil` | frontend/src/components/BearList.tsx:42-44 | lazy `(.*?)` followed by a closing text stops at the first closing text on the same line; when it fails, no closing text is reachable without crossing a line terminator |
| `BearList.BarFrom` | frontend/src/components/BearList.tsx:45 | the greedy run of characters other than a bar stops at the next bar or at the end |
| `BearList.GreedyBack` | frontend/src/components/BearList.tsx:45 | backtracking ends the capture at the last position where the lookahead `\s*\(` holds |
| `BearList.FirstMatchFrom` | frontend/src/components/BearList.tsx:42-45 | the result is the leftmost start position at which the pattern matches |
| `BearList.LazySound` | frontend/src/components/BearList.tsx:42-44 | what the lazy matcher captures ends at the first closing text and crosses no line terminator |
| `BearList.LazyComplete` | frontend/src/components/BearList.tsx:42-44 | every capture with that description is what the lazy matcher returns |
| `BearList.LinkIff` | frontend/src/components/BearList.tsx:42 | the name pattern captures exactly the text up to the first `]]` on the same line |
| `BearList.LineIff` | frontend/src/components/BearList.tsx:43-44 | the binomial and image patterns capture exactly the rest of a line that ends in `\n` |
| `BearList.RangeSound` | frontend/src/components/BearList.tsx:45 | what the range matcher captures holds no bar, is followed by `(`, and no later `(` comes before the next bar |
| `BearList.NoParenBeforeBar` | frontend/src/components/BearList.tsx:45 | when no lookahead holds between the capture's end and the next bar, no `(` comes after that end before the bar |
| `BearList.RangeComplete` | frontend/src/components/BearList.tsx:45 | every capture with that description is what the range matcher returns |
| `BearList.MatchAtIff` | frontend/src/components/BearList.tsx:42-45 | at any start position, the matcher returns exactly the capture the declarative description allows |
| `BearList.ExecSound` | frontend/src/components/BearList.tsx:42-45 | a successful `exec` returns the capture of the leftmost match |
| `BearList.ExecComplete` | frontend/src/components/BearList.tsx:42-45 | the capture of the leftmost match is what `exec` returns |
| `BearList.ExecSomeIffMatches` | frontend/src/components/BearList.tsx:47-52 | `exec` returns null exactly when the pattern matches nowhere |
| `BearList.RowBear` | frontend/src/components/BearList.tsx:41-67 | a produced record never has an empty range |
| `BearList.RowBearIffAllMatch` | frontend/src/components/BearList.tsx:47-52 | a fragment yields a record exactly when all four patterns match it |
| `BearList.RowBearFields` | frontend/src/components/BearList.tsx:53-64 | name and binomial are the leftmost captures verbatim; the image is the resolver's answer for the trimmed capture with its first `File:` removed; an empty range capture becomes `Unknown` |
| `BearList.RowResults` | frontend/src/components/BearList.tsx:41 | one result per fragment |
| `BearList.RowsBearsAppend` | frontend/src/components/BearList.tsx:41-67 | the records of a concatenation of fragment lists are the concatenation of their records |
| `BearList.RowsBearsAround` | frontend/src/components/BearList.tsx:41-67 | the records of a list are those before a fragment, then that fragment's, then those after it |
| `BearList.RowsBearsRemove` | frontend/src/components/BearList.tsx:66 | settling one fragment removes exactly its record from what is still to come |
| `BearList.RowsBearsAtMostOnePerRow` | frontend/src/components/BearList.tsx:47-66 | each fragment yields at most one record |
| `BearList.RowsBearsFromRows` | frontend/src/components/BearList.tsx:66 | every record comes from a fragment that yields it |
| `BearList.SkippedRowIsInvisible` | frontend/src/components/BearList.tsx:47-52 | a fragment missing a field adds nothing and leaves the other records as they are |
| `BearList.SettleRows` | frontend/src/components/BearList.tsx:41-70 | whatever order the lookups settle in, the block holds each fragment's record exactly once |
| `BearList.ExtractBears` | frontend/src/components/BearList.tsx:34-74 | the output is one block per table in table order, each block holding that table's records in some order |
| `BearList.SettleIntoSlots` | frontend/src/components/BearList.tsx:41-70 | settling lookups in any order, each into its own slot, leaves every slot holding its item's result |
| `BearList.SettleRowsInOrder` | frontend/src/components/BearList.tsx:41-70 | the row-order block is the fragments' records in row order, whatever order the lookups settle in |
| `BearList.ExtractBearsInRowOrder` | frontend/src/components/BearList.tsx:34-74 | the row-order extraction returns the records of every table in row order, tables one after the other |
| `BearList.TableBlocks` | frontend/src/components/BearList.tsx:38-39 | one block per table |
| `BearList.SequentialIsAdmissible` | frontend/src/components/BearList.tsx:38-71 | settling the lookups in row order is one of the possible outcomes |
| `BearList.AdmissibleSameRecords` | frontend/src/components/BearList.tsx:38-71 | every possible outcome holds the same records, each as often, as the row-order outcome |
| `BearList.SequentialAtMostOnePerFragment` | frontend/src/components/BearList.tsx:47-66 | the row-order outcome has at most one record per fragment |
| `BearList.AdmissibleAtMostOnePerFragment` | frontend/src/components/BearList.tsx:34-74 | no outcome holds more records than the document has fragments |
| `BearList.AdmissibleFromFragments` | frontend/src/components/BearList.tsx:47-66 | every record of an outcome is what some fragment of some table yields |
| `BearList.FragmentsInAdmissible` | frontend/src/components/BearList.tsx:47-66 | the record of every fragment of every table is in every outcome |
| `BearList.EmptyDocumentHasNoBears` | frontend/src/components/BearList.tsx:35-52 | an empty document yields no records |
| `BearList.ImagesComeFromResolver` | frontend/src/components/BearList.tsx:53-59 | every record's image is the resolver's answer for some file name |
| `BearList.ImagesAreAvailableOrPlaceholder` | frontend/src/components/BearList.tsx:53-59 | with the `src/services/bearImageService.ts` resolver plugged in, every image is the placeholder or an available URL |
| `WikiRows.LineSkipsKey` | frontend/src/components/BearList.tsx:42-45 | a line whose only bar is its first character, followed by a letter other than the key's, holds no occurrence of the key |
| `WikiRows.LinesHaveOneBar` | frontend/src/components/BearList.tsx:42-44 | the name, binomial and image lines have a bar only at their start, followed by `n`, `b` and `i` |
| `WikiRows.ExecAtFirstKey` | frontend/src/components/BearList.tsx:42-45 | a capture at the first occurrence of a pattern's key is what `exec` returns |
| `WikiRows.NameCaptured` | frontend/src/components/BearList.tsx:42 | the name pattern on a written row captures the name |
| `WikiRows.BinomialCaptured` | frontend/src/components/BearList.tsx:43 | the binomial pattern on a written row captures the binomial |
| `WikiRows.ImageCaptured` | frontend/src/components/BearList.tsx:44 | the image pattern on a written row captures the image file |
| `WikiRows.RangeFits` | frontend/src/components/BearList.tsx:45 | the range written before the parenthesised note fits the range capture's description |
| `WikiRows.RangeKeyFirst` | frontend/src/components/BearList.tsx:45 | the range key first occurs where the range line starts |
| `WikiRows.RangeCaptured` | frontend/src/components/BearList.tsx:45 | the range pattern on a written row captures the range, trailing white space kept |
| `WikiRows.RowTextYields` | frontend/src/components/BearList.tsx:41-67 | a row written from well-formed fields yields exactly the record of those fields |
| `WikiRows.NoBraceInRowText` | frontend/src/components/BearList.tsx:39 | a written row holds no `{`, so no marker |
| `WikiRows.TableRows` | frontend/src/components/BearList.tsx:39 | a written table's fragments are the empty text before the first marker, then the rows |
| `WikiRows.PresentAllSome` | frontend/src/components/BearList.tsx:41-70 | when every fragment yields a record, all of them are kept, position for position |
| `WikiRows.EmptyFragmentYieldsNothing` | frontend/src/components/BearList.tsx:47-52 | the empty fragment before the first row marker yields nothing |
| `WikiRows.TableTextBears` | frontend/src/components/BearList.tsx:39-70 | a written table's records are its rows' records, in row order |
| `WikiRows.RowTextsBears` | frontend/src/components/BearList.tsx:41-70 | written rows yield their records, in row order |
| `WikiRows.OccursAtShift` | frontend/src/components/BearList.tsx:35 | an occurrence in the second part of a concatenation is an occurrence in that part |
| `WikiRows.NoTableEndInRows` | frontend/src/components/BearList.tsx:35 | text made of brace-free parts and row markers never holds the table end marker |
| `WikiRows.TableIsOneBlock` | frontend/src/components/BearList.tsx:35 | a document holding one written table is a single block |
| `WikiRows.AdmissibleOfOneTable` | frontend/src/components/BearList.tsx:38-71 | on a single block, any ordering of that block's records is an outcome |
| `WikiRows.SequentialOfOneTable` | frontend/src/components/BearList.tsx:38-71 | on a single block, the row-order outcome is that block's records |
| `WikiRows.TableDocumentSequential` | frontend/src/components/BearList.tsx:38-71 | on a written table, the row-order outcome lists the rows' records in row order |
| `WikiRows.TableDocumentOutcomes` | frontend/src/components/BearList.tsx:34-74 | every outcome on a written table holds exactly the rows' records, each once per row |
| `WikiRows.TableDocumentAnyOrder` | frontend/src/components/BearList.tsx:34-74 | conversely, every ordering of the rows' records is an outcome |
| `WikiRows.OneRecordOutcome` | frontend/src/components/BearList.tsx:34-74 | a single block with one record has that record as its only outcome |
| `WikiRows.OneRowDocument` | frontend/src/components/BearList.tsx:34-74 | a table of one written row has that row's record as its only outcome |
| `WikiRows.TwoRowOrders` | frontend/src/components/BearList.tsx:41-70 | on a single block of two records, the reversed order is an outcome and row order is the sequential one |
| `WikiRows.CompletionOrderCanReverse` | frontend/src/components/BearList.tsx:41-70 | for a written table of two rows, the outcome with the second row's record first is possible, while row order puts the first row's record first |
| `WikiRows.ExtractTableInRowOrder` | frontend/src/components/BearList.tsx:34-74 | the row-order extraction on a written table returns the rows' records in row order |
| `WikiRows.PlainFieldsWellFormed` | frontend/src/components/BearList.tsx:42-45 | fields made of letters, digits, spaces, `_`, `.` and `,` are well formed |
| `WikiRows.PlainFileName` | frontend/src/components/BearList.tsx:53 | a file name without surrounding white space and without `F` passes through trimming and the `File:` removal unchanged |
| `WikiRows.OneRowWithImage` | frontend/src/components/BearList.tsx:53-64 | a one-row table whose image file the resolver maps to a URL has one outcome, the row's record with that URL |
| `WikiRows.PolarImageResolves` | src/services/bearImageService.ts:8-43 | the `src/services/bearImageService.ts` resolver returns the first URL it finds for `Polar_bear.jpg` when that URL is available |
| `WikiRows.PolarScenario` | frontend/src/components/BearList.tsx:34-74 | the polar bear table has exactly one outcome: the polar bear record with the resolved URL and the range `Arctic ` |
| `WikiRows.ReversedExample` | frontend/src/components/BearList.tsx:41-70 | with a polar bear row then a brown bear row, the brown bear first is a possible outcome and differs from row order |
| `CommentSection.IsEmptyField` | frontend/src/components/CommentSection.tsx:43-44 | a field is empty exactly when it is all white space |
| `CommentSection.SubmitAlert` | frontend/src/components/CommentSection.tsx:20-33 | no alert exactly when both fields have content; otherwise one alert for both blank, one for a blank name, one for a blank comment |
| `CommentSection.CommentForm.constructor` | frontend/src/components/CommentSection.tsx:7-16 | the list starts with the seeded comment, both fields are empty and the list is shown |
| `CommentSection.CommentForm.EditName` | frontend/src/components/CommentSection.tsx:69-71 | the name field takes the typed value and nothing else changes |
| `CommentSection.CommentForm.EditComment` | frontend/src/components/CommentSection.tsx:82-84 | the comment field takes the typed value and nothing else changes |
| `CommentSection.CommentForm.HandleSubmit` | frontend/src/components/CommentSection.tsx:18-37 | an alert leaves the list and the fields unchanged; otherwise the comment is appended and both fields are cleared; every posted comment stays non-blank |
| `CommentSection.CommentForm.ToggleFormAndComments` | frontend/src/components/CommentSection.tsx:39-41 | visibility flips and nothing else changes |
| `CommentSection.SubmitUntouched` | frontend/src/components/CommentSection.tsx:18-22 | submitting the untouched form raises the both-empty alert and keeps one comment |
| `CommentSection.SubmitFilledIn` | frontend/src/components/CommentSection.tsx:18-37 | submitting filled-in fields gives a second comment holding them and clears the form |
| `CommentSection.SubmitMissingName` | frontend/src/components/CommentSection.tsx:24-27 | a blank name raises the name alert and keeps the typed comment |
| `CommentSection.ToggleTwice` | frontend/src/components/CommentSection.tsx:39-41 | hiding and showing again restores the form exactly |

## Findings

| source | as written | input that shows it | evidently intended | confidence | as-written member | corrected member |
|---|---|---|---|---|---|---|
| frontend/src/components/BearList.tsx:41-70 | each record is pushed when its image lookup settles, so within a table the records follow completion order | a table with a polar bear row, then a brown bear row, whose brown bear lookup settles first: the brown bear comes first | records in row order: `Promise.all` (BearList.tsx:70) already yields the results in row order, and the list renders in array order with index keys (BearList.tsx:86-87) | medium, not executed | `WikiRows.CompletionOrderCanReverse`, `WikiRows.ReversedExample` | `BearList.ExtractBearsInRowOrder`, `WikiRows.ExtractTableInRowOrder` |

## Left out

- Rendering, the effect hook, and the loading and error states of the bear
  list (`BearList.tsx` lines 9-32 and 76 onwards) are not modelled. They are
  presentation.
- Fetching the wikitext (`getBearData`) is left out. The wikitext is an input
  to `ExtractBears`.
- Real concurrency and timing are left out. Only their visible effect is
  modelled: within a block, records arrive in any order.
- The request URL (`baseUrl` and the `URLSearchParams` encoding) is left out.
  The request is modelled as its record of parameters.
- `fetch`, `res.json()` and `checkImageAvailability` are inputs to the model.
  A rejected `fetch`, a body that is not JSON and a body without
  `query.pages` all become `Failed`. A failed availability check is
  `available(u) == false`, which gives the placeholder after probing `u`.
- `console.error` is I/O and is not modelled.
- `Object.values` ordering is taken as given: the pages come as a sequence.
- `START_INDEX` only selects the first capture group, which `Exec` returns
  directly.
- The browser's `alert` becomes the value `HandleSubmit` returns.
  `preventDefault` is not modelled.
- React batches state updates. The handlers are modelled as acting on the
  state the last render saw, which is what a handler reads.
- `WikiRows` covers rows written in its one layout, with well-formed fields:
  name, binomial and image file free of `|`, `{` and line terminators, the
  name also free of `]`; range and note free of `|` and `{`, the note also
  free of `(`. Range and note may span lines. Rows laid out otherwise are
  covered by the general lemmas of `BearList` only.
- `WikiRows.PolarScenario` takes any resolver that maps `Polar_bear.jpg` to
  the URL. `WikiRows.PolarImageResolves` shows that the
  `src/services/bearImageService.ts` resolver is one; the two are stated
  separately, not as one lemma.
- `BearList.ImagesAreAvailableOrPlaceholder`: `extractBears` in
  `frontend/src/components/BearList.tsx` imports the frontend image service
  (`frontend/src/services/bearImageService.ts`), which returns the proxy's
  `imageUrl` without any availability check and passes a missing one on as
  `undefined`. The frontend variant is not part of this model: the extractor
  takes its resolver as a parameter, and the availability guarantee holds
  only when that resolver is the `src/services/bearImageService.ts` one.
- The Unicode `Zs` category inside `\s` and `trim` is fixed at the code
  points it holds today.
