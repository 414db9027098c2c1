# Synerge Reader — a verified model of its text, retrieval and answer-stream logic

Synerge Reader is a reading assistant. A user uploads documents and selects a
passage. They then ask a question about it, and a language model answers
through a small Python backend. The model here covers the parts of the system
that compute with strings, lists and integers.

- **Backend `chunk_text`.** It splits an uploaded document into
  whitespace-separated words. It then packs the words greedily into chunks of
  at most `max_chunk_size` characters.
- **Backend retrieval.** `get_relevant_history` scores earlier question and
  answer rows by keyword hits. `get_relevant_chunks` scores document chunks by
  how many words they share with the question. Both drop the rows that score
  zero, sort by score (highest first, ties kept in fetch order) and keep the
  first few.
- **Backend `analyze_question`.** It builds a one-line description of a
  question.
- **Backend `ask_question`.** It falls back to the selection, or to a fixed
  text, when retrieval finds nothing. It combines the context and wraps it
  with the question into the prompt.
- **Backend `stream_generate`.** It relays the model's tokens, then appends at
  most two trailers. The first is `\n\n__ERROR__<message>__` when the request
  to the model failed. The second is `\n\n__ENTRY_ID__<id>__` once a
  non-empty answer is stored, or `\n\n__ERROR__Database error occurred__`
  when storing it failed.
- **Two frontend decoders of that stream.**
  - The grid layout (`GridApp.jsx`) buffers the whole body. It takes out the
    first `__ENTRY_ID__<digits>__` match and trims the rest.
  - The single-page layout (`App.jsx`) classifies each received chunk on its
    own. A chunk that contains a marker never reaches the answer.
- **Frontend state updates.**
  - The document list: replace by name, append, then sort by name.
  - Upload validation, extraction dispatch and upload-error labelling
    (`FileUpload.js`).
  - The admin dashboard's star colour, rating filter (with JavaScript's
    `parseInt`) and star string.

Modules, one per file: `Text` (whitespace, splitting, trimming, joining,
substring search), `Decimal` (numerals), `Markers` (the trailer strings and
the two regular expressions the frontends match against them), `Chunker`,
`Retrieval`, `Analysis`, `Ask`, `GridApp`, `App`, `FileUpload` and
`AdminDashboard`.

The code that updates things step by step is modelled as methods with loops,
each proved against a specification function:

- the packing loop;
- the scoring loops;
- the analysis builder;
- the token loop of `stream_generate`;
- the read loops of both `handleAsk`s;
- the validation, extraction and labelling loops of `processFiles`.

React components are classes whose fields are their state variables. Their
handlers are methods whose `ensures` clauses give the whole new state.

Inputs from outside the modelled code become parameters:

- rows fetched from the database;
- lines sent by the language model;
- the outcome of a `fetch`;
- the decoded chunks of a response body;
- text extracted from a file;
- the result array of an upload.

## Model

| member | source | states |
|---|---|---|
| Text.SplitEmptyIffBlank | synerge-reader-backend/main.py:138-141 | `text.split()` is empty exactly when the text is empty or whitespace only |
| Text.SplitJoin | synerge-reader-backend/main.py:155 | splitting a chunk joined with single spaces gives back its words |
| Text.TrimEmptyIffBlank | synerge-reader-frontend/src/GridApp.jsx:72 | `s.trim()` is empty exactly when `s` is whitespace only |
| Text.TrimHasNoOuterSpace | synerge-reader-backend/main.py:513 | a stripped string neither starts nor ends with whitespace |
| Text.TrimEndsWithTrimmed | synerge-reader-backend/main.py:510-513 | stripping `a + b` with a non-blank `b` leaves a string that ends with `b.strip()` |
| Text.TrimsToEmpty | synerge-reader-frontend/src/App.jsx:51 | the guard `!s.trim()` holds exactly when `s` is whitespace only |
| Text.Split | synerge-reader-backend/main.py:141 | `text.split()` gives only non-empty words without whitespace |
| Text.ToLower | synerge-reader-backend/main.py:222 | `lower()` keeps the length and lower-cases each character on its own |
| Text.JoinStartsWithFirst | synerge-reader-backend/main.py:229 | a joined list starts with its first piece |
| Text.JoinHasEach | synerge-reader-backend/main.py:229 | a joined list contains every one of its pieces |
| Decimal.ParsePrinted | synerge-reader-frontend/src/GridApp.jsx:112 | reading back the decimal digits that `str(n)` prints gives `n` |
| Decimal.NatToString | synerge-reader-backend/main.py:590 | `str(n)` is a non-empty run of digits with no leading zero |
| Chunker.ChunkText | synerge-reader-backend/main.py:127-162 | the loop yields the packing function's chunks. Blank text gives no chunks. The chunks' words are exactly `text.split()` in order. Every chunk is non-empty and within the budget unless it is a single word. A chunk was closed only because the next word would not fit |
| Chunker.PackWords | synerge-reader-backend/main.py:141-160 | the loop over the words yields the packing function's groups, each joined with single spaces |
| Chunker.Pack | synerge-reader-backend/main.py:145-160 | the packing produces no empty group. Its other guarantees are in `PackFlattens` and `PackShape` |
| Chunker.PackFlattens | synerge-reader-backend/main.py:141-160 | packing neither loses, duplicates nor reorders a word |
| Chunker.PackShape | synerge-reader-backend/main.py:147-160 | every group is non-empty, made of words and within the budget, and consecutive groups meet the greedy rule |
| Chunker.JoinedLength | synerge-reader-backend/main.py:147-149 | the computed `current_size` is the length of the chunk joined with spaces |
| Chunker.ChunksOfText | synerge-reader-backend/main.py:138-162 | the chunk-level guarantees, derived from the packing |
| Chunker.WordsOfJoinAll | synerge-reader-backend/main.py:155-160 | splitting the joined chunks again gives the packed words, in order |
| Retrieval.SortByScore | synerge-reader-backend/main.py:280 | the sorted list is a permutation of its input and has non-increasing scores |
| Retrieval.SortIsStable | synerge-reader-backend/main.py:280 | for every score, the elements with that score keep their input order |
| Retrieval.InsertByScoreFacts | synerge-reader-backend/main.py:280 | inserting into a list sorted by decreasing score keeps it sorted and adds exactly that element |
| Retrieval.InsertKeepsOtherScores | synerge-reader-backend/main.py:280 | inserting keeps the order among equal scores: the new element comes first among its score |
| Retrieval.Take | synerge-reader-backend/main.py:281 | `xs[:limit]` is a prefix, of length `min(limit, len)` for a non-negative limit |
| Retrieval.TakeKeepsTheBest | synerge-reader-backend/main.py:280-281 | each kept element, by position, scores at least as high as each element after the cut in the sorted list, duplicates included. No left-out element scores higher than a kept one |
| Retrieval.TakeSortedFrom | synerge-reader-backend/main.py:280-281 | the sorted slice has non-increasing scores and holds only input elements |
| Retrieval.GetRelevantHistory | synerge-reader-backend/main.py:250-281 | the result is the top slice of the sorted positive-score rows. Each result is a fetched row with its true, positive score. Scores are non-increasing and there are at most `limit` results |
| Retrieval.HistoryCandidatesSound | synerge-reader-backend/main.py:255-277 | a scored row is kept exactly when it was fetched and its score is positive |
| Retrieval.HistoryScore | synerge-reader-backend/main.py:257-265 | a row scores 0 to 3 |
| Retrieval.HistoryScoreRange | synerge-reader-backend/main.py:257-265 | the score is 0 to 3, and positive exactly when a question word or a selection word occurs in the row |
| Retrieval.EmptySelectionScoresQuestionOnly | synerge-reader-backend/main.py:264-265 | with an empty selection the selection bonus never applies |
| Retrieval.Overlap | synerge-reader-backend/main.py:309-311 | the overlap is at most the number of distinct lower-cased words of the question and of the chunk |
| Retrieval.OverlapPositiveIffShared | synerge-reader-backend/main.py:309-311 | the overlap is positive exactly when the question and the chunk share a lower-cased word |
| Retrieval.ChunkCandidatesSound | synerge-reader-backend/main.py:307-312 | a scored chunk is kept exactly when it is a fetched chunk with its true, positive overlap |
| Retrieval.ScoreChunks | synerge-reader-backend/main.py:307-312 | the scoring loop yields each fetched chunk with a positive overlap, scored by that overlap, in fetch order |
| Retrieval.RelevantChunksFacts | synerge-reader-backend/main.py:307-316 | every returned chunk shares a word with the question and was fetched. Overlaps do not increase, and at most `top_k` are returned |
| Retrieval.GetRelevantChunks | synerge-reader-backend/main.py:293-316 | the result is the top slice of the sorted positive-overlap chunks. Each result shares a word with the question and is a fetched chunk. Overlaps are non-increasing and there are at most `top_k` results |
| Analysis.AnalyzeQuestion | synerge-reader-backend/main.py:204-229 | the loop-built string is the analysis parts joined with `"; "` |
| Analysis.CollectLongWords | synerge-reader-backend/main.py:222 | the comprehension keeps exactly the words longer than three characters, in order |
| Analysis.LongWordsAreLong | synerge-reader-backend/main.py:222 | each kept word is longer than three characters and comes from the split question |
| Analysis.KeyTermsBounded | synerge-reader-backend/main.py:222-223 | at most five key terms, each longer than three characters and a word of the lower-cased question |
| Analysis.AnalysisPartsFacts | synerge-reader-backend/main.py:208-229 | each question type is listed exactly when one of its keywords occurs. The key terms follow the types. The context length comes last exactly when there is a selection |
| Analysis.QuestionTypesFacts | synerge-reader-backend/main.py:208-219 | at most three types are listed, only the three labels, each exactly when one of its keywords occurs in the lower-cased question |
| Analysis.PartsDiffer | synerge-reader-backend/main.py:212-227 | the three labels, the key-terms part and the context part are pairwise different |
| Analysis.PartsLayout | synerge-reader-backend/main.py:221-229 | the key terms follow the question types, and the context length comes last exactly when there is a selection |
| Analysis.PartsTypes | synerge-reader-backend/main.py:208-219 | a type label is in the analysis exactly when one of its keywords occurs in the lower-cased question |
| Analysis.AnalysisNamesEachPart | synerge-reader-backend/main.py:221-229 | the returned string starts with its first part and contains every part. So each detected type label, the key terms and, with a selection, the context length appear in it |
| Markers.FindEntry | synerge-reader-frontend/src/GridApp.jsx:110 | the leftmost position where `/__ENTRY_ID__(\d+)__/` matches, or none when it matches nowhere |
| Markers.RegexEntryMatchIsMaximalRun | synerge-reader-frontend/src/GridApp.jsx:110 | a backtracking match of the pattern at a position is exactly the maximal digit run followed by `__` |
| Markers.TrailerIsFirstMatch | synerge-reader-backend/main.py:590 | in marker-free text followed by the entry trailer, the first match is the trailer's, and its digits print the id |
| Markers.TrailerMatches | synerge-reader-backend/main.py:590 | the entry trailer is itself a match of the id pattern, ending where the trailer ends, whose digits print the id |
| Markers.NoMatchBeforeTrailer | synerge-reader-frontend/src/GridApp.jsx:110 | no match starts inside marker-free text or on the trailer's two line feeds |
| Markers.EntryMatchHasNoSpace | synerge-reader-frontend/src/GridApp.jsx:110 | a match of the id pattern holds no whitespace |
| Markers.EntryMatchInPrefix | synerge-reader-frontend/src/GridApp.jsx:110 | a match that lies inside a prefix is a match there too, with the same end and digits |
| Markers.FindError | synerge-reader-frontend/src/App.jsx:98 | the capture of `/__ERROR__(.*)__/` at its leftmost match (greedy up to the last `__` on the line), or none when it matches nowhere |
| Markers.FindErrorAt | synerge-reader-frontend/src/App.jsx:98 | the leftmost position where the error pattern matches decides the capture |
| Markers.ErrorTrailerMatch | synerge-reader-backend/main.py:553 | the error pattern matched at the trailer's marker captures a single-line message exactly |
| Markers.ErrorTrailerCaptured | synerge-reader-backend/main.py:594 | for a single-line message, the error pattern captures exactly the message of the backend's error trailer |
| Markers.EntryTrailer | synerge-reader-backend/main.py:590 | the `__ENTRY_ID__` marker follows the two line feeds and the trailer ends with `__`. `TrailerMatches` shows the id pattern matches it |
| Markers.ErrorTrailer | synerge-reader-backend/main.py:553 | the `__ERROR__` marker follows the two line feeds and the trailer ends with `__`. `ErrorTrailerCaptured` shows the error pattern captures its message |
| Ask.ContextChunks | synerge-reader-backend/main.py:498-502 | the context is never empty. It is the retrieved chunks when any were found, else `[selected_text]` when there is a selection |
| Ask.CombinedText | synerge-reader-backend/main.py:507-515 | the combined text is never empty and has no outer whitespace |
| Ask.StrippedOrNotice | synerge-reader-backend/main.py:513-515 | the stripped text, or the notice when that is empty, is never empty and has no outer whitespace. Blank input gives the notice |
| Ask.BlankInputsGivePlaceholder | synerge-reader-backend/main.py:508-515 | blank context and a blank selection give `"No context provided."` |
| Ask.SnippetEndsWithSelection | synerge-reader-backend/main.py:510-513 | with a non-blank selection the combined text ends with the stripped selection |
| Ask.SelectionOnlyAppearsTwice | synerge-reader-backend/main.py:499-513 | when retrieval finds nothing, the selection appears twice in the combined text, joined by a blank line |
| Ask.PromptSnippetRoundTrip | synerge-reader-backend/main.py:520 | a combined text without `<` is recovered from the prompt between the snippet tags |
| Ask.Prompt | synerge-reader-backend/main.py:520 | the prompt opens with the snippet tag, closes with the question tag and is exactly as long as the fixed parts and both texts |
| Ask.FirstOccurrence | synerge-reader-backend/main.py:520 | the leftmost occurrence at or after a position, or none when there is none |
| Ask.TrimDoubled | synerge-reader-backend/main.py:510-513 | stripping a non-blank selection joined to itself by a blank line strips only the outer ends |
| Ask.AskQuestion | synerge-reader-backend/main.py:494-520 | the prompt is built from the three best chunks, after the fallback, combined and wrapped, and is longer than its fixed parts plus the question |
| Ask.StreamGenerate | synerge-reader-backend/main.py:527-594 | the loop yields the tokens, then the failure trailer, then the storing trailer, and the accumulated answer is the tokens joined |
| Ask.TokensAreNonEmpty | synerge-reader-backend/main.py:546-549 | only non-empty tokens are yielded |
| Ask.AnswerEmptyIffNoToken | synerge-reader-backend/main.py:556-557 | the full answer is empty exactly when no token was yielded |
| Ask.StreamOrder | synerge-reader-backend/main.py:539-594 | the tokens come first and at most two trailers follow. The entry trailer is last once the answer is stored. Without tokens only the failure trailer is sent |
| Ask.StreamBody | synerge-reader-backend/main.py:549-594 | the body is the answer followed by the trailers' text |
| Ask.Emitted | synerge-reader-backend/main.py:539-594 | the tokens come first, followed by at most two more pieces |
| Ask.Closing | synerge-reader-backend/main.py:556-594 | at most one trailer reports the storing, and only for a non-empty answer of a known user |
| GridApp.DecodeBody | synerge-reader-frontend/src/GridApp.jsx:106-115 | no id exactly when the body has no marker, and then the body is the answer unchanged |
| GridApp.DecodeTrailer | synerge-reader-frontend/src/GridApp.jsx:110-114 | only the first marker is removed and the remainder is trimmed |
| GridApp.DecodeRoundTrip | synerge-reader-frontend/src/GridApp.jsx:110-114 | for marker-free text followed by the entry trailer the id is recovered and the answer is the trimmed text |
| GridApp.BackendToGridApp | synerge-reader-backend/main.py:549-590 | the body the backend sends for a stored answer decodes to the stored id and the trimmed answer and failure trailer |
| GridApp.GridAppState.HandleAsk | synerge-reader-frontend/src/GridApp.jsx:71-132 | a blank selection sets the error and sends nothing. On success the answer is decoded from the concatenated chunks, whatever the split. Failures set the backend error. Loading ends and the ask box closes on every path past the guard |
| GridApp.ReadBody | synerge-reader-frontend/src/GridApp.jsx:97-104 | the read loop yields the chunks concatenated in order |
| GridApp.GridAppState.SendQuestion | synerge-reader-frontend/src/GridApp.jsx:77-131 | on success the answer is the decoded body, and otherwise the backend error is set. Loading ends and the box closes either way |
| GridApp.GridAppState.HandleTextSelection | synerge-reader-frontend/src/GridApp.jsx:134-139 | the box opens for a non-blank selection and is never closed here |
| App.SortByName | synerge-reader-frontend/src/App.jsx:44 | the list is sorted by name and is a permutation of its input |
| App.InsertByNameSorted | synerge-reader-frontend/src/App.jsx:44 | inserting a document into a list sorted by name keeps it sorted |
| App.NextDocumentsHasName | synerge-reader-frontend/src/App.jsx:41-46 | after the update the list is sorted, and exactly one document has the name, with the new text |
| App.NextDocumentsKeepsOthers | synerge-reader-frontend/src/App.jsx:42-43 | documents with other names are kept, nothing else joins, and unique names stay unique |
| App.NextDocumentsCounts | synerge-reader-frontend/src/App.jsx:41-46 | after the update, the new name is carried once and every other name as often as before |
| App.NextDocumentsAddsOnlyNew | synerge-reader-frontend/src/App.jsx:42-43 | every document after the update is the new one or an earlier one with another name |
| App.NextDocuments | synerge-reader-frontend/src/App.jsx:41-46 | the updated list is sorted by name and holds the new document |
| App.UniqueIffCountsAtMostOne | synerge-reader-frontend/src/App.jsx:42-43 | names are pairwise distinct exactly when no name is carried twice |
| App.AppState.HandleFileParsed | synerge-reader-frontend/src/App.jsx:40-48 | the list becomes the replaced, appended and sorted list, and the error is cleared |
| App.AppState.ReadChunks | synerge-reader-frontend/src/App.jsx:81-113 | the loop's answer, entry id, error and shown answer are those of the per-chunk fold |
| App.AppState.TakeChunk | synerge-reader-frontend/src/App.jsx:87-112 | one pass of the loop moves the answer, id, error and shown flag exactly as one step of the per-chunk fold |
| App.AppState.HandleAsk | synerge-reader-frontend/src/App.jsx:50-130 | a blank selection sets the error and sends nothing. The answer, entry id and error come from the per-chunk fold. Loading ends on every path past the guard. The box closes and the history refreshes only when the stream was read to the end |
| App.AppState.SendQuestion | synerge-reader-frontend/src/App.jsx:56-129 | a failed request sets the backend error with no answer. Otherwise the answer and id come from the per-chunk fold. Loading ends on every path |
| App.AppState.FinishAsk | synerge-reader-frontend/src/App.jsx:115-128 | a failed read sets the backend error. A complete one closes the box and loads the history, or sets the backend error when that fails. Loading ends either way |
| App.AppState.HandleTextSelection | synerge-reader-frontend/src/App.jsx:132-139 | the box is open exactly when the selection is not blank |
| App.KindOf | synerge-reader-frontend/src/App.jsx:89-107 | a chunk is taken for a marker chunk exactly when it contains `__ENTRY_ID__` or `__ERROR__` |
| App.EntryIdOf | synerge-reader-frontend/src/App.jsx:90-93 | an id is read exactly when the id pattern matches somewhere in the chunk, and then the chunk contains `__ENTRY_ID__` |
| App.ErrorOf | synerge-reader-frontend/src/App.jsx:97-105 | the error an error chunk sets is never empty |
| App.Step | synerge-reader-frontend/src/App.jsx:89-112 | one chunk never shortens the answer. A shown answer, a read id and a set error stay so |
| App.FullAnswerIsTextChunks | synerge-reader-frontend/src/App.jsx:81-112 | the answer is the in-order concatenation of exactly the chunks with neither marker, and is shown once one arrived |
| App.TextChunksHoldNoMarker | synerge-reader-frontend/src/App.jsx:89-107 | no chunk that reaches the answer contains either marker |
| App.EntryIdFromMatchingChunk | synerge-reader-frontend/src/App.jsx:89-95 | the id is that of the last chunk whose digit pattern matched, and stays null when none did |
| App.ErrorIffErrorChunk | synerge-reader-frontend/src/App.jsx:97-105 | an error is set exactly when some chunk was taken for an error chunk |
| App.ErrorTrailerChunk | synerge-reader-frontend/src/App.jsx:97-101 | a chunk that is exactly the backend's error trailer reports its message |
| App.SeparateChunksDecode | synerge-reader-frontend/src/App.jsx:81-113 | when every yielded piece arrives as its own chunk, the answer and id are recovered |
| App.TrailerSplitVersusMerged | synerge-reader-frontend/src/App.jsx:89-112 | a text chunk and the entry trailer read as two chunks give the text as the answer. Read as one chunk they lose the text. The buffering decoder gives the trimmed text either way |
| App.TrailerChunk | synerge-reader-frontend/src/App.jsx:89-93 | marker-free text followed by the entry trailer, as one chunk, is an entry chunk that yields the id |
| FileUpload.Rejection | synerge-reader-frontend/src/components/FileUpload.js:129-136 | a file is accepted exactly when it is within 20 MiB and of an allowed type. An oversized file gets the size message whatever its type, and otherwise a bad type gets the type message |
| FileUpload.ReaderFor | synerge-reader-frontend/src/components/FileUpload.js:158-167 | the dispatch finds a reader exactly for the four allowed types |
| FileUpload.ReaderForAllowed | synerge-reader-frontend/src/components/FileUpload.js:158-167 | each allowed type is dispatched to its own reader |
| FileUpload.ValidateFiles | synerge-reader-frontend/src/components/FileUpload.js:125-138 | the loop yields the accepted files and the messages of the rejected ones |
| FileUpload.PartitionCounts | synerge-reader-frontend/src/components/FileUpload.js:128-138 | every file is counted exactly once, as accepted or by its message |
| FileUpload.ErrorsEmptyIffAllAccepted | synerge-reader-frontend/src/components/FileUpload.js:128-138 | no message is collected exactly when every file is accepted |
| FileUpload.ErrorsAreNonEmpty | synerge-reader-frontend/src/components/FileUpload.js:130-135 | every collected message is non-empty |
| FileUpload.PartitionAppend | synerge-reader-frontend/src/components/FileUpload.js:128-138 | validation commutes with splitting the input, so both lists keep input order |
| FileUpload.FileLandsOnce | synerge-reader-frontend/src/components/FileUpload.js:128-138 | an accepted file is in `validFiles` and a rejected file's message is in `errorMessages` |
| FileUpload.ValidFilesAreAllowed | synerge-reader-frontend/src/components/FileUpload.js:129-137 | every accepted file is an input file within the size limit and of an allowed type |
| FileUpload.ValidationErrorEmptyIff | synerge-reader-frontend/src/components/FileUpload.js:140-144 | the error is `""` exactly when nothing was rejected, and otherwise starts with the first message |
| FileUpload.ValidationError | synerge-reader-frontend/src/components/FileUpload.js:139-143 | the error after validation is empty exactly when no message was collected |
| FileUpload.ParsedDocsFollowFiles | synerge-reader-frontend/src/components/FileUpload.js:155-179 | parsed document i comes from accepted file i. Without an extraction error, every accepted file is parsed |
| FileUpload.ParseStopsAtFailure | synerge-reader-frontend/src/components/FileUpload.js:155-179 | once an extraction fails, the remaining files change nothing |
| FileUpload.Parse | synerge-reader-frontend/src/components/FileUpload.js:153-179 | there are never more documents than accepted files, and there is one per file when no extraction failed |
| FileUpload.CollectUploadErrors | synerge-reader-frontend/src/components/FileUpload.js:183-188 | the loop yields the labelling function's messages, or the failure of reading a missing document's name |
| FileUpload.LabelStopsAtMissing | synerge-reader-frontend/src/components/FileUpload.js:184-188 | once a reporting result has no parsed document, the remaining results change nothing |
| FileUpload.LabelErrorsFacts | synerge-reader-frontend/src/components/FileUpload.js:184-188 | labelling succeeds exactly when every reporting result has a parsed document at its index, and then yields one message per reporting result |
| FileUpload.LabelNamesItsDocument | synerge-reader-frontend/src/components/FileUpload.js:185-186 | the message for reporting result i names parsed document i and comes after the earlier ones |
| FileUpload.LabelErrors | synerge-reader-frontend/src/components/FileUpload.js:183-188 | there are never more messages than results, and no message is empty |
| FileUpload.UploadError | synerge-reader-frontend/src/components/FileUpload.js:181-194 | an empty error means the upload went through and the validation left no error |
| FileUpload.FinalError | synerge-reader-frontend/src/components/FileUpload.js:139-194 | an empty final error means no file was rejected, no extraction failed and the upload went through. `CleanRunHasNoError` gives the converse |
| FileUpload.CleanRunHasNoError | synerge-reader-frontend/src/components/FileUpload.js:140-192 | nothing rejected, no extraction error and no reported error leave the error empty |
| FileUpload.UploadState.ProcessFiles | synerge-reader-frontend/src/components/FileUpload.js:124-198 | with no accepted file only the validation error is set and loading is untouched. Otherwise the final error follows the failure order, every parsed document is delivered in order, and loading ends on every path |
| FileUpload.UploadState.ParseFiles | synerge-reader-frontend/src/components/FileUpload.js:155-179 | the loop delivers the parsed documents in order and stops at the first extraction error |
| AdminDashboard.StarColorBands | synerge-reader-frontend/src/components/AdminDashboard/AdminDashboard.jsx:43-48 | every rating gets exactly one colour, each colour for exactly one band: up to 2, up to 3, up to 4, above 4 |
| AdminDashboard.GetStarColor | synerge-reader-frontend/src/components/AdminDashboard/AdminDashboard.jsx:43-48 | every rating gets one of the four colours. `StarColorBands` gives the band of each |
| AdminDashboard.ParseIntReadsNumeral | synerge-reader-frontend/src/components/AdminDashboard/AdminDashboard.jsx:52 | `parseInt` reads a decimal numeral back as its value and ignores what follows it |
| AdminDashboard.ParseIntNaN | synerge-reader-frontend/src/components/AdminDashboard/AdminDashboard.jsx:52 | text that starts with no digit, sign or whitespace is `NaN` |
| AdminDashboard.ParseUnsignedHex | synerge-reader-frontend/src/components/AdminDashboard/AdminDashboard.jsx:52 | after `0x` the digits are read in base 16, and `0x` alone is `NaN` |
| AdminDashboard.ParseInt | synerge-reader-frontend/src/components/AdminDashboard/AdminDashboard.jsx:52 | a number is read only from text that is not blank, and a negative one only after a leading `-` once whitespace is skipped |
| AdminDashboard.FilteredRatingsFacts | synerge-reader-frontend/src/components/AdminDashboard/AdminDashboard.jsx:50-53 | the filtered rows are exactly the input rows the filter shows, so the footer's count never exceeds the total |
| AdminDashboard.FilteredAppend | synerge-reader-frontend/src/components/AdminDashboard/AdminDashboard.jsx:50-53 | filtering commutes with splitting the list, so rows keep their order |
| AdminDashboard.FilterAllKeepsAll | synerge-reader-frontend/src/components/AdminDashboard/AdminDashboard.jsx:51 | the filter `"all"` keeps every row |
| AdminDashboard.FilteredRatings | synerge-reader-frontend/src/components/AdminDashboard/AdminDashboard.jsx:50-53 | the filtered list is never longer than the input and holds only input rows the filter shows |
| AdminDashboard.StarFilterKeepsThatRating | synerge-reader-frontend/src/components/AdminDashboard/AdminDashboard.jsx:109-113 | the filter of a star option keeps exactly the rows with that rating |
| AdminDashboard.Repeat | synerge-reader-frontend/src/components/AdminDashboard/AdminDashboard.jsx:140-141 | `repeat` throws exactly for a negative count, and otherwise gives that many copies |
| AdminDashboard.StarStringFacts | synerge-reader-frontend/src/components/AdminDashboard/AdminDashboard.jsx:140-141 | the star string exists exactly for ratings 0 to 5. It has five characters, the rating's number of filled stars first, then empty ones, so counting the filled stars gives the rating back |
| AdminDashboard.StarString | synerge-reader-frontend/src/components/AdminDashboard/AdminDashboard.jsx:140-141 | when both `repeat` calls succeed the star string has five characters |

## Left out

- Database, network and model I/O are not modelled. This covers the SQLite queries, every `fetch`, the Ollama requests and storing the answer. Fetched rows, model lines, fetch outcomes and upload results are parameters instead.
- `ORDER BY id DESC LIMIT 20` belongs to the query: the history rows are taken as fetched. The empty-result early returns of the two retrieval functions are part of the model.
- Unicode is not modelled. Whitespace is the ASCII set, and lower-casing maps only `A`-`Z`. Python's `split`/`strip`/`lower` and JavaScript's `trim` accept more characters.
- `TextDecoder` streaming UTF-8 decoding is not modelled: the response body arrives as already decoded string chunks.
- JSON parsing is not modelled. The model's lines arrive already classified as empty, unparsable or an object with a `response`. A malformed upload or history reply is not modelled.
- pdf.js, mammoth and `FileReader` extraction are not modelled: a reader's outcome is a function parameter. `URL.createObjectURL` and the object URL in a parsed document are not modelled.
- The embedding vectors, their floating-point values and the `[0.0]*384` fallback are not modelled.
- App.NameLe: `localeCompare` is taken as code-point order. Locale collation is not modelled.
- Ask.AskQuestion: `relevant_history` is computed as the endpoint computes it, but, as in the source, it never reaches the prompt. Nothing is stated about it there.
- FileUpload.UploadState.ProcessFiles: `FileUpload.js:178` passes one object to `onFileParsed`, while the page handlers declare `(text, name)`. The model records the delivered objects. The page's `handleFileParsed` is modelled by its declared signature.
- FileUpload.UndefinedName: the message of the `TypeError` for a result index past `parsedDocs` is V8's text. Other engines word it differently.
- AdminDashboard.ParseInt: numbers above 2^53 are exact here but lose precision in JavaScript. `-0` is read as `0`, and `===` treats them alike.
- Decimal.ParsePrinted: every numeral reads back exactly. The frontends read ids with JavaScript's `parseInt`, which rounds numerals above 2^53 to the nearest double, so there the round trip holds only up to 2^53. A SQLite rowid can reach 2^63-1.
- GridApp.DecodeBody: the id is the exact value of the captured digits. `parseInt` at `GridApp.jsx:112` rounds ids above 2^53.
- GridApp.DecodeRoundTrip: the id is recovered exactly for every id. In JavaScript only ids up to 2^53 come back unchanged.
- GridApp.BackendToGridApp: the stored id is recovered exactly for every id. In JavaScript only ids up to 2^53 come back unchanged.
- App.EntryIdOf: the id is the exact value of the captured digits. `parseInt` at `App.jsx:92` rounds ids above 2^53.
- App.SeparateChunksDecode: the id is recovered exactly for every id. In JavaScript only ids up to 2^53 come back unchanged.
- App.TrailerChunk: the id is recovered exactly for every id. In JavaScript only ids up to 2^53 come back unchanged.
- AdminDashboard.RatingRow: a rating is an integer. Fractional or non-numeric ratings from the server are not modelled.
- Rendering is not modelled. This covers the dashboard's statistics cards, the date formatting, the `substring(0, 80)` preview and every JSX tree.
- Authentication, registration, ratings storage, `/history` and `/documents` are not modelled, nor are the other components, which are event wiring.
- GridApp.GridAppState.HandleAsk: an error trailer in the body is kept in the answer text, as in the source. No property of its display is stated.
