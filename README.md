# Manuscript service core, modelled in Dafny

The manuscript service (`services/groqService.ts`) lets a reader upload a PDF,
has a hosted language model extract its text, snippets, metadata and
"knowledge axioms", and then answers questions about it in a streamed chat. This
project models the logic of that service that does not depend on the model:

- **Chunking** (`text.dfy`, `chunker.dfy`). `chunkText` slides a window of 1800
  characters over the text with a stride of 1550 (size minus an overlap of 250).
  It keeps the windows whose trimmed length is at least 200 and stops at the first
  window that reaches the end of the text.
  - `Chunker.ChunkText` is the `while` loop. It is proved equal to the
    specification function `Chunker.Chunks`, which is written as the same scan with
    an accumulator.
  - The properties are proved about `Chunks`: which start positions are used, that
    they increase, the window contents and the length bounds.
- **Retrieval** (`retriever.dfy`). `retrieveRelevantChunks` scores every chunk.
  It gets 2 points for each query word longer than 3 characters found in the
  lower-cased chunk, duplicates counted. It gets 5 more when the query names an
  author keyword and the chunk equals the first chunk.
  - The chunks are then sorted by score, descending and stably. Those below 4 are
    dropped and the first `topK` are kept.
  - The stable sort is an insertion sort. It is proved descending and stable (per
    score, the entries keep their input order). It is also proved the only order
    with those two properties.
- **Session state** (`session.dfy`). The module-level variables become the
  fields of the class `ManuscriptSession`.
  - `ExtractAxioms` models ingestion. It clears the history, stores and later drops
    the PDF, fills each field from the parsed reply or its empty default, and
    rechunks by calling `ChunkText`.
  - `ChatWithManuscriptStream` models a chat turn. It appends the user turn,
    consumes the stream in the `ReadStream` loop, and appends the assistant turn
    when the stream completes.
  - `Throttle` models the pause between requests.
  - The class invariant `Valid` states that the chunks are always the chunks of
    the stored full text.
- **String primitives** (`text.dfy`). JavaScript's `trim` and `\s` use the
  WhiteSpace and LineTerminator code points. `toLowerCase` maps only ASCII
  letters. Also modelled are `includes`, `split(/\s+/)`, `join`, and `+=` over a
  list of fragments.

The language model is replaced by what it returns:
- for ingestion, a parsed record whose fields may each be missing, or one of three
  failures;
- for a chat turn, the list of stream deltas, and the point at which the request
  or the stream breaks, if it does.

Clock readings (`Date.now` before and after the pause) are parameters. The
fragments passed to the `onChunk` listener are returned as the list `heard`.

One behaviour of the code is easy to misread. A query that contains an author
keyword ("author", "كاتب" or "مؤلف") always gives the first chunk at least 5
points, which passes the threshold of 4. Such a query therefore retrieves at
least one chunk even when none of its words occurs in any chunk
(`Retriever.AuthorQueryNeverEmpty`). A query matching no word retrieves nothing
only without such a keyword (`Retriever.NoMatchNoResult`). The model follows the
code. The bonus tests `chunks.indexOf(chunk) === 0`, so it also goes to any later
chunk equal to the first (`Retriever.IndexOfZeroIff`).

## Model

| member | source | states |
|---|---|---|
| Text.TrimIsInnerRun | services/groqService.ts:58 | `trim` keeps the run between the leading and trailing whitespace; everything cut off is whitespace and the run neither starts nor ends with whitespace |
| Text.TrimEmptyIff | services/groqService.ts:58 | a window trims to nothing exactly when it is all whitespace |
| Text.Trim | services/groqService.ts:58 | `trim` never lengthens the text |
| Text.SplitWhitespace | services/groqService.ts:69 | `split(/\s+/)` yields at least one token, no token contains whitespace, and the tokens glued together are the text without its whitespace |
| Text.SplitWhitespaceSeparated | services/groqService.ts:69 | a text made of whitespace-free tokens separated by non-empty whitespace runs (only the first and last token may be empty) splits into exactly those tokens, in order: tokens break at every whitespace run and nowhere else |
| Text.HasSeparation | services/groqService.ts:69 | every text is whitespace-free tokens separated by whitespace runs, so the split characterization covers every text |
| Text.ToLower | services/groqService.ts:69-75 | lower-casing keeps the length and maps every character on its own |
| Text.ToLowerKeepsWhitespace | services/groqService.ts:69 | lower-casing keeps every whitespace position and leaves whitespace unchanged, so it commutes with splitting on whitespace |
| Text.ToLowerAppend | services/groqService.ts:69-75 | lower-casing a concatenation lower-cases each part |
| Text.ToLowerSeparated | services/groqService.ts:69 | lower-casing a text of tokens and whitespace runs lower-cases each token and keeps the runs |
| Text.Includes | services/groqService.ts:74-76 | a string includes only words no longer than itself |
| Text.IncludesIffOccurs | services/groqService.ts:74-76 | `includes` holds exactly when the word occurs at some position of the text |
| Text.Join | services/groqService.ts:163 | joining nothing gives the empty text; the joined text starts with the first chunk and ends with the last |
| Text.JoinIsSeparated | services/groqService.ts:163 | `join(sep)` is the elements in order with `sep` between every two consecutive ones and nowhere else |
| Text.JoinIncludes | services/groqService.ts:163 | every joined chunk occurs verbatim in the joined context |
| Chunker.Chunks | services/groqService.ts:52-63 | every chunk is at most `size` long and trims to at least 200 characters |
| Chunker.ChunkText | services/groqService.ts:52-63 | the loop returns exactly the scan `Chunks(text, size, overlap)`; it terminates whenever `overlap < size` |
| Chunker.ChunksAreWindows | services/groqService.ts:52-61 | every chunk is the window `text[s..min(s + size, |text|)]` of a start `s` inside the text that is a multiple of `size - overlap`; the starts strictly increase; each chunk is at most `size` long and trims to at least 200 characters |
| Chunker.KeptStartsExactly | services/groqService.ts:54-61 | a start is used exactly when it is a multiple of the stride inside the text, the window one stride before it did not reach the end, and its window trims to at least 200 characters |
| Chunker.ScanAppendsKeptWindows | services/groqService.ts:55-61 | the scan appends the windows of the kept starts, in order |
| Chunker.ShortTextHasNoChunks | services/groqService.ts:55-62 | a text shorter than 200 characters (the empty text included) gives no chunks, for any size and overlap |
| Chunker.DefaultChunksOfTwoThousandLetters | services/groqService.ts:52-62 | with the defaults, 2000 letters give exactly the chunks `[0, 1800)` and `[1550, 2000)` |
| Retriever.LongWords | services/groqService.ts:69 | the filter keeps every word longer than 3 characters as many times as it occurs, and no other word; it never lengthens the list |
| Retriever.LongWordsMember | services/groqService.ts:69 | a word survives the filter exactly when it is in the list and longer than 3 characters |
| Retriever.LongWordsAppend | services/groqService.ts:69 | the filter keeps the order: filtering a concatenation concatenates the filtered parts |
| Retriever.QueryWords | services/groqService.ts:69 | every query word is longer than 3 characters and contains no whitespace |
| Retriever.QueryWordsOfSeparated | services/groqService.ts:69 | for a query made of tokens and whitespace runs, the query words are exactly its tokens lower-cased, in order, duplicates kept, without those of 3 characters or fewer |
| Retriever.QueryWordsOfAnyQuery | services/groqService.ts:69 | every query has such a decomposition, so its query words are its lower-cased long tokens in order |
| Retriever.AsksForAuthorIff | services/groqService.ts:75-76 | the author test holds exactly when one of the three keywords occurs in the lower-cased query |
| Retriever.AsksForAuthorIgnoresCase | services/groqService.ts:75-76 | any casing of "author" in the query passes the author test |
| Retriever.Hits | services/groqService.ts:73-74 | the hit count never exceeds the number of query words |
| Retriever.HitsCountsPositions | services/groqService.ts:73-74 | the hit count is the number of positions of the word list whose word occurs in the chunk, so a repeated word counts every time |
| Retriever.HitsAppend | services/groqService.ts:73-74 | counting hits over two word lists adds up |
| Retriever.IndexOf | services/groqService.ts:77 | `indexOf` gives the first position holding the chunk, or -1 exactly when the chunk is absent |
| Retriever.IndexOfZeroIff | services/groqService.ts:77 | `indexOf(chunk) === 0` holds exactly when the chunk equals the first chunk |
| Retriever.Score | services/groqService.ts:71-79 | a score lies between 0 and 2 × the number of query words + 5 |
| Retriever.ScoreCounts | services/groqService.ts:71-79 | a score is 2 × the number of hit positions, plus 5 when the query asks about the author and the chunk equals `chunks[0]` |
| Retriever.PassingNeedsTwoHitsOrBonus | services/groqService.ts:70-83 | a chunk reaches the threshold 4 only with two hits or with the author bonus |
| Retriever.ScoreAllMember | services/groqService.ts:71-80 | `chunks.map` pairs a chunk with a score exactly when the chunk is one of the chunks and the score is that chunk's score |
| Retriever.SortByScore | services/groqService.ts:82 | the sort is a permutation of the scored chunks |
| Retriever.SortDescending | services/groqService.ts:82 | the sort yields scores that never increase |
| Retriever.SortStable | services/groqService.ts:82 | the entries of every score come out in their input order |
| Retriever.SortUnique | services/groqService.ts:82 | any descending order that keeps ties in input order is the sort's result |
| Retriever.AtLeast | services/groqService.ts:83 | the filter never lengthens the list and keeps only entries scoring at least the threshold |
| Retriever.Ranked | services/groqService.ts:81-83 | the ranking has no more entries than there are chunks, and every entry scores at least 4 |
| Retriever.RankedIsStableOrder | services/groqService.ts:81-83 | after sorting and filtering, the list is descending and holds, for each score of 4 or more, exactly the chunks of that score in input order |
| Retriever.RankedUnique | services/groqService.ts:81-83 | any list with those properties is the ranking |
| Retriever.Retrieve | services/groqService.ts:67-85 | the result has at most `topK` entries, and none when there are no chunks |
| Retriever.Take | services/groqService.ts:84 | `slice(0, topK)` is a prefix of at most `topK` entries, and is the whole list when that is shorter |
| Retriever.ChunksOf | services/groqService.ts:85 | the result has one chunk per entry, the entry's chunk, in order |
| Retriever.RetrieveIsRankedPrefix | services/groqService.ts:81-85 | the result is the chunks of the first `min(topK, n)` ranked entries |
| Retriever.RetrieveSound | services/groqService.ts:81-85 | every returned chunk is one of the chunks and scores at least 4 |
| Retriever.RetrieveOrdered | services/groqService.ts:81-85 | scores never increase along the result |
| Retriever.RetrieveComplete | services/groqService.ts:81-85 | when fewer than `topK` chunks are returned, every chunk scoring at least 4 is among them |
| Retriever.AuthorQueryNeverEmpty | services/groqService.ts:75-85 | an author query over some chunks with `topK > 0` retrieves at least one chunk |
| Retriever.NoMatchNoResult | services/groqService.ts:71-85 | without an author keyword, and with no query word in any chunk, nothing is retrieved |
| Session.ThrottleDelay | services/groqService.ts:89-92 | the pause is never negative; it is 0 exactly when 3500 ms have passed; otherwise it brings the gap to 3500 ms; it is at most 3500 ms when the clock has not gone back |
| Session.ThrottleDelayIsLeast | services/groqService.ts:89-92 | the pause is the least non-negative wait that makes the gap 3500 ms |
| Session.ManuscriptSession.Snippets | services/groqService.ts:150 | `getManuscriptSnippets` returns the stored snippets, those `ExtractAxioms` last stored |
| Session.ManuscriptSession.Throttle | services/groqService.ts:87-94 | the pause is `ThrottleDelay(now, last)`, the clock reading after it becomes the last request time, and nothing else changes |
| Session.ManuscriptSession.constructor | services/groqService.ts:8-16 | no history, no PDF, empty snippets, text, chunks, metadata and axioms, last request at 0; the chunks are those of the text |
| Session.ManuscriptSession.ExtractAxioms | services/groqService.ts:95-149 | the history is cleared and the last request time set. On a parsed reply, snippets, text, metadata and axioms are its fields or their defaults, the chunks are `chunkText` of the new text, the PDF is dropped and the reply's own `axioms` field is returned. On a failure the PDF stays stored, the manuscript fields are unchanged, and only a reply without content fails with the no-content error. The chunks always match the text |
| Session.ManuscriptSession.ChatWithManuscriptStream | services/groqService.ts:151-205 | the history, created if absent, gets the user turn (the prompt built from the question and the retrieved chunks) and, when the stream completes, the assistant turn holding the concatenation of what the listener heard; earlier entries are kept; on a failure only the user turn is added; the listener hears the non-empty deltas in order; the manuscript fields are unchanged |
| Session.OrElseIsOr | services/groqService.ts:137-140 | the default agrees with JavaScript's `or` on the text field: a non-empty text is kept, a missing or empty one gives `""`; arrays and objects are always truthy, so for `snippets`, `metadata` and `axioms` the `or` keeps any field present and the default replaces only a missing one |
| Session.ContentIsTruthyOrEmpty | services/groqService.ts:193 | the empty-string default of a delta's content keeps a non-empty content; a missing and an empty content both give the empty fragment |
| Session.UserTurn | services/groqService.ts:159-172 | the user turn is `AugmentedPrompt` of the question over `Retrieve(userPrompt, chunks, 2)` |
| Session.ReadStream | services/groqService.ts:191-198 | the loop hands the listener exactly the non-empty delta contents, in order, and the response is their concatenation |
| Session.NonEmptyConcat | services/groqService.ts:193-197 | skipping empty deltas does not change the concatenated response |
| Session.NonEmptyHasNoEmpty | services/groqService.ts:193-196 | no empty fragment reaches the listener |
| Session.HeardIsWholeResponse | services/groqService.ts:191-200 | when the stream completes, the assistant turn is the concatenation of every delta's content |
| Session.AugmentedPrompt | services/groqService.ts:160-171 | the user turn starts with the context header exactly when some chunk was retrieved, and then ends with the context instruction; otherwise it starts with `USER QUESTION: ` and ends with the fallback instruction |
| Session.AugmentedPromptContextInOrder | services/groqService.ts:162-168 | the context lists the retrieved chunks in ranking order, with `\n\n---\n\n` between every two |
| Session.AugmentedPromptCarriesQuestion | services/groqService.ts:160-171 | the user turn contains the question verbatim, with or without context |
| Session.AugmentedPromptCarriesContext | services/groqService.ts:161-168 | when chunks were retrieved, the user turn contains every one of them verbatim |

## Left out

- Constructing the Groq client and checking the API key (lines 40-47, called at lines 98 and 156) are not modelled. They are a foreign SDK and the process environment.
- The outbound requests (lines 114-133 and 184-190), including the system message sent with the history (lines 180-183), are not modelled. They are replaced by the `Reply` and `StreamReply` values.
- `JSON.parse` (line 136) is not modelled; a reply is already a parsed record, and `NotJson` is a reply whose text is not JSON at all. A reply that parses to a non-null value other than an object (a number, a string, an array) behaves as a record with every field missing, `Parsed(Extraction(None, None, None, None))`. A reply that parses to `null` (a `TypeError` at line 137) and fields of other types (which can store lines 137-140 and then throw at line 141) are not modelled.
- The wording of the system instruction and of the extraction prompt (lines 18-39, 101-112) is not modelled; they carry no behaviour. The two chat templates are kept as constants. The template literals' line breaks are `\n`.
- The real pause of `throttleRequest` (`setTimeout`, async suspension) is not modelled; only the pause length and the update of the last request time are.
- Logging and rethrowing (lines 145-147, 201-203) are not modelled. A failure is an `Outcome.Failure`.
- Lengths and offsets are counted in Unicode code points, since a Dafny `char` is one. JavaScript's `length`, `substring`, `trim().length` and `w.length` count UTF-16 code units, so for text outside the Basic Multilingual Plane the model's windows, the 200-character test and the 3-character word test differ from the code's, and the code's windows can split a surrogate pair, which the model cannot.
- Case mapping covers ASCII letters only. Full Unicode lower-casing is not modelled; Arabic, the script of the author keywords, has no case.
- Aliasing is not modelled. `getManuscriptSnippets` (line 150) hands out the stored snippets array itself, and `extractAxioms` returns the same axioms array it stores (lines 140, 144), so a caller that mutates either changes the session's state. The model returns values, which a caller cannot change.
- Concurrency between overlapping async calls is not modelled. Every operation runs to completion before the next starts.
- Retriever.Retrieve: `topK` is a natural number. `slice(0, topK)` with a negative `topK` counts from the end; the service only calls it with the default 2.
- Chunker.ChunkText: `overlap < size` is required. On the code itself, `overlap >= size` gives a stride of zero or less and the loop never ends for a text longer than `size`. The service only calls `chunkText` with the defaults (line 141), so that case is not reached.
- Chunker.Window: it returns the empty text for a start past the end, a case the scan never reaches.
