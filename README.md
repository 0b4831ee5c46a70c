# RAG chatbot core in Dafny

A model of the retrieval core of a small retrieval-augmented chatbot web service
(`chatbot_main.py`). The service takes uploaded PDFs and extracts their text. It
cuts the text into overlapping windows ("chunks") and keeps one embedding per
chunk in an in-memory index. To answer a question, it ranks the chunks by cosine
similarity to the question and passes the three best to a chat-completion model.

The project has these modules:

- `Wrappers` (`wrappers.dfy`): `Option` and `Result`.
- `PySeq` (`pyseq.dfy`): Python slicing `s[i:j]`, including negative and
  out-of-range bounds; reversal `[::-1]`; `str.join`.
- `Chunker` (`chunker.dfy`):
  - `chunk_text`, written as an imperative method (`ChunkText`) with its
    `while` loop, proved against the function `Chunks` that states its result;
  - `str.strip()` over exactly the characters Python's `str.isspace()` accepts;
  - lemmas about the window loop and the chunks it yields.
- `Ranking` (`ranking.dfy`): `sims.argsort()[-k:][::-1]`. numpy's argsort is
  not stable, so the lemmas quantify over every admissible argsort order. A
  stable insertion argsort is given as one such order.
- `Answer` (`answer.dfy`): the fixed reply strings, `f"Indexed {n} chunks."`
  with its decimal rendering, and `generate_answer` with its missing-key guard.
- `RagIndex` (`rag_index.dfy`): the two module-level stores `texts` and
  `embeddings` as the fields of the class `Index`. `build_index`, `search`,
  the `/upload` handler and the `/ask` handler are its members.

The sentence embedder, the cosine similarity and the chat-completion call are
function parameters (`encode`, `cosine`, `complete`). The API key is an
`Option<string>` parameter. Each uploaded file is given as the outcome of
reading it (`Extraction`): its text, or the message of the exception raised.
Similarity scores are integers standing for the floating-point cosines.

Two behaviours of the code are worth stating on their own:

- A text no longer than `chunk_size` can still give more than one window,
  because the second window starts at `chunk_size - overlap`. There is one
  window per multiple of `chunk_size - overlap` below the text's length
  (`Chunker.RawWindowStarts`). With the defaults 400 and 50, a text of 351 to
  400 characters gives two windows. `Chunker.ShortTextTwoChunks` shows `"abcd"`
  with size 4 and overlap 1 giving `["abcd", "d"]`.
  `Chunker.ShortTextSingleWindow` gives the bound under which there is one.
- Equal scores come out in no fixed order: numpy's default `argsort` is not
  stable, and its result is then reversed. `Ranking.IsTopRanking` says nothing
  about the order among equal scores.

## Model

| member | source | states |
|---|---|---|
| PySeq.SliceBound | chatbot_main.py:53 | a Python slice bound: negative values count from the end, and the result is clamped to `0..n` |
| PySeq.Slice | chatbot_main.py:53 | `s[i:j]` is no longer than `s`, and no longer than `j - i` when `0 <= i <= j`; for in-range non-negative bounds it is the ordinary subsequence, with `j` clamped to the length |
| PySeq.SliceIsInfix | chatbot_main.py:53 | every slice is a contiguous run of the sliced sequence |
| PySeq.Reverse | chatbot_main.py:68 | `[::-1]` keeps the length and puts element `|s|-1-t` at position `t` |
| PySeq.Join | chatbot_main.py:169 | joining no parts gives the empty string, and one part gives that part; in general the length is the parts' total plus one separator between each pair |
| PySeq.JoinHoldsParts | chatbot_main.py:169 | part `i` occurs in the join right after the parts before it and `i` separators |
| Chunker.JoinAllSpace | chatbot_main.py:169 | the newline-joined text is all whitespace exactly when every part is |
| Chunker.IsSpace | chatbot_main.py:55 | the characters `str.strip()` removes: the ASCII whitespace (tab through carriage return, and space) is in the set, digits and ASCII letters are not; the body lists the full `str.isspace()` set |
| Chunker.SkipSpace | chatbot_main.py:55 | the left scan of `strip()` passes only whitespace and stops at the end or at the first non-whitespace character |
| Chunker.SkipSpaceBack | chatbot_main.py:55 | the right scan of `strip()` passes only whitespace, never goes below the left stop, and ends after a non-whitespace character unless it reaches that stop |
| Chunker.Strip | chatbot_main.py:55 | `strip()` leaves neither leading nor trailing whitespace and never lengthens |
| Chunker.StripTrims | chatbot_main.py:55 | `strip()` removes whitespace only, from the two ends only; it gives `""` exactly when the string is all whitespace |
| Chunker.StripUnique | chatbot_main.py:55 | any stripped string that is the input less whitespace ends is the result of `strip()` |
| Chunker.StripIdempotent | chatbot_main.py:55 | stripping twice is stripping once |
| Chunker.KeepStripped | chatbot_main.py:55 | the comprehension keeps no more items than windows, each non-empty and stripped |
| Chunker.KeepStrippedOrigin | chatbot_main.py:55 | each kept chunk is the strip of some window |
| Chunker.KeepStrippedAppend | chatbot_main.py:55 | the filter keeps window order: it distributes over concatenation |
| Chunker.KeepStrippedEmpty | chatbot_main.py:55 | the filter yields nothing exactly when every window strips to `""` |
| Chunker.Chunks | chatbot_main.py:48-55 | what `chunk_text` returns: nothing for the empty text, and every chunk non-empty and without surrounding whitespace |
| Chunker.ChunkText | chatbot_main.py:48-55 | the loop collects exactly the windows at the starts `WindowStarts` lists, then strips and filters them; an empty text gives no chunks |
| Chunker.LoopTerminatesIff | chatbot_main.py:50-54 | on a non-empty text, `start` eventually reaches the text length exactly when `overlap < chunk_size` |
| Chunker.RawWindowStarts | chatbot_main.py:50-54 | window `k` exists iff `k*(chunk_size-overlap)` is below the length, and it is `text[k*step : k*step+chunk_size]` |
| Chunker.ConsecutiveWindowsOverlap | chatbot_main.py:52-54 | window `k+1` starts with the last `min(overlap, remaining)` characters of window `k` |
| Chunker.WindowsReassemble | chatbot_main.py:50-54 | the first `chunk_size-overlap` characters of each window, concatenated, rebuild the text: no gaps, no reordering |
| Chunker.ChunkBounds | chatbot_main.py:48-55 | every chunk is non-empty, stripped, at most `chunk_size` long, and a contiguous piece of the text |
| Chunker.ChunksEmptyIff | chatbot_main.py:48-55 | no chunk comes out exactly when the text is all whitespace |
| Chunker.ShortTextSingleWindow | chatbot_main.py:48-55 | a text no longer than `chunk_size - overlap` gives one chunk, its strip, or none if that is empty |
| Chunker.ShortTextTwoChunks | chatbot_main.py:50-55 | `"abcd"` with size 4 and overlap 1 gives `["abcd", "d"]` |
| Ranking.TopK | chatbot_main.py:68 | `order[-k:][::-1]` has `TopKCount(k, n)` entries, and entry `t` is the `t`-th from the end of `order` |
| Ranking.TopKIsTopRanking | chatbot_main.py:68 | for every admissible argsort order, `order[-k:][::-1]` has `TopKCount(k, n)` distinct in-range indices, best score first, and no index left out scores higher than one taken |
| Ranking.Insert | chatbot_main.py:68 | inserting an index into a score-sorted order keeps it sorted and adds exactly that index |
| Ranking.Argsort | chatbot_main.py:68 | the stand-in argsort is an admissible numpy argsort result (a permutation of the indices, ascending by score) |
| Answer.NatToDecimal | chatbot_main.py:176 | `str(n)` is a non-empty run of digits without a leading zero |
| Answer.DecimalRoundTrip | chatbot_main.py:176 | reading the decimal string back gives `n` |
| Answer.IndexedReply | chatbot_main.py:176 | the upload reply is `"Indexed "`, then digits without a leading zero that read back as the count, then `" chunks."` |
| Answer.IndexedReplyInjective | chatbot_main.py:176 | different chunk counts give different upload replies |
| Answer.ErrorReply | chatbot_main.py:178-180 | `"Error: "` followed by the exception message, which can be read back from position 7 |
| Answer.UploadRepliesDistinct | chatbot_main.py:172-180 | the error, no-text and indexed replies of `/upload` never coincide |
| Answer.KeyMissing | chatbot_main.py:72 | a key counts as present exactly when it is set and non-empty (Python truthiness of a string) |
| Answer.UserMessage | chatbot_main.py:75-83 | the user message starts with `"Context:\n"`, holds the newline-joined contexts right after it, and ends with `"\n\nQuestion: "` and the query |
| Answer.GenerateAnswer | chatbot_main.py:71-89 | a missing or empty key gives the fixed key error; otherwise, when the client is created without error, the model's text or `"Groq API Error: "` followed by the error of the call |
| RagIndex.ExtractAll | chatbot_main.py:151-167 | succeeds exactly when every file was read, giving their texts in upload order |
| RagIndex.ReadAll | chatbot_main.py:151-167 | the per-file loop returns exactly `ExtractAll(files)`: the texts in order, or the first read failure |
| RagIndex.ExtractAllFirstFailure | chatbot_main.py:153-167 | the first file that cannot be read decides the error message |
| RagIndex.Embed | chatbot_main.py:60 | one embedding row per chunk |
| RagIndex.Index.constructor | chatbot_main.py:34-35 | the service starts with no texts and no embeddings, so the index is empty |
| RagIndex.Index.BuildIndex | chatbot_main.py:57-61 | the stores are replaced by the chunks and their embeddings, one row per text; nothing of the old index remains |
| RagIndex.Index.IsEmpty | chatbot_main.py:64 | `embeddings is None or len(texts) == 0`: a valid index that is not empty has an embedding row for each of its texts, and at least one |
| RagIndex.Index.Scores | chatbot_main.py:66-67 | one similarity score per stored text |
| RagIndex.Index.SearchIndices | chatbot_main.py:66-68 | `TopKCount(k, n)` indices forming a top ranking of the scores |
| RagIndex.Index.Search | chatbot_main.py:63-69 | an empty index gives `[]`; otherwise the texts at the top-ranked indices, best first, `TopKCount(k, n)` of them; for `k >= 1` the result is empty exactly when the index is |
| RagIndex.Index.Upload | chatbot_main.py:148-180 | an unreadable file gives `"Error: " + message` and leaves the index unchanged. Otherwise it replies "No text extracted." exactly when every file's text is whitespace only, and then leaves the index unchanged; when some text is not, it indexes exactly its default chunks and replies with their count. A non-empty index never becomes empty |
| RagIndex.Index.Ask | chatbot_main.py:182-192 | an empty index gives the fixed "No documents indexed yet" reply; otherwise the answer generated from the top three chunks, so the key error when no key is set |

## Left out

- HTTP routing, the HTML page, CORS, logging and loading `.env` are left out. They do not touch the index logic.
- Temporary files, uploaded bytes and PDF parsing (`read_pdf`) are replaced by one `Extraction` value per file. `Unreadable` stands for any exception raised while saving or reading that file.
- The sentence-transformer embedder, `cosine_similarity` and the chat-completion client are function parameters. Their numerics (floating-point vectors and scores) are not modelled.
- Exceptions raised by the embedder or by chunking inside `/upload`, and by `search` inside `/ask`, are not modelled. Nor is an exception from creating the chat client: `Groq(api_key=...)` runs outside the `try` of `generate_answer`, so `/ask` would reply `"Error: ..."` rather than `"Groq API Error: ..."`. The `"Error: ..."` replies these exceptions produce are not modelled either.
- RagIndex.Index.BuildIndex: replaces both stores in one step. The source assigns `texts` before it calls the encoder. If the encoder raises, the new texts stay paired with the old embeddings, which breaks the pairing `Index.Valid()` states. A later `search` may then fail with an index error (reply `"Error: ..."`), or rank texts by another document's scores. The model does not capture this torn state.
- Concurrent requests that interleave updates of `texts` and `embeddings` are not modelled. Each handler runs atomically in the model.
- Chunker.ChunkText: requires `overlap < chunk_size`. The source does not check this, but otherwise its loop never ends on a non-empty text (`Chunker.LoopTerminatesIff`). The precondition also excludes an empty text with `overlap >= chunk_size`, for which the source returns `[]`. The callers use the defaults 400 and 50.
- RagIndex.Index.Scores: states only the number of scores, because cosine similarity is an opaque parameter.
- Ranking.Argsort: one stable order stands in for numpy's unstable argsort. Properties of `search` are proved for every admissible order (`Ranking.TopKIsTopRanking`), but `Search` itself computes with this one.
