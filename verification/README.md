# ThornLumina product finder — query path

A Dafny model of `product_finder` in `app.py`, the one piece of hand-written
logic on the catalogue assistant's query path. A customer query goes to the
vector-store retriever, which is asked for the five most similar chunks. An
empty retrieval is answered with a fixed error record. Otherwise the first
three chunks are joined into a context and substituted, with the query, into
a fixed prompt that asks for a JSON product specification. The language
model's completion is then cleaned: it is trimmed, one code fence is peeled,
and a leading `json` tag is dropped. The cleaned text is parsed. A successful
parse is returned unchanged. A decode error yields a record with the cleaned
text, the chunk count and a note. Any other exception yields a
`Search failed: …` error record.

The model is split into four modules, one per concern:

- `Text` (`text.dfy`) models the Python string operations the path relies on:
  - `str.strip()` over the full `str.isspace()` character set;
  - `startswith`;
  - the leftmost-occurrence scan that `split` performs (`Find`), with
    `Contains` as the vocabulary for stating where a pattern occurs;
  - `split` with a non-empty separator;
  - `join`.

  Each one is characterised independently of how it is computed.
- `Cleaning` (`cleaning.dfy`) is the normalisation of the completion.
  - `CleanCompletion` uses a reference reading of the fence branch, `FencedBody`.
  - That reading is proved equal to the source's literal
    `split('```')[1].split('```')[0]`, which is modelled as `Unfence`.
- `Prompt` (`prompt.dfy`) covers the context join and the prompt template.
  - The template is a two-slot `Template` filled verbatim.
  - `Unfill` reads a filled template back; it is the partner that the round
    trip is proved against.
- `Finder` (`finder.dfy`) is the dispatcher.
  - The retriever, the language model and `json.loads` are function-valued
    parameters.
  - The retriever and the model may raise; their outcome is an `Attempt`,
    and a raise is `Attempt.Raised(message)`.
  - The parser's outcome is a `ParseOutcome`: a value (`Decoded`), a decode
    error (`DecodeError`), which the inner handler catches, or any other
    exception (`ParseRaised(message)`), which the outer handler catches.

Three facts about the code shape the answer records:

- The record for an unparsable completion carries the *cleaned* text as
  `raw_response`, not the completion as the model wrote it.
- That record has no `error` key.
- The `json` tag is dropped whether or not a fence came first.

## Model

| member | source | states |
|---|---|---|
| Text.StripCharacterised | app.py:284 | `Strip(s)` is the one slice of `s` with only whitespace outside it and no whitespace at its ends (both directions) |
| Text.StripSpan | app.py:284 | the stripped text is a slice of the input whose surroundings are all whitespace and whose ends are not |
| Text.StripIdempotent | app.py:284-288 | stripping an already stripped text changes nothing |
| Text.Strip | app.py:284 | Python's no-argument `strip`; characterised by `Text.StripCharacterised`, `Text.StripSpan` and `Text.StripIdempotent` |
| Text.StartsWith | app.py:285-287 | `startswith`: the text is at least as long as the prefix and begins with it; used by `Cleaning.Unwrapped` and `Cleaning.DropTag`, whose cases `Cleaning.CleanPlain`, `Cleaning.CleanFenced` and `Cleaning.CleanTagged` state |
| Text.Find | app.py:286 | the scan that `split('```')` performs succeeds exactly when the separator occurs, and returns its leftmost occurrence |
| Text.FindPrefixFree | app.py:286 | nothing before the first occurrence of a non-empty pattern contains it |
| Text.Split | app.py:286 | `split` yields at least one piece, no piece holds the separator, there are two or more pieces exactly when the separator occurs, joining the pieces gives back the text, and every cut is at the leftmost separator after the previous cut |
| Text.SplitCharacterised | app.py:286 | a list of pieces is what `split` returns exactly when it joins back to the text, each cut is the leftmost separator after the previous one, and the last piece holds no separator (both directions) |
| Text.Join | app.py:251 | `sep.join(parts)`; characterised by `Text.JoinLayout`, and by `Text.Split` and `Text.SplitCharacterised`, which join their pieces back to the text |
| Text.JoinLayout | app.py:251 | in `sep.join(parts)` each part sits verbatim at its offset in order, a separator follows every part but the last, and the text ends after the last part |
| Cleaning.Unfence | app.py:286 | the double split as the source writes it; `Cleaning.FenceSplitNeverFails` shows its indexing never fails and `Cleaning.UnfenceIsFencedBody` equates it with the text between the fences |
| Cleaning.Unwrapped | app.py:284-286 | the trimmed completion, unfenced when it opens with a fence; its two cases are stated by `Cleaning.CleanPlain` and `Cleaning.CleanFenced` |
| Cleaning.DropTag | app.py:287-288 | a leading `json` dropped and the rest trimmed; stated by `Cleaning.CleanTagged`, `Cleaning.CleanTagWithoutFence` and `Cleaning.DropTagFenceFree` |
| Cleaning.CleanCompletion | app.py:284-288 | the text handed to the parser; characterised case by case by `Cleaning.CleanPlain`, `Cleaning.CleanFenced` and `Cleaning.CleanTagged`, and bounded by `Cleaning.CleanIsSlice` |
| Cleaning.FenceSplitNeverFails | app.py:285-286 | a trimmed completion that opens with a fence splits into an empty head and at least one more piece, so `[1]` never fails |
| Cleaning.UnfenceIsFencedBody | app.py:285-286 | the double split keeps exactly the text between the opening fence and the next fence, or up to the end when none follows; it holds no fence and is shorter than the input by at least the fence |
| Cleaning.CleanPlain | app.py:284-288 | with neither a fence nor a tag in front, the cleaned text is exactly the trimmed completion |
| Cleaning.CleanFenced | app.py:284-288 | a fenced completion cleans to the double split's segment with the tag handled, and the cleaned text never contains a fence |
| Cleaning.DropTagFenceFree | app.py:287-288 | dropping the tag and trimming cannot introduce a fence |
| Cleaning.CleanTagged | app.py:287-288 | a leading `json` is dropped and the rest trimmed, whether or not a fence came first, leaving at least four characters fewer |
| Cleaning.CleanTagWithoutFence | app.py:287-288 | the unfenced completion `jsonX` cleans to `X` |
| Cleaning.CleanIsSlice | app.py:284-288 | the cleaned text is a contiguous slice of the raw completion, so never longer than it |
| Prompt.Take | app.py:251 | `docs[:n]` keeps the first min(n, len) items, in order |
| Prompt.Context | app.py:251 | the first three chunks joined by blank lines; characterised by `Prompt.ContextLayout`, `Prompt.ContextOfTopThree` and `Prompt.ContextIgnoresLaterChunks` |
| Prompt.ContextLayout | app.py:251 | the context holds the first min(3, n) chunks verbatim in retrieval order at increasing offsets, a blank line after each but the last, and ends after the last |
| Prompt.ContextOfTopThree | app.py:251 | with three or more chunks the context is the first three joined by blank lines |
| Prompt.ContextIgnoresLaterChunks | app.py:251 | chunks after the third never affect the context |
| Prompt.Fill | app.py:275-279 | `format` on a two-slot template, each slot replaced verbatim; its partner `Prompt.Unfill` reads it back, as `Prompt.UnfillFill` and `Prompt.FillUnfill` state |
| Prompt.BuildPrompt | app.py:253-279 | the product prompt for a context and a query; laid out by `Prompt.PromptLayout`, read back by `Prompt.PromptRoundTrip`, and shown to hold the skeleton by `Prompt.PromptShowsSkeleton` |
| Prompt.UnfillFill | app.py:275-279 | reading a filled two-slot template back gives the substituted context and query exactly when the context does not contain the text between the slots (both directions) |
| Prompt.FillUnfill | app.py:275-279 | whatever the reader accepts is a filled template whose context is free of the text between the slots |
| Prompt.PromptRoundTrip | app.py:253-279 | the product prompt can be read back into its context and query precisely when the context does not contain `\n\nCustomer Query: ` |
| Prompt.QueryHeaderNoSelfOverlap | app.py:257-259 | two occurrences of the query header can never overlap |
| Prompt.PromptLayout | app.py:253-279 | the context sits verbatim right after the preamble, the query verbatim after the context and the header, and the instructions after the query |
| Prompt.PromptShowsSkeleton | app.py:261-272 | the prompt contains the JSON skeleton |
| Prompt.SkeletonRequestsEveryField | app.py:262-270 | the skeleton opens and closes with single literal braces (the doubled braces of the template) and names the quoted key of every field |
| Finder.Failure | app.py:300-301 | the catch-all record is an error whose message is `Search failed: ` followed by the exception's message |
| Finder.Keys | app.py:290-301 | an answer has an `error` key exactly when it is an error record or a parsed value whose own keys include `error`; the unparsed-completion record's keys are exactly `raw_response`, `context_chunks` and `note` |
| Finder.Interpret | app.py:284-301 | the answer is the parsed value exactly when the cleaned text parses; it is the record holding the cleaned text, the chunk count and the note exactly on a decode error; it is `Search failed: ` with the exception's message exactly when the parser raises anything else |
| Finder.ProductFinder | app.py:239-301 | an empty retrieval gives the fixed error; a raising retriever or model gives `Search failed: ` with its message; every error is one of these two kinds; a non-error answer means the retrieval gave chunks and the model answered; a parsed answer is the parser's value for the cleaned completion; once the retrieval gave chunks and the model answered, the answer is exactly what `Finder.Interpret` gives for the completion, so a successful parse is returned as `Parsed` and a parser exception as `Search failed: ` with its message; the raw record carries the cleaned completion, the full chunk count and the note |
| Finder.EmptyRetrievalSkipsModel | app.py:247-248 | an empty retrieval gives exactly the no-products error whatever the model and the parser are |
| Finder.ErrorExactly | app.py:245-301 | the answer is an error record exactly when the retrieval raised or was empty, the model raised, or the parser raised something other than a decode error |
| Finder.RawRecordChunkCount | app.py:243 | `context_chunks` is between 1 and 5 when the retriever honours `k`, counting every retrieved chunk and not only the three used |
| Finder.AnswerIgnoresLaterChunks | app.py:251 | retrievals agreeing on their first three chunks and their length give the same answer |
| Finder.AnswerThroughCleaning | app.py:284-298 | two completions with the same cleaned text get the same answer |
| Finder.FencedJsonCleans | app.py:284-288 | a completion ```` ```json<j>``` ```` cleans to `j` trimmed when `j` holds no fence and does not end in a backtick |
| Finder.TrailingBacktickJoinsFence | app.py:285-286 | a backtick at the end of the fenced text merges with the closing fence and is lost: ```` ```json<j>```` ```` cleans to `j` trimmed, without the backtick |
| Finder.FencedJsonParsed | app.py:284-292 | a fenced JSON completion that parses is returned as the parsed value, unchanged |
| Finder.ProseGivesRawRecord | app.py:290-298 | prose that does not parse comes back trimmed in a raw record with the full chunk count and the note, with no `error` key |

## Left out

- The Streamlit page (app.py:21-157, 307-574) is left out. That includes the display of a result and the choice of fields and icons (app.py:437-483). It is presentation only.
- `initialize_llm` (app.py:162-177) is left out. Model loading and sampled generation are foreign and nondeterministic, so the model is the `Model` parameter.
- `load_vectorstore` (app.py:182-234) is left out. It covers temporary files, PDF decoding, the text splitter, embeddings and the FAISS index: library code with file I/O and floating point. Retrieval is the `Retriever` parameter, called with the query and `k = 5`.
- The internals of `json.loads` are left out. The parser is the `Parser` parameter, with three outcomes: a value, a decode error, or another exception.
- `PromptTemplate` is modelled by what `format` produces: each slot is replaced verbatim and the doubled braces come out single. Its own template parsing is not modelled.
- The chunks' metadata is left out. Only `page_content` is read on this path.
- Finder.RawRecordChunkCount: the upper bound of 5 is proved only for a retriever that returns at most `k` chunks (`HonoursLimit`). That bound is the library's promise, not something `product_finder` checks.
- Exceptions raised by `strip`, `startswith` or `split` are not modelled. They could only arise if the model returned something other than a string, and a completion is a string here.
- Python strings may hold lone surrogate code points, which Dafny's `char` cannot represent. The model covers strings of Unicode scalar values only.
- `str(e)` for an exception is taken to be the message carried by `Raised`.
