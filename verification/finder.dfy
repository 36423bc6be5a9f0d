/**
  The query path of the product finder (app.py:239-301): retrieve the top
  chunks, ask the language model, clean and parse its completion, and shape
  the answer record. The retriever, the language model and the JSON parser
  are parameters; each call may raise, and a raise anywhere in the path ends
  in the catch-all error record.
 */
module Finder {
  import opened Text
  import opened Cleaning
  import opened Prompt

  /** The outcome of a call that may raise an exception. */
  datatype Attempt<T> = Done(value: T) | Raised(message: string)

  /** The outcome of `json.loads`: a value, a `JSONDecodeError`, or some other
      exception, which is not caught by the inner handler. */
  datatype ParseOutcome<J> = Decoded(value: J) | DecodeError | ParseRaised(message: string)

  /** What `product_finder` returns: an `{"error": ...}` record, the parsed
      value unchanged, or the record describing a completion that did not
      parse. */
  datatype Answer<J> =
    | ErrorRecord(error: string)
    | Parsed(value: J)
    | RawRecord(rawResponse: string, contextChunks: nat, note: string)

  /** The number of chunks asked of the retriever (`search_kwargs={"k": 5}`). */
  const TopK: nat := 5

  const NoProducts := "No relevant products found in the catalog"
  const FailurePrefix := "Search failed: "
  const FormatNote := "AI response format needs adjustment"

  /** The retriever: the query and the number of chunks asked for. */
  type Retriever = (string, nat) -> Attempt<seq<Document>>

  /** The language model: the prompt to the completion. */
  type Model = string -> Attempt<string>

  /** `json.loads` on the cleaned completion. */
  type Parser<J> = string -> ParseOutcome<J>

  /** The record of the catch-all handler. */
  function Failure<J>(message: string): (r: Answer<J>)
    ensures r.ErrorRecord? && StartsWith(r.error, FailurePrefix)
    ensures r.error[|FailurePrefix|..] == message
  {
    ErrorRecord(FailurePrefix + message)
  }

  /** The top-level keys of an answer; a parsed value is returned as the
      parser produced it, so its keys are whatever `keysOf` says they are. */
  function Keys<J>(a: Answer<J>, keysOf: J -> set<string>): (keys: set<string>)
    ensures "error" in keys <==> a.ErrorRecord? || (a.Parsed? && "error" in keysOf(a.value))
    ensures a.RawRecord? ==> keys == {"raw_response", "context_chunks", "note"}
  {
    match a
    case ErrorRecord(_) => {"error"}
    case Parsed(v) => keysOf(v)
    case RawRecord(_, _, _) => {"raw_response", "context_chunks", "note"}
  }

  /** Everything after the model has answered (app.py:284-298, and the outer
      handler for a parser exception other than a decode error). */
  function Interpret<J>(docs: seq<Document>, completion: string, parse: Parser<J>): (r: Answer<J>)
    ensures r.Parsed? <==> parse(CleanCompletion(completion)).Decoded?
    ensures r.Parsed? ==> r.value == parse(CleanCompletion(completion)).value
    ensures r.RawRecord? <==> parse(CleanCompletion(completion)) == DecodeError
    ensures r.RawRecord? ==> r == RawRecord(CleanCompletion(completion), |docs|, FormatNote)
    ensures r.ErrorRecord? <==> parse(CleanCompletion(completion)).ParseRaised?
    ensures r.ErrorRecord? ==> r == Failure(parse(CleanCompletion(completion)).message)
  {
    var cleaned := CleanCompletion(completion);
    match parse(cleaned)
    case Decoded(v) => Parsed(v)
    case DecodeError => RawRecord(cleaned, |docs|, FormatNote)
    case ParseRaised(m) => Failure(m)
  }

  /** The prompt the model receives for a query and the retrieved chunks. */
  function PromptFor(query: string, docs: seq<Document>): string {
    BuildPrompt(Context(docs), query)
  }

  /** `product_finder(query, vectorstore, llm)`. */
  function ProductFinder<J>(query: string, retrieve: Retriever, llm: Model, parse: Parser<J>): (r: Answer<J>)
    ensures retrieve(query, TopK) == Done([]) ==> r == ErrorRecord(NoProducts)
    ensures retrieve(query, TopK).Raised? ==> r == Failure(retrieve(query, TopK).message)
    ensures && retrieve(query, TopK).Done? && |retrieve(query, TopK).value| > 0
            && llm(PromptFor(query, retrieve(query, TopK).value)).Raised?
            ==> r == Failure(llm(PromptFor(query, retrieve(query, TopK).value)).message)
    ensures r.ErrorRecord? ==> r.error == NoProducts || StartsWith(r.error, FailurePrefix)
    ensures r.Parsed? ==>
      parse(CleanCompletion(llm(PromptFor(query, retrieve(query, TopK).value)).value)) == Decoded(r.value)
    ensures !r.ErrorRecord? ==>
      && retrieve(query, TopK).Done?
      && |retrieve(query, TopK).value| > 0
      && llm(PromptFor(query, retrieve(query, TopK).value)).Done?
    ensures && retrieve(query, TopK).Done? && |retrieve(query, TopK).value| > 0
            && llm(PromptFor(query, retrieve(query, TopK).value)).Done?
            ==> r == Interpret(retrieve(query, TopK).value,
                               llm(PromptFor(query, retrieve(query, TopK).value)).value, parse)
    ensures r.RawRecord? ==>
      && r.contextChunks == |retrieve(query, TopK).value|
      && r.note == FormatNote
      && r.rawResponse == CleanCompletion(llm(PromptFor(query, retrieve(query, TopK).value)).value)
  {
    match retrieve(query, TopK)
    case Raised(m) => Failure(m)
    case Done(docs) =>
      if |docs| == 0 then ErrorRecord(NoProducts)
      else
        match llm(PromptFor(query, docs))
        case Raised(m) => Failure(m)
        case Done(completion) => Interpret(docs, completion, parse)
  }

  /** An empty retrieval answers without consulting the model or the
      parser: any two of them give the same error record. */
  lemma EmptyRetrievalSkipsModel<J>(query: string, retrieve: Retriever,
                                    llm1: Model, parse1: Parser<J>, llm2: Model, parse2: Parser<J>)
    requires retrieve(query, TopK) == Done([])
    ensures ProductFinder(query, retrieve, llm1, parse1) == ProductFinder(query, retrieve, llm2, parse2)
    ensures ProductFinder(query, retrieve, llm1, parse1) == ErrorRecord(NoProducts)
  {
  }

  /** The answer is an error record exactly when the retrieval raised or
      came back empty, the model raised, or the parser raised something other
      than a decode error. */
  lemma ErrorExactly<J>(query: string, retrieve: Retriever, llm: Model, parse: Parser<J>)
    ensures ProductFinder(query, retrieve, llm, parse).ErrorRecord? <==>
      || retrieve(query, TopK).Raised?
      || retrieve(query, TopK) == Done([])
      || llm(PromptFor(query, retrieve(query, TopK).value)).Raised?
      || parse(CleanCompletion(llm(PromptFor(query, retrieve(query, TopK).value)).value)).ParseRaised?
  {
    match retrieve(query, TopK)
    case Raised(_) =>
    case Done(docs) =>
      if |docs| > 0 {
        assert retrieve(query, TopK) != Done([]);
      }
  }

  /** A retriever that returns at most the number of chunks asked for. */
  ghost predicate HonoursLimit(retrieve: Retriever) {
    forall q: string, k: nat :: retrieve(q, k).Done? ==> |retrieve(q, k).value| <= k
  }

  /** The chunk count reported with an unparsed completion is the whole
      retrieval, between one and five chunks when the retriever honours
      `k`, not the three that went into the context. */
  lemma RawRecordChunkCount<J>(query: string, retrieve: Retriever, llm: Model, parse: Parser<J>)
    requires HonoursLimit(retrieve)
    requires ProductFinder(query, retrieve, llm, parse).RawRecord?
    ensures 1 <= ProductFinder(query, retrieve, llm, parse).contextChunks <= TopK
  {
    var docs := retrieve(query, TopK).value;
    assert |docs| <= TopK;
  }

  /** Retrievals that agree on their first three chunks and on their length
      give the same answer: later chunks only count towards
      `context_chunks`. */
  lemma AnswerIgnoresLaterChunks<J>(query: string, retrieve1: Retriever, retrieve2: Retriever,
                                    llm: Model, parse: Parser<J>)
    requires retrieve1(query, TopK).Done? && retrieve2(query, TopK).Done?
    requires var d1, d2 := retrieve1(query, TopK).value, retrieve2(query, TopK).value;
      |d1| == |d2| && Take(d1, ContextLimit) == Take(d2, ContextLimit)
    ensures ProductFinder(query, retrieve1, llm, parse) == ProductFinder(query, retrieve2, llm, parse)
  {
    var d1, d2 := retrieve1(query, TopK).value, retrieve2(query, TopK).value;
    assert Context(d1) == Context(d2);
    assert PromptFor(query, d1) == PromptFor(query, d2);
  }

  /** The completion matters only through its cleaned text. */
  lemma AnswerThroughCleaning<J>(docs: seq<Document>, c1: string, c2: string, parse: Parser<J>)
    requires CleanCompletion(c1) == CleanCompletion(c2)
    ensures Interpret(docs, c1, parse) == Interpret(docs, c2, parse)
  {
  }

  /** A text between two fences that ends the fenced span: it holds no
      fence and does not end in a backtick, which would merge with the
      closing fence. */
  ghost predicate FenceSafe(j: string) {
    !Contains(j, Fence) && (|j| == 0 || j[|j| - 1] != '`')
  }

  /** A completion of the form ```json<j>``` with `j` fence-safe cleans to
      `j` trimmed. */
  lemma FencedJsonCleans(j: string)
    requires FenceSafe(j)
    ensures CleanCompletion(Fence + LanguageTag + j + Fence) == Strip(j)
  {
    var body := LanguageTag + j;
    TaggedFenceSafe(j);
    var raw := Fence + body + Fence;
    assert raw == Fence + LanguageTag + j + Fence;
    FencedOnce(body);
    assert Unwrapped(raw) == body;
    DropLeadingTag(j);
    assert CleanCompletion(raw) == DropTag(body);
  }

  /** Putting the tag in front keeps a text fence-safe. */
  lemma TaggedFenceSafe(j: string)
    requires FenceSafe(j)
    ensures FenceSafe(LanguageTag + j)
  {
    var body := LanguageTag + j;
    forall i | 0 <= i && i + |Fence| <= |body|
      ensures !OccursAt(body, Fence, i)
    {
      if i < |LanguageTag| {
        assert body[i] == LanguageTag[i] != '`';
      } else {
        assert body[i..i + |Fence|] == j[i - |LanguageTag|..i - |LanguageTag| + |Fence|];
        assert !OccursAt(j, Fence, i - |LanguageTag|);
      }
    }
    assert body[|body| - 1] == if |j| == 0 then 'n' else j[|j| - 1];
  }

  /** A backtick at the end of the fenced text is taken into the closing
      fence: the text after the opening fence is cut at the first three
      backticks, so the last one is left out of the cleaned text. */
  lemma TrailingBacktickJoinsFence(j: string)
    requires FenceSafe(j)
    ensures CleanCompletion(Fence + LanguageTag + j + "`" + Fence) == Strip(j)
  {
    var body := LanguageTag + j;
    TaggedFenceSafe(j);
    var raw := Fence + LanguageTag + j + "`" + Fence;
    assert raw == Fence + (body + Fence + "`");
    assert raw[0] == '`' && raw[|raw| - 1] == '`';
    StripNoEdgeSpace(raw);
    FencedBodyCut(body, "`");
    assert Unwrapped(raw) == body;
    DropLeadingTag(j);
  }

  /** After the opening fence, a fence-safe text is cut off at the fence that
      follows it, whatever comes after that fence. */
  lemma FencedBodyCut(body: string, extra: string)
    requires FenceSafe(body)
    ensures StartsWith(Fence + (body + Fence + extra), Fence)
    ensures FencedBody(Fence + (body + Fence + extra)) == body
  {
    var rest := body + Fence + extra;
    assert (Fence + rest)[|Fence|..] == rest;
    FirstFenceAfter(body);
    assert rest[..|body| + |Fence|] == body + Fence;
    FindInPrefix(rest, Fence, |body| + |Fence|, |body|);
    assert rest[..|body|] == body;
  }

  /** A fence-safe text between two fences is trimmed as it is and
      unwrapped to itself. */
  lemma FencedOnce(body: string)
    requires FenceSafe(body)
    ensures var raw := Fence + body + Fence;
      Strip(raw) == raw && StartsWith(raw, Fence) && FencedBody(raw) == body
  {
    var raw := Fence + body + Fence;
    assert raw[0] == '`' && raw[|raw| - 1] == '`';
    StripNoEdgeSpace(raw);
    assert raw[|Fence|..] == body + Fence;
    FirstFenceAfter(body);
  }

  /** The tag in front of a text is dropped and the text trimmed. */
  lemma DropLeadingTag(j: string)
    ensures DropTag(LanguageTag + j) == Strip(j)
  {
    assert (LanguageTag + j)[|LanguageTag|..] == j;
  }

  /** In a fence-safe text followed by a fence, the first fence is the
      appended one. */
  lemma FirstFenceAfter(body: string)
    requires FenceSafe(body)
    ensures Find(body + Fence, Fence) == Some(|body|)
  {
    var s := body + Fence;
    assert OccursAt(s, Fence, |body|);
    forall i | 0 <= i < |body|
      ensures !OccursAt(s, Fence, i)
    {
      if i + |Fence| <= |body| {
        assert s[i..i + |Fence|] == body[i..i + |Fence|];
        assert !OccursAt(body, Fence, i);
      } else {
        // The occurrence would cover the last character of `body`.
        assert s[i..i + |Fence|][|body| - 1 - i] == s[|body| - 1] == body[|body| - 1];
      }
    }
  }

  /** A fenced JSON completion that parses is returned as the parsed value. */
  lemma FencedJsonParsed<J>(query: string, retrieve: Retriever, llm: Model, parse: Parser<J>,
                            j: string, v: J)
    requires retrieve(query, TopK).Done? && |retrieve(query, TopK).value| > 0
    requires llm(PromptFor(query, retrieve(query, TopK).value)) == Done(Fence + LanguageTag + j + Fence)
    requires FenceSafe(j)
    requires parse(Strip(j)) == Decoded(v)
    ensures ProductFinder(query, retrieve, llm, parse) == Parsed(v)
  {
    FencedJsonCleans(j);
  }

  /** Prose that does not parse comes back in a raw record, trimmed
      but otherwise as the model wrote it, with the chunk count and the note,
      and no error key. */
  lemma ProseGivesRawRecord<J>(query: string, retrieve: Retriever, llm: Model, parse: Parser<J>,
                               prose: string, keysOf: J -> set<string>)
    requires retrieve(query, TopK).Done? && |retrieve(query, TopK).value| > 0
    requires llm(PromptFor(query, retrieve(query, TopK).value)) == Done(prose)
    requires !StartsWith(Strip(prose), Fence) && !StartsWith(Strip(prose), LanguageTag)
    requires parse(Strip(prose)) == DecodeError
    ensures var r := ProductFinder(query, retrieve, llm, parse);
      && r == RawRecord(Strip(prose), |retrieve(query, TopK).value|, FormatNote)
      && "error" !in Keys(r, keysOf)
  {
    CleanPlain(prose);
  }
}
