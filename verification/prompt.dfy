/**
  What the language model is asked (app.py:251-279): the context assembled
  from the top retrieved chunks, and the fixed instruction template with the
  context and the customer query substituted verbatim.
 */
module Prompt {
  import opened Text

  /** A retrieved chunk; only its text is used on the query path. */
  datatype Document = Document(pageContent: string)

  /** How many of the retrieved chunks go into the context. */
  const ContextLimit: nat := 3

  /** The blank line placed between chunks in the context. */
  const ChunkSeparator := "\n\n"

  /** Python `xs[:n]`. */
  function Take<T>(xs: seq<T>, n: nat): (r: seq<T>)
    ensures |r| == if |xs| <= n then |xs| else n
    ensures forall i :: 0 <= i < |r| ==> r[i] == xs[i]
  {
    if |xs| <= n then xs else xs[..n]
  }

  /** The page contents of `docs`, in order. */
  function Contents(docs: seq<Document>): (r: seq<string>)
    ensures |r| == |docs|
    ensures forall i :: 0 <= i < |docs| ==> r[i] == docs[i].pageContent
  {
    seq(|docs|, i requires 0 <= i < |docs| => docs[i].pageContent)
  }

  /** The page contents of the first three chunks, joined with a blank line
      between each two. */
  function Context(docs: seq<Document>): string {
    Join(Contents(Take(docs, ContextLimit)), ChunkSeparator)
  }

  /** Offset of the `k`-th chunk inside the context. */
  function ChunkOffset(docs: seq<Document>, k: nat): nat
    requires k <= |Take(docs, ContextLimit)|
  {
    JoinOffset(Contents(Take(docs, ContextLimit)), ChunkSeparator, k)
  }

  /** The context holds the first min(3, n) chunks verbatim, in retrieval
      order, each followed by a blank line except the last, and nothing
      more. */
  lemma ContextLayout(docs: seq<Document>, k: nat)
    requires k < |docs| && k < ContextLimit
    ensures OccursAt(Context(docs), docs[k].pageContent, ChunkOffset(docs, k))
    ensures k + 1 < |docs| && k + 1 < ContextLimit ==>
      OccursAt(Context(docs), ChunkSeparator, ChunkOffset(docs, k) + |docs[k].pageContent|)
    ensures k + 1 == |docs| || k + 1 == ContextLimit ==>
      |Context(docs)| == ChunkOffset(docs, k) + |docs[k].pageContent|
    ensures 0 < k ==> ChunkOffset(docs, k - 1) + |docs[k - 1].pageContent| < ChunkOffset(docs, k)
  {
    var parts := Contents(Take(docs, ContextLimit));
    assert parts[k] == docs[k].pageContent;
    JoinLayout(parts, ChunkSeparator, k);
  }

  /** Concretely: with three or more chunks the context is the first three
      joined by blank lines; chunks after the third never reach it. */
  lemma ContextOfTopThree(docs: seq<Document>)
    requires |docs| >= 3
    ensures Context(docs) == docs[0].pageContent + ChunkSeparator + docs[1].pageContent
                             + ChunkSeparator + docs[2].pageContent
  {
    var parts := Contents(Take(docs, ContextLimit));
    assert |parts| == 3;
    assert parts[1..][1..] == [parts[2]];
    calc {
      Join(parts, ChunkSeparator);
      parts[0] + ChunkSeparator + Join(parts[1..], ChunkSeparator);
      parts[0] + ChunkSeparator + (parts[1] + ChunkSeparator + Join(parts[1..][1..], ChunkSeparator));
    }
  }

  /** The context depends on the first three chunks only. */
  lemma ContextIgnoresLaterChunks(docs: seq<Document>, more: seq<Document>)
    requires |docs| >= ContextLimit
    ensures Context(docs + more) == Context(docs)
  {
    assert Take(docs + more, ContextLimit) == Take(docs, ContextLimit);
  }

  /** The first template line, up to the context slot. */
  const Preamble := "\nYou are ThornLumina's AI product specialist. Analyze the product catalog and find the best match.\n\nProduct Catalog Context:\n"

  /** The text between the context slot and the query slot. */
  const QueryHeader := "\n\nCustomer Query: "

  /** The fields of the product specification the model is asked for, with
      the hint shown for each. */
  const SpecFields: seq<(string, string)> := [
    ("product_name", "exact product name from catalog"),
    ("application", "intended use case"),
    ("wattage", "power consumption"),
    ("luminous_flux", "light output in lumens"),
    ("voltage", "operating voltage"),
    ("additional_features", "special characteristics"),
    ("recommendation_score", "confidence level (1-10)")
  ]

  /** The quoted key of a field, as it appears in the JSON skeleton. */
  function QuotedKey(name: string): string {
    "\"" + name + "\""
  }

  /** One skeleton line: two spaces of indent, the key, and the hint. */
  function FieldLine(field: (string, string)): string {
    "  " + QuotedKey(field.0) + ": \"" + field.1 + "\""
  }

  /** The skeleton lines of the given fields, one per field, in order. */
  function FieldLines(fields: seq<(string, string)>): (lines: seq<string>)
    ensures |lines| == |fields|
    ensures forall k :: 0 <= k < |fields| ==> lines[k] == FieldLine(fields[k])
  {
    if |fields| == 0 then [] else [FieldLine(fields[0])] + FieldLines(fields[1..])
  }

  /** A JSON object skeleton with the given lines; the template's doubled
      braces come out single. */
  function SkeletonOf(lines: seq<string>): string {
    "{\n" + Join(lines, ",\n") + "\n}"
  }

  /** The skeleton lines of the product template, one per field. */
  const SkeletonLines: seq<string> := FieldLines(SpecFields)

  /** The skeleton the product template shows the model. */
  const Skeleton := SkeletonOf(SkeletonLines)

  /** A prompt template with two slots, context then query: the fixed text
      before the context, between the two slots, and after the query. */
  datatype Template = Template(lead: string, between: string, trail: string)

  /** `PromptTemplate.format`: the slot values are substituted verbatim. */
  function Fill(t: Template, context: string, query: string): string {
    t.lead + context + t.between + query + t.trail
  }

  /** Reads the context and the query back out of a filled template, taking
      the first `between` text after the lead as the end of the context. */
  function Unfill(t: Template, p: string): Option<(string, string)> {
    if |p| < |t.lead| + |t.trail| then None
    else if p[..|t.lead|] != t.lead || p[|p| - |t.trail|..] != t.trail then None
    else
      var inner := p[|t.lead|..|p| - |t.trail|];
      match Find(inner, t.between)
      case None => None
      case Some(i) => Some((inner[..i], inner[i + |t.between|..]))
  }

  /** No proper suffix of `h` is also a prefix of it, so two occurrences of
      `h` can never overlap. */
  ghost predicate NoSelfOverlap(h: string) {
    forall d :: 0 < d < |h| ==> h[d..] != h[..|h| - d]
  }

  /** An occurrence of `pat` inside one part of a concatenation is an
      occurrence in the whole, shifted by what precedes it. */
  lemma OccursInConcat(a: string, x: string, b: string, pat: string, i: int)
    requires OccursAt(x, pat, i)
    ensures OccursAt(a + x + b, pat, |a| + i)
  {
    OccursShift(a, x, pat, i);
    OccursPrefix(a + x, b, pat, |a| + i);
  }

  /** A self-overlap-free text cannot start shortly before one of its own
      occurrences. */
  lemma NoStraddle(m: string, h: string, c: int, j: int)
    requires NoSelfOverlap(h)
    requires OccursAt(m, h, c)
    requires 0 <= j < c < j + |h|
    ensures !OccursAt(m, h, j)
  {
    var d := c - j;
    assert h[d..] != h[..|h| - d];
    if j + |h| <= |m| {
      var x, y := m[j..j + |h|], m[c..c + |h|];
      forall t | 0 <= t < |h| - d
        ensures x[d..][t] == y[..|h| - d][t]
      {
        assert x[d + t] == y[t];
      }
      assert x[d..] == y[..|h| - d];
    }
  }

  /** When the context is free of a self-overlap-free `h`, the first `h` in
      context + h + query is the one right after the context. */
  lemma FindAfterContext(context: string, h: string, query: string)
    requires NoSelfOverlap(h)
    requires !Contains(context, h)
    ensures Find(context + h + query, h) == Some(|context|)
  {
    var inner := context + h + query;
    OccursInConcat(context, h, query, h, 0);
    assert OccursAt(inner, h, |context| + 0);
    forall j | 0 <= j < |context|
      ensures !OccursAt(inner, h, j)
    {
      if j + |h| <= |context| {
        assert inner[j..j + |h|] == context[j..j + |h|];
        assert !OccursAt(context, h, j);
      } else {
        NoStraddle(inner, h, |context|, j);
      }
    }
  }

  /** When the context holds `h`, the first `h` in context + h + query starts
      inside the context. */
  lemma FindInsideContext(context: string, h: string, query: string) returns (i: nat)
    requires |h| > 0
    requires Contains(context, h)
    ensures Find(context + h + query, h) == Some(i)
    ensures i < |context|
  {
    var j :| OccursAt(context, h, j);
    OccursInConcat([], context, h + query, h, j);
    assert context + h + query == [] + context + (h + query);
    assert OccursAt(context + h + query, h, j);
    i := Find(context + h + query, h).value;
  }

  /** The pieces `Unfill` sees in a filled template. */
  lemma FillPieces(t: Template, context: string, query: string)
    ensures var p := Fill(t, context, query);
      && |p| >= |t.lead| + |t.trail|
      && p[..|t.lead|] == t.lead
      && p[|p| - |t.trail|..] == t.trail
      && p[|t.lead|..|p| - |t.trail|] == context + t.between + query
  {
    var p := Fill(t, context, query);
    assert p == t.lead + (context + t.between + query) + t.trail;
  }

  /** Filling then reading back is the identity exactly when the context
      does not contain the `between` text. */
  lemma UnfillFill(t: Template, context: string, query: string)
    requires |t.between| > 0
    requires NoSelfOverlap(t.between)
    ensures Unfill(t, Fill(t, context, query)) == Some((context, query))
            <==> !Contains(context, t.between)
  {
    var h := t.between;
    var inner := context + h + query;
    FillPieces(t, context, query);
    if !Contains(context, h) {
      FindAfterContext(context, h, query);
      assert inner[..|context|] == context;
      assert inner[|context| + |h|..] == query;
    } else {
      var i := FindInsideContext(context, h, query);
      assert |inner[..i]| < |context|;
    }
  }

  /** Whatever `Unfill` accepts is a filled template whose context is free
      of the `between` text. */
  lemma FillUnfill(t: Template, p: string, context: string, query: string)
    requires |t.between| > 0
    requires Unfill(t, p) == Some((context, query))
    ensures Fill(t, context, query) == p
    ensures !Contains(context, t.between)
  {
    var h := t.between;
    var inner := p[|t.lead|..|p| - |t.trail|];
    var i := Find(inner, h).value;
    assert context == inner[..i] && query == inner[i + |h|..];
    FindPrefixFree(inner, h, i);
    SplitAtOccurrence(inner, h, i);
    ThreeParts(p, |t.lead|, |t.trail|);
    FillRegroup(t, context, query, inner, p);
  }

  /** A filled template is the lead, the middle, and the trail. */
  lemma FillRegroup(t: Template, context: string, query: string, inner: string, p: string)
    requires inner == context + t.between + query
    requires p == t.lead + inner + t.trail
    ensures Fill(t, context, query) == p
  {
  }

  /** The context and the query sit verbatim in the prompt, context first,
      and the trailing text closes it. */
  lemma FillLayout(t: Template, context: string, query: string)
    ensures OccursAt(Fill(t, context, query), context, |t.lead|)
    ensures OccursAt(Fill(t, context, query), query, |t.lead| + |context| + |t.between|)
    ensures OccursAt(Fill(t, context, query), t.trail,
                     |t.lead| + |context| + |t.between| + |query|)
  {
    var p := Fill(t, context, query);
    OccursInConcat(t.lead, context, t.between + query + t.trail, context, 0);
    assert p == t.lead + context + (t.between + query + t.trail);
    OccursInConcat(t.lead + context + t.between, query, t.trail, query, 0);
    OccursInConcat(t.lead + context + t.between + query, t.trail, [], t.trail, 0);
    assert p == t.lead + context + t.between + query + t.trail + [];
  }

  const InstructionsIntro := "\n\nFind the most relevant lighting product and return ONLY valid JSON:\n"
  const InstructionsOutro := "\n\nUse \"Not specified\" for missing information.\n"

  /** Everything after the query slot. */
  const Instructions := InstructionsIntro + Skeleton + InstructionsOutro

  /** The product finder's template (app.py:253-273). */
  const ProductTemplate := Template(Preamble, QueryHeader, Instructions)

  /** The product template with the context and the query substituted. */
  function BuildPrompt(context: string, query: string): string {
    Fill(ProductTemplate, context, query)
  }

  /** The query header's line breaks never line up with its own text. */
  lemma QueryHeaderNoSelfOverlap()
    ensures NoSelfOverlap(QueryHeader)
  {
    assert QueryHeader == "\n\n" + "Customer Query: ";
    assert '\n' !in "Customer Query: ";
    BlankLineHeader("Customer Query: ");
  }

  /** A header made of a blank line and then one line of text never
      overlaps itself: every shift puts a line break against text. */
  lemma BlankLineHeader(r: string)
    requires 0 < |r| && '\n' !in r
    ensures NoSelfOverlap("\n\n" + r)
  {
    var h := "\n\n" + r;
    forall d | 0 < d < |h|
      ensures h[d..] != h[..|h| - d]
    {
      if d >= 2 {
        assert h[d..][0] == r[d - 2];
        assert h[..|h| - d][0] == '\n';
      } else {
        assert h[d..][1] == r[0];
        assert h[..|h| - d][1] == '\n';
      }
    }
  }

  /** The product prompt can be read back into its context and query
      precisely when the context does not contain the query header. */
  lemma PromptRoundTrip(context: string, query: string)
    ensures Unfill(ProductTemplate, BuildPrompt(context, query)) == Some((context, query))
            <==> !Contains(context, QueryHeader)
  {
    QueryHeaderNoSelfOverlap();
    UnfillFill(ProductTemplate, context, query);
  }

  /** In the product prompt the context precedes the query, both verbatim. */
  lemma PromptLayout(context: string, query: string)
    ensures OccursAt(BuildPrompt(context, query), context, |Preamble|)
    ensures OccursAt(BuildPrompt(context, query), query, |Preamble| + |context| + |QueryHeader|)
    ensures OccursAt(BuildPrompt(context, query), Instructions,
                     |Preamble| + |context| + |QueryHeader| + |query|)
  {
    FillLayout(ProductTemplate, context, query);
  }

  /** The product prompt shows the model the JSON skeleton. */
  lemma PromptShowsSkeleton(context: string, query: string)
    ensures Contains(BuildPrompt(context, query), Skeleton)
  {
    SkeletonInInstructions();
    TrailContained(ProductTemplate, context, query, Skeleton, |InstructionsIntro|);
  }

  /** Whatever occurs in the trailing text is contained in the filled
      template. */
  lemma TrailContained(t: Template, context: string, query: string, y: string, k: int)
    requires OccursAt(t.trail, y, k)
    ensures Contains(Fill(t, context, query), y)
  {
    FillLayout(t, context, query);
    ContainsVia(Fill(t, context, query), t.trail, y,
                |t.lead| + |context| + |t.between| + |query|, k);
  }

  /** What occurs inside an occurrence is contained in the whole. */
  lemma ContainsVia(s: string, x: string, y: string, i: int, k: int)
    requires OccursAt(s, x, i) && OccursAt(x, y, k)
    ensures Contains(s, y)
  {
    OccursTrans(s, x, y, i, k);
  }

  lemma SkeletonInInstructions()
    ensures OccursAt(Instructions, Skeleton, |InstructionsIntro|)
  {
    OccursInConcat(InstructionsIntro, Skeleton, InstructionsOutro, Skeleton, 0);
  }

  /** A skeleton opens and closes with a single literal brace. */
  lemma SkeletonBraces(lines: seq<string>)
    ensures var sk := SkeletonOf(lines);
      sk[0] == '{' && sk[1] == '\n' && sk[|sk| - 2] == '\n' && sk[|sk| - 1] == '}'
  {
  }

  /** A skeleton names the key of each of its field lines. */
  lemma SkeletonHasKey(lines: seq<string>, k: nat, field: (string, string))
    requires k < |lines| && lines[k] == FieldLine(field)
    ensures Contains(SkeletonOf(lines), QuotedKey(field.0))
  {
    JoinLayout(lines, ",\n", k);
    var off := JoinOffset(lines, ",\n", k);
    OccursInConcat("{\n", Join(lines, ",\n"), "\n}", lines[k], off);
    KeyInLine(field);
    ContainsVia(SkeletonOf(lines), lines[k], QuotedKey(field.0), 2 + off, 2);
  }

  /** A field line names its key after the indent. */
  lemma KeyInLine(field: (string, string))
    ensures OccursAt(FieldLine(field), QuotedKey(field.0), 2)
  {
    var key := QuotedKey(field.0);
    OccursInConcat("  ", key, ": \"" + field.1 + "\"", key, 0);
    assert FieldLine(field) == "  " + key + (": \"" + field.1 + "\"");
  }

  /** The product prompt asks for every field of the specification record,
      inside single literal braces. */
  lemma SkeletonRequestsEveryField(k: nat)
    requires k < |SpecFields|
    ensures Skeleton[0] == '{' && Skeleton[1] == '\n'
    ensures Skeleton[|Skeleton| - 2] == '\n' && Skeleton[|Skeleton| - 1] == '}'
    ensures Contains(Skeleton, QuotedKey(SpecFields[k].0))
  {
    SkeletonBraces(SkeletonLines);
    SkeletonHasKey(SkeletonLines, k, SpecFields[k]);
  }
}
