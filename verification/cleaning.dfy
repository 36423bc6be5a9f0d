/**
  Normalisation of the language model's raw completion before it is handed
  to the JSON parser (app.py:284-288): trim, peel one code fence, peel a
  leading `json` language tag.
 */
module Cleaning {
  import opened Text

  /** The Markdown code-fence marker. */
  const Fence := "```"

  /** The language tag that may follow an opening fence. */
  const LanguageTag := "json"

  /** The fence branch as the source writes it: split at the fence, take
      the second piece, split that again at the fence and keep its first
      piece. */
  function Unfence(t: string): string
    requires StartsWith(t, Fence)
  {
    assert OccursAt(t, Fence, 0);
    Split(Split(t, Fence)[1], Fence)[0]
  }

  /** Reference reading of the fence branch: the text after the opening
      fence, up to the next fence or to the end when there is none. */
  function FencedBody(t: string): string
    requires StartsWith(t, Fence)
  {
    var rest := t[|Fence|..];
    match Find(rest, Fence)
    case None => rest
    case Some(k) => rest[..k]
  }

  /** The text the tag check is applied to: the trimmed completion, unfenced
      when it opens with a fence. The fence branch is written with
      `FencedBody`, which `UnfenceIsFencedBody` proves equal to the source's
      double split on every input. */
  function Unwrapped(raw: string): string {
    var t := Strip(raw);
    if StartsWith(t, Fence) then FencedBody(t) else t
  }

  /** Drops a leading language tag and trims what follows it. */
  function DropTag(u: string): string {
    if StartsWith(u, LanguageTag) then Strip(u[|LanguageTag|..]) else u
  }

  /** The cleaned completion that the parser receives. */
  function CleanCompletion(raw: string): string {
    DropTag(Unwrapped(raw))
  }

  /** The fence branch never indexes past the end of the split: a string
      that opens with the fence splits into an empty head and at least one
      more piece. */
  lemma FenceSplitNeverFails(t: string)
    requires StartsWith(t, Fence)
    ensures |Split(t, Fence)| >= 2
    ensures Split(t, Fence)[0] == ""
  {
    assert OccursAt(t, Fence, 0);
    assert Find(t, Fence) == Some(0);
  }

  /** The source's double split is exactly the reference reading, and the
      segment it keeps holds no fence. */
  lemma UnfenceIsFencedBody(t: string)
    requires StartsWith(t, Fence)
    ensures Unfence(t) == FencedBody(t)
    ensures !Contains(Unfence(t), Fence)
    ensures |Unfence(t)| <= |t| - |Fence|
  {
    assert OccursAt(t, Fence, 0);
    assert Find(t, Fence) == Some(0);
    var rest := t[|Fence|..];
    assert Split(t, Fence) == [t[..0]] + Split(rest, Fence);
    var piece := Split(rest, Fence)[0];
    match Find(rest, Fence)
    case None =>
      assert piece == rest;
    case Some(k) =>
      assert piece == rest[..k];
    assert !Contains(piece, Fence);
    assert Find(piece, Fence) == None;
    assert Split(piece, Fence) == [piece];
  }

  /** With neither a fence nor a tag in front, cleaning is just trimming. */
  lemma CleanPlain(raw: string)
    requires !StartsWith(Strip(raw), Fence)
    requires !StartsWith(Strip(raw), LanguageTag)
    ensures CleanCompletion(raw) == Strip(raw)
  {
  }

  /** A fenced completion yields what the source's double split keeps,
      with the tag handled, and never contains a fence. */
  lemma CleanFenced(raw: string)
    requires StartsWith(Strip(raw), Fence)
    ensures CleanCompletion(raw) == DropTag(Unfence(Strip(raw)))
    ensures !Contains(CleanCompletion(raw), Fence)
  {
    var t := Strip(raw);
    UnfenceIsFencedBody(t);
    assert Unwrapped(raw) == FencedBody(t);
    DropTagFenceFree(Unfence(t));
  }

  /** Dropping the tag cannot introduce a fence. */
  lemma DropTagFenceFree(u: string)
    requires !Contains(u, Fence)
    ensures !Contains(DropTag(u), Fence)
  {
    if StartsWith(u, LanguageTag) {
      NotContainsSlice(u, Fence, |LanguageTag|, |u|);
      assert u[|LanguageTag|..|u|] == u[|LanguageTag|..];
      NotContainsStrip(u[|LanguageTag|..], Fence);
    }
  }

  /** A leading tag is dropped and the rest trimmed, whether or not a fence
      came first. */
  lemma CleanTagged(raw: string)
    requires StartsWith(Unwrapped(raw), LanguageTag)
    ensures CleanCompletion(raw) == Strip(Unwrapped(raw)[|LanguageTag|..])
    ensures |CleanCompletion(raw)| <= |Unwrapped(raw)| - |LanguageTag|
  {
    var v := Unwrapped(raw)[|LanguageTag|..];
    var a, b := StripSpan(v);
  }

  /** The tag is stripped even without a fence: `jsonX` cleans to `X`. */
  lemma CleanTagWithoutFence()
    ensures CleanCompletion("jsonX") == "X"
  {
    StripNoEdgeSpace("jsonX");
    assert !StartsWith("jsonX", Fence);
    assert Unwrapped("jsonX") == "jsonX";
    assert "jsonX"[|LanguageTag|..] == "X";
    StripNoEdgeSpace("X");
  }

  /** The fenced body is a slice of the fenced text. */
  lemma FencedBodyIsSlice(t: string) returns (c: nat, d: nat)
    requires StartsWith(t, Fence)
    ensures c <= d <= |t|
    ensures FencedBody(t) == t[c..d]
  {
    var rest := t[|Fence|..];
    match Find(rest, Fence)
    case None =>
      c, d := |Fence|, |t|;
    case Some(k) =>
      c, d := |Fence|, |Fence| + k;
      assert rest[..k] == t[c..d];
  }

  /** The trimmed, possibly unfenced text is a slice of the raw completion. */
  lemma UnwrappedIsSlice(raw: string) returns (a: nat, b: nat)
    ensures a <= b <= |raw|
    ensures Unwrapped(raw) == raw[a..b]
  {
    var a1, b1 := StripSpan(raw);
    var t := Strip(raw);
    if StartsWith(t, Fence) {
      var c, d := FencedBodyIsSlice(t);
      SliceOfSlice(raw, a1, b1, c, d);
      a, b := a1 + c, a1 + d;
    } else {
      a, b := a1, b1;
    }
  }

  /** Dropping the tag keeps a slice of the text. */
  lemma DropTagIsSlice(u: string) returns (c: nat, d: nat)
    ensures c <= d <= |u|
    ensures DropTag(u) == u[c..d]
  {
    if StartsWith(u, LanguageTag) {
      var v := u[|LanguageTag|..];
      var x, y := StripSpan(v);
      SliceOfSlice(u, |LanguageTag|, |u|, x, y);
      assert u[|LanguageTag|..|u|] == v;
      c, d := |LanguageTag| + x, |LanguageTag| + y;
    } else {
      c, d := 0, |u|;
    }
  }

  /** Dropping the tag from a slice of `s` keeps a slice of `s`. */
  lemma DropTagOfSlice(s: string, a: nat, b: nat) returns (c: nat, d: nat)
    requires a <= b <= |s|
    ensures c <= d <= |s|
    ensures DropTag(s[a..b]) == s[c..d]
  {
    var u := s[a..b];
    var x, y := DropTagIsSlice(u);
    SliceOfSlice(s, a, b, x, y);
    c, d := a + x, a + y;
  }

  /** The cleaned text is a contiguous slice of the raw completion, so it is
      never longer than it. */
  lemma CleanIsSlice(raw: string) returns (a: nat, b: nat)
    ensures a <= b <= |raw|
    ensures CleanCompletion(raw) == raw[a..b]
  {
    var a2, b2 := UnwrappedIsSlice(raw);
    a, b := DropTagOfSlice(raw, a2, b2);
  }
}
