/**
  String primitives with the semantics of the Python built-ins used by the
  query path: `str.strip()`, `str.startswith`, `str.split(sep)` with the
  leftmost-occurrence scan it performs, and `sep.join(parts)`. Strings are sequences of Unicode scalar values.
 */
module Text {

  datatype Option<T> = None | Some(value: T)

  /** Python's `str.isspace()` for one character: the code points whose
      bidirectional class is WS, B or S, or whose category is Zs. */
  predicate IsSpace(c: char) {
    || ('\t' <= c <= '\r')                   // U+0009 .. U+000D
    || ('\U{1C}' <= c <= '\U{1F}')           // file/group/record/unit separators
    || c == ' '
    || c == '\U{85}' || c == '\U{A0}' || c == '\U{1680}'
    || ('\U{2000}' <= c <= '\U{200A}')
    || c == '\U{2028}' || c == '\U{2029}' || c == '\U{202F}'
    || c == '\U{205F}' || c == '\U{3000}'
  }

  /** Index of the first non-space character of `s` (|s| when there is none). */
  function StripStart(s: string): (a: nat)
    ensures a <= |s|
    ensures forall i :: 0 <= i < a ==> IsSpace(s[i])
    ensures a < |s| ==> !IsSpace(s[a])
  {
    if |s| == 0 || !IsSpace(s[0]) then 0 else 1 + StripStart(s[1..])
  }

  /** One past the index of the last non-space character of `s` (0 when there is none). */
  function StripEnd(s: string): (b: nat)
    ensures b <= |s|
    ensures forall i :: b <= i < |s| ==> IsSpace(s[i])
    ensures 0 < b ==> !IsSpace(s[b - 1])
  {
    if |s| == 0 || !IsSpace(s[|s| - 1]) then |s| else StripEnd(s[..|s| - 1])
  }

  /** Python `s.strip()` with no argument. */
  function Strip(s: string): string {
    var a := StripStart(s);
    var b := StripEnd(s);
    if b <= a then [] else s[a..b]
  }

  /** s[a..b] is `s` with leading and trailing whitespace removed:
      everything outside the slice is whitespace, and the slice neither
      starts nor ends with whitespace. */
  ghost predicate Trims(s: string, a: int, b: int) {
    && 0 <= a <= b <= |s|
    && (forall i :: 0 <= i < a ==> IsSpace(s[i]))
    && (forall i :: b <= i < |s| ==> IsSpace(s[i]))
    && (a < b ==> !IsSpace(s[a]) && !IsSpace(s[b - 1]))
  }

  /** `r` is a trimmed slice of `s`. */
  ghost predicate IsStripOf(r: string, s: string) {
    exists a, b :: Trims(s, a, b) && r == s[a..b]
  }

  /** The slice of `s` that `Strip` keeps. */
  lemma StripSpan(s: string) returns (a: nat, b: nat)
    ensures Trims(s, a, b)
    ensures Strip(s) == s[a..b]
  {
    var x := StripStart(s);
    var y := StripEnd(s);
    if y <= x {
      // Everything is whitespace: keep the empty slice at the end.
      assert y == 0;
      a, b := |s|, |s|;
    } else {
      a, b := x, y;
    }
  }

  /** Any slice that satisfies the characterisation is the one `Strip` keeps. */
  lemma StripUnique(s: string, a: int, b: int)
    requires Trims(s, a, b)
    ensures s[a..b] == Strip(s)
  {
    var x := StripStart(s);
    var y := StripEnd(s);
    if a == b {
      assert forall i :: 0 <= i < |s| ==> IsSpace(s[i]);
      assert x == |s|;
      assert y == 0;
    } else {
      assert x == a;
      assert y == b;
    }
  }

  /** A string with no whitespace at either end is its own strip. */
  lemma StripNoEdgeSpace(s: string)
    requires 0 < |s| && !IsSpace(s[0]) && !IsSpace(s[|s| - 1])
    ensures Strip(s) == s
  {
    StripUnique(s, 0, |s|);
  }

  /** `Strip` meets its characterisation, and is the only string that does. */
  lemma StripCharacterised(s: string, r: string)
    ensures IsStripOf(r, s) <==> r == Strip(s)
  {
    var a0, b0 := StripSpan(s);
    if IsStripOf(r, s) {
      var a, b :| Trims(s, a, b) && r == s[a..b];
      StripUnique(s, a, b);
    }
  }

  /** Stripping twice is stripping once. */
  lemma StripIdempotent(s: string)
    ensures Strip(Strip(s)) == Strip(s)
  {
    var t := Strip(s);
    var a, b := StripSpan(s);
    if a < b {
      assert t[0] == s[a] && t[|t| - 1] == s[b - 1];
    }
    StripUnique(t, 0, |t|);
  }

  /** Python `s.startswith(p)`. */
  predicate StartsWith(s: string, p: string) {
    |p| <= |s| && s[..|p|] == p
  }

  /** `pat` occurs in `s` at offset `i`. */
  predicate OccursAt(s: string, pat: string, i: int) {
    0 <= i && i + |pat| <= |s| && s[i..i + |pat|] == pat
  }

  /** Python `pat in s`. */
  ghost predicate Contains(s: string, pat: string) {
    exists i :: OccursAt(s, pat, i)
  }

  /** A slice of a slice is a slice of the original. */
  lemma SliceOfSlice(s: string, lo: int, hi: int, c: int, d: int)
    requires 0 <= lo <= hi <= |s|
    requires 0 <= c <= d <= hi - lo
    ensures s[lo..hi][c..d] == s[lo + c..lo + d]
  {
    forall i | 0 <= i < d - c
      ensures s[lo..hi][c..d][i] == s[lo + c..lo + d][i]
    {
      assert s[lo..hi][c + i] == s[lo + c + i];
    }
  }

  /** An occurrence inside a slice is an occurrence in the whole string, shifted. */
  lemma OccursInSlice(s: string, pat: string, lo: int, hi: int, j: int)
    requires 0 <= lo <= hi <= |s|
    requires OccursAt(s[lo..hi], pat, j)
    ensures OccursAt(s, pat, lo + j)
  {
    forall t | 0 <= t < |pat|
      ensures s[lo + j..lo + j + |pat|][t] == pat[t]
    {
      assert s[lo..hi][j..j + |pat|][t] == pat[t];
    }
  }

  /** An occurrence inside an occurrence is an occurrence, offsets added. */
  lemma OccursTrans(s: string, x: string, y: string, i: int, k: int)
    requires OccursAt(s, x, i)
    requires OccursAt(x, y, k)
    ensures OccursAt(s, y, i + k)
  {
    SliceOfSlice(s, i, i + |x|, k, k + |y|);
  }

  /** An occurrence stays an occurrence when text is prepended, shifted by
      the length of that text. */
  lemma OccursShift(x: string, y: string, pat: string, i: int)
    requires OccursAt(y, pat, i)
    ensures OccursAt(x + y, pat, |x| + i)
  {
    assert (x + y)[|x| + i..|x| + i + |pat|] == y[i..i + |pat|];
  }

  /** An occurrence stays an occurrence when text is appended. */
  lemma OccursPrefix(x: string, y: string, pat: string, i: int)
    requires OccursAt(x, pat, i)
    ensures OccursAt(x + y, pat, i)
  {
    assert (x + y)[i..i + |pat|] == x[i..i + |pat|];
  }

  /** A string is its prefix, an occurrence of `pat` at `i`, and the rest. */
  lemma SplitAtOccurrence(s: string, pat: string, i: int)
    requires OccursAt(s, pat, i)
    ensures s == s[..i] + pat + s[i + |pat|..]
  {
  }

  /** A string is its first `x` characters, its middle, and its last `y`. */
  lemma ThreeParts(s: string, x: nat, y: nat)
    requires x + y <= |s|
    ensures s == s[..x] + s[x..|s| - y] + s[|s| - y..]
  {
  }

  /** A slice of a string free of `pat` is free of `pat`. */
  lemma NotContainsSlice(s: string, pat: string, lo: int, hi: int)
    requires 0 <= lo <= hi <= |s|
    requires !Contains(s, pat)
    ensures !Contains(s[lo..hi], pat)
  {
    if Contains(s[lo..hi], pat) {
      var j :| OccursAt(s[lo..hi], pat, j);
      OccursInSlice(s, pat, lo, hi, j);
    }
  }

  /** Trimming a string free of `pat` leaves it free of `pat`. */
  lemma NotContainsStrip(s: string, pat: string)
    requires !Contains(s, pat)
    ensures !Contains(Strip(s), pat)
  {
    var a, b := StripSpan(s);
    NotContainsSlice(s, pat, a, b);
  }

  /** The leftmost occurrence of `pat` in `s` at or after `start`, if any. */
  function FindFrom(s: string, pat: string, start: nat): (r: Option<nat>)
    requires start <= |s|
    decreases |s| - start
    ensures r.Some? ==> start <= r.value && OccursAt(s, pat, r.value)
    ensures r.Some? ==> forall j :: start <= j < r.value ==> !OccursAt(s, pat, j)
    ensures r.None? ==> forall j :: start <= j ==> !OccursAt(s, pat, j)
  {
    if start + |pat| > |s| then None
    else if s[start..start + |pat|] == pat then Some(start)
    else FindFrom(s, pat, start + 1)
  }

  /** The leftmost occurrence of `pat` in `s`: where `split` makes its next cut. */
  function Find(s: string, pat: string): (r: Option<nat>)
    ensures r.Some? <==> Contains(s, pat)
    ensures r.Some? ==> OccursAt(s, pat, r.value) && forall j :: 0 <= j < r.value ==> !OccursAt(s, pat, j)
  {
    FindFrom(s, pat, 0)
  }

  /** Nothing before the first occurrence of a non-empty `pat` contains it. */
  lemma FindPrefixFree(s: string, pat: string, i: nat)
    requires |pat| > 0
    requires Find(s, pat) == Some(i)
    ensures !Contains(s[..i], pat)
  {
    forall j | OccursAt(s[..i], pat, j)
      ensures false
    {
      OccursInSlice(s, pat, 0, i, j);
    }
  }

  /** Up to the end of an occurrence, a prefix of `s` has the same leftmost
      occurrence as `s` itself. */
  lemma FindInPrefix(s: string, pat: string, n: nat, i: nat)
    requires i + |pat| <= n <= |s|
    ensures Find(s, pat) == Some(i) <==> Find(s[..n], pat) == Some(i)
  {
    var p := s[..n];
    forall j | 0 <= j <= i
      ensures OccursAt(s, pat, j) <==> OccursAt(p, pat, j)
    {
      assert s[j..j + |pat|] == p[j..j + |pat|];
    }
  }

  /** Python `sep.join(parts)`. */
  function Join(parts: seq<string>, sep: string): string
    decreases |parts|
  {
    if |parts| == 0 then ""
    else if |parts| == 1 then parts[0]
    else parts[0] + sep + Join(parts[1..], sep)
  }

  /** Python `s.split(sep)` for a non-empty separator: the pieces between
      successive non-overlapping occurrences, scanning left to right. */
  function Split(s: string, sep: string): (parts: seq<string>)
    requires |sep| > 0
    decreases |s|
    ensures |parts| >= 1
    ensures forall k :: 0 <= k < |parts| ==> !Contains(parts[k], sep)
    ensures |parts| >= 2 <==> Contains(s, sep)
    ensures Join(parts, sep) == s
    ensures forall k :: 0 <= k < |parts| - 1 ==> Find(parts[k] + sep, sep) == Some(|parts[k]|)
  {
    match Find(s, sep)
    case None => [s]
    case Some(i) =>
      var head := s[..i];
      var rest := Split(s[i + |sep|..], sep);
      FindPrefixFree(s, sep, i);
      assert s == head + sep + s[i + |sep|..];
      assert head + sep == s[..i + |sep|];
      FindInPrefix(s, sep, i + |sep|, i);
      [head] + rest
  }

  /** `parts` is what splitting `s` at `sep` gives: the parts join back to
      `s`, each cut is at the leftmost separator after the previous cut,
      and the last part holds no separator. */
  ghost predicate IsSplitOf(parts: seq<string>, s: string, sep: string) {
    && |parts| >= 1
    && Join(parts, sep) == s
    && (forall k :: 0 <= k < |parts| - 1 ==> Find(parts[k] + sep, sep) == Some(|parts[k]|))
    && !Contains(parts[|parts| - 1], sep)
  }

  /** Splitting a text whose first separator ends its first part cuts that
      part off and splits the rest. */
  lemma SplitStep(s: string, sep: string, head: string, rest: string)
    requires |sep| > 0
    requires s == head + sep + rest
    requires Find(head + sep, sep) == Some(|head|)
    ensures Split(s, sep) == [head] + Split(rest, sep)
  {
    assert s[..|head| + |sep|] == head + sep;
    FindInPrefix(s, sep, |head| + |sep|, |head|);
    assert s[..|head|] == head;
    assert s[|head| + |sep|..] == rest;
  }

  /** The parts after the first are a split of the text after the first
      separator. */
  lemma IsSplitOfTail(parts: seq<string>, s: string, sep: string)
    requires IsSplitOf(parts, s, sep) && |parts| >= 2
    ensures s == parts[0] + sep + Join(parts[1..], sep)
    ensures Find(parts[0] + sep, sep) == Some(|parts[0]|)
    ensures IsSplitOf(parts[1..], Join(parts[1..], sep), sep)
  {
    var tail := parts[1..];
    assert tail[|tail| - 1] == parts[|parts| - 1];
    forall k | 0 <= k < |tail| - 1
      ensures Find(tail[k] + sep, sep) == Some(|tail[k]|)
    {
      assert tail[k] == parts[k + 1];
    }
  }

  /** Any split that meets the characterisation is the one `Split` gives. */
  lemma {:induction false} SplitUnique(s: string, sep: string, parts: seq<string>)
    requires |sep| > 0
    requires IsSplitOf(parts, s, sep)
    ensures parts == Split(s, sep)
    decreases |parts|
  {
    if |parts| == 1 {
      assert s == parts[0] && Find(s, sep) == None;
    } else {
      var tail := parts[1..];
      var rest := Join(tail, sep);
      IsSplitOfTail(parts, s, sep);
      SplitStep(s, sep, parts[0], rest);
      SplitUnique(rest, sep, tail);
      assert parts == [parts[0]] + tail;
    }
  }

  /** `Split` meets its characterisation, and is the only split that does. */
  lemma SplitCharacterised(s: string, sep: string, parts: seq<string>)
    requires |sep| > 0
    ensures IsSplitOf(parts, s, sep) <==> parts == Split(s, sep)
  {
    if IsSplitOf(parts, s, sep) {
      SplitUnique(s, sep, parts);
    }
  }

  /** Offset at which `parts[k]` starts inside `Join(parts, sep)`. */
  function JoinOffset(parts: seq<string>, sep: string, k: nat): nat
    requires k <= |parts|
  {
    if k == 0 then 0 else JoinOffset(parts, sep, k - 1) + |parts[k - 1]| + |sep|
  }

  lemma JoinOffsetTail(parts: seq<string>, sep: string, k: nat)
    requires 0 < k <= |parts|
    ensures JoinOffset(parts, sep, k) == |parts[0]| + |sep| + JoinOffset(parts[1..], sep, k - 1)
  {
    if k > 1 {
      JoinOffsetTail(parts, sep, k - 1);
    }
  }

  /** The layout facts about part `k` of a join. */
  ghost predicate JoinFacts(parts: seq<string>, sep: string, k: nat)
    requires k < |parts|
  {
    var j := Join(parts, sep);
    var off := JoinOffset(parts, sep, k);
    && OccursAt(j, parts[k], off)
    && (k + 1 < |parts| ==> OccursAt(j, sep, off + |parts[k]|))
    && (k + 1 == |parts| ==> |j| == off + |parts[k]|)
  }

  /** The first part of a join, and the separator after it. */
  lemma JoinLayoutHead(parts: seq<string>, sep: string)
    requires 0 < |parts|
    ensures JoinFacts(parts, sep, 0)
  {
    if |parts| == 1 {
      assert Join(parts, sep) == parts[0] + [];
      OccursPrefix(parts[0], [], parts[0], 0);
    } else {
      var rest := Join(parts[1..], sep);
      assert Join(parts, sep) == parts[0] + (sep + rest);
      OccursPrefix(parts[0], sep + rest, parts[0], 0);
      OccursPrefix(sep, rest, sep, 0);
      OccursShift(parts[0], sep + rest, sep, 0);
    }
  }

  /** The facts about part `k - 1` of the tail carry over to part `k` of
      the whole join, shifted by the head and one separator. */
  lemma JoinLayoutStep(parts: seq<string>, sep: string, k: nat)
    requires 0 < k < |parts|
    requires JoinFacts(parts[1..], sep, k - 1)
    ensures JoinFacts(parts, sep, k)
  {
    var tail := parts[1..];
    var rest := Join(tail, sep);
    assert Join(parts, sep) == (parts[0] + sep) + rest;
    JoinOffsetTail(parts, sep, k);
    assert tail[k - 1] == parts[k];
    var off := JoinOffset(tail, sep, k - 1);
    OccursShift(parts[0] + sep, rest, parts[k], off);
    if k + 1 < |parts| {
      OccursShift(parts[0] + sep, rest, sep, off + |parts[k]|);
    }
  }

  /** The layout of a join: each part sits, in order, at its offset, the
      separator follows every part but the last, and nothing else is there. */
  lemma {:induction false} JoinLayout(parts: seq<string>, sep: string, k: nat)
    requires k < |parts|
    ensures OccursAt(Join(parts, sep), parts[k], JoinOffset(parts, sep, k))
    ensures k + 1 < |parts| ==> OccursAt(Join(parts, sep), sep, JoinOffset(parts, sep, k) + |parts[k]|)
    ensures k + 1 == |parts| ==> |Join(parts, sep)| == JoinOffset(parts, sep, k) + |parts[k]|
    decreases k
  {
    if k == 0 {
      JoinLayoutHead(parts, sep);
    } else {
      JoinLayout(parts[1..], sep, k - 1);
      JoinLayoutStep(parts, sep, k);
    }
  }
}
