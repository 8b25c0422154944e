/**
 * The two Python string operations the aligner relies on:
 * `str.strip()` (no argument) and `str.split('\n')`.
 */
module Text {

  /** Python's `str.isspace()` for a single character: the code points with
      bidirectional class WS, B or S, or general category Zs. */
  predicate IsSpace(c: char) {
    ('\t' <= c <= '\r') || ('\U{1C}' <= c <= '\U{1F}') || c == ' ' ||
    c == '\U{85}' || c == '\U{A0}' || c == '\U{1680}' ||
    ('\U{2000}' <= c <= '\U{200A}') || c == '\U{2028}' || c == '\U{2029}' ||
    c == '\U{202F}' || c == '\U{205F}' || c == '\U{3000}'
  }

  predicate AllSpace(s: string) {
    forall i :: 0 <= i < |s| ==> IsSpace(s[i])
  }

  /** The first index at or after `i` that holds no whitespace, or `|s|`. */
  function SkipSpaces(s: string, i: nat): (j: nat)
    requires i <= |s|
    ensures i <= j <= |s|
    ensures forall k :: i <= k < j ==> IsSpace(s[k])
    ensures j < |s| ==> !IsSpace(s[j])
    decreases |s| - i
  {
    if i < |s| && IsSpace(s[i]) then SkipSpaces(s, i + 1) else i
  }

  /** The index just after the last character of `s[lo..j]` that is not
      whitespace, or `lo`. */
  function SkipSpacesBack(s: string, lo: nat, j: nat): (k: nat)
    requires lo <= j <= |s|
    ensures lo <= k <= j
    ensures forall m :: k <= m < j ==> IsSpace(s[m])
    ensures k > lo ==> !IsSpace(s[k - 1])
  {
    if j > lo && IsSpace(s[j - 1]) then SkipSpacesBack(s, lo, j - 1) else j
  }

  /** Where the text kept by `strip()` starts. */
  function StripStart(s: string): (i: nat)
    ensures i <= |s|
  {
    SkipSpaces(s, 0)
  }

  /** `s.strip()`: `s` without its leading and trailing whitespace. */
  function Strip(s: string): (r: string)
    ensures r == [] || (!IsSpace(r[0]) && !IsSpace(r[|r| - 1]))
  {
    var i := StripStart(s);
    s[i..SkipSpacesBack(s, i, |s|)]
  }

  /** What `Strip` removes is whitespace at both ends, and what it keeps is
      a contiguous piece of `s`. */
  lemma StripParts(s: string)
    ensures StripStart(s) + |Strip(s)| <= |s|
    ensures s[StripStart(s)..StripStart(s) + |Strip(s)|] == Strip(s)
    ensures forall k :: 0 <= k < StripStart(s) ==> IsSpace(s[k])
    ensures forall k :: StripStart(s) + |Strip(s)| <= k < |s| ==> IsSpace(s[k])
  {
    var i := StripStart(s);
    var j := SkipSpacesBack(s, i, |s|);
    assert Strip(s) == s[i..j];
    assert i + |Strip(s)| == j;
  }

  /** A document is stripped to nothing exactly when it is blank. */
  lemma StripEmptyIff(s: string)
    ensures Strip(s) == [] <==> AllSpace(s)
  {
    var i := StripStart(s);
    var j := SkipSpacesBack(s, i, |s|);
    assert Strip(s) == s[i..j];
  }

  /** Stripping twice is stripping once. */
  lemma StripIdempotent(s: string)
    ensures Strip(Strip(s)) == Strip(s)
  {
    var r := Strip(s);
    assert StripStart(r) == 0;
    assert SkipSpacesBack(r, 0, |r|) == |r|;
    assert r[0..|r|] == r;
  }

  /** Index of the first `c` in `s`. */
  function IndexOf(s: string, c: char): (i: nat)
    requires c in s
    ensures i < |s| && s[i] == c && c !in s[..i]
  {
    if s[0] == c then 0
    else
      var i := 1 + IndexOf(s[1..], c);
      assert s[..i] == [s[0]] + s[1..][..i - 1];
      i
  }

  /** `s.split('\n')`: the pieces between newlines; an empty string gives `[""]`. */
  function Split(s: string): (r: seq<string>)
    ensures |r| >= 1
    ensures forall k :: 0 <= k < |r| ==> '\n' !in r[k]
    decreases |s|
  {
    if '\n' in s then
      var i := IndexOf(s, '\n');
      [s[..i]] + Split(s[i + 1..])
    else [s]
  }

  /** `'\n'.join(lines)`, the inverse of `Split`. */
  function Join(lines: seq<string>): string
    requires |lines| >= 1
  {
    if |lines| == 1 then lines[0] else lines[0] + "\n" + Join(lines[1..])
  }

  /** Splitting loses nothing: the pieces joined back give the string. */
  lemma {:induction false} JoinSplit(s: string)
    ensures Join(Split(s)) == s
    decreases |s|
  {
    if '\n' in s {
      var i := IndexOf(s, '\n');
      var rest := Split(s[i + 1..]);
      JoinSplit(s[i + 1..]);
      var r := [s[..i]] + rest;
      assert Split(s) == r;
      assert |r| > 1 && r[0] == s[..i] && r[1..] == rest;
      assert Join(r) == s[..i] + "\n" + Join(rest);
      assert s == s[..i] + "\n" + s[i + 1..];
    }
  }

  /** Lines without newlines are recovered by splitting their join. */
  lemma {:induction false} SplitJoin(lines: seq<string>)
    requires |lines| >= 1
    requires forall k :: 0 <= k < |lines| ==> '\n' !in lines[k]
    ensures Split(Join(lines)) == lines
  {
    if |lines| > 1 {
      var s := Join(lines);
      var rest := Join(lines[1..]);
      assert s == lines[0] + "\n" + rest;
      assert s[|lines[0]|] == '\n';
      assert s[..|lines[0]|] == lines[0];
      assert IndexOf(s, '\n') == |lines[0]|;
      assert s[|lines[0]| + 1..] == rest;
      SplitJoin(lines[1..]);
    }
  }

  /** Only the empty string splits into the single empty piece. */
  lemma SplitSingleEmpty(s: string)
    ensures Split(s) == [""] <==> s == ""
  {
    JoinSplit(s);
  }

  /** Lines of a document: `doc.strip().split('\n')`. */
  function Lines(doc: string): (r: seq<string>)
    ensures |r| >= 1
  {
    Split(Strip(doc))
  }

  /** A blank document (empty or whitespace only) is the single line `""`,
      and only a blank document is. */
  lemma LinesOfBlank(doc: string)
    ensures Lines(doc) == [""] <==> AllSpace(doc)
  {
    SplitSingleEmpty(Strip(doc));
    StripEmptyIff(doc);
  }

  /** The lines joined back give the trimmed document. */
  lemma LinesJoin(doc: string)
    ensures Join(Lines(doc)) == Strip(doc)
  {
    JoinSplit(Strip(doc));
  }
}
