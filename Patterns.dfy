// The two identifier regexes, as hand-written matchers with Python's
// re.findall(..)[0] semantics: the leftmost match, made as long as the
// greedy quantifiers make it.
//   - SBI:   UPI/[A-Z]*/[0-9]*/[A-Z0-9]*
//   - Union: [a-zA-Z0-9.\-_]+@*
module Patterns {
  import opened Wrappers
  import opened Text

  /** Where a match lies in the searched text: s[start..end]. */
  datatype Span = Span(start: nat, end: nat)

  /** re.search with a matcher that, tried at position i, gives the end of
      the match that starts there, if any: the first position from i on
      where the matcher succeeds. */
  function Search(s: string, i: nat, matchAt: (string, nat) -> Option<nat>): Option<Span>
    requires i <= |s|
    decreases |s| - i
  {
    match matchAt(s, i)
    case Some(e) => Some(Span(i, e))
    case None => if i == |s| then None else Search(s, i + 1, matchAt)
  }

  lemma {:induction false} SearchSpec(s: string, i: nat, matchAt: (string, nat) -> Option<nat>)
    requires i <= |s|
    ensures Search(s, i, matchAt).None? ==> forall k :: i <= k <= |s| ==> matchAt(s, k).None?
    ensures Search(s, i, matchAt).Some? ==>
      var sp := Search(s, i, matchAt).value;
      && i <= sp.start <= |s| && matchAt(s, sp.start) == Some(sp.end)
      && forall k :: i <= k < sp.start ==> matchAt(s, k).None?
    decreases |s| - i
  {
    if matchAt(s, i).None? && i < |s| {
      SearchSpec(s, i + 1, matchAt);
    }
  }

  // ---------------- SBI ----------------

  predicate IsUpperOrDigit(c: char) { IsUpper(c) || IsDigit(c) }

  /** t is in the language of the SBI regex, with its second and third '/'
      at positions p and q. */
  ghost predicate SbiShape(t: string, p: nat, q: nat) {
    && 4 <= p < q < |t|
    && t[..4] == "UPI/"
    && (forall k :: 4 <= k < p ==> IsUpper(t[k]))
    && t[p] == '/'
    && (forall k :: p < k < q ==> IsDigit(t[k]))
    && t[q] == '/'
    && (forall k :: q < k < |t| ==> IsUpperOrDigit(t[k]))
  }

  ghost predicate InSbiLanguage(t: string) {
    exists p: nat, q: nat :: SbiShape(t, p, q)
  }

  /** A match of the SBI regex holds exactly three '/'. */
  lemma SbiShapeSlashes(t: string, p: nat, q: nat)
    requires SbiShape(t, p, q)
    ensures forall k :: 0 <= k < |t| && t[k] == '/' ==> k == 3 || k == p || k == q
    ensures t[3] == '/' && 3 < p < q
  {
    assert t[3] == t[..4][3];
    forall k | 0 <= k < 3 ensures t[k] != '/' {
      assert t[k] == t[..4][k];
    }
  }

  /** The greedy match of the SBI regex that starts at i, if any. */
  function SbiMatchAt(s: string, i: nat): Option<nat> {
    if i + 4 <= |s| && s[i..i + 4] == "UPI/" then
      var p := RunEnd(s, i + 4, IsUpper);
      if p < |s| && s[p] == '/' then
        var q := RunEnd(s, p + 1, IsDigit);
        if q < |s| && s[q] == '/' then Some(RunEnd(s, q + 1, IsUpperOrDigit)) else None
      else None
    else None
  }

  /** What SbiMatchAt finds is a match. */
  lemma SbiMatchAtSound(s: string, i: nat)
    requires SbiMatchAt(s, i).Some?
    ensures i <= SbiMatchAt(s, i).value <= |s|
    ensures InSbiLanguage(s[i..SbiMatchAt(s, i).value])
  {
    var p := RunEnd(s, i + 4, IsUpper);
    var q := RunEnd(s, p + 1, IsDigit);
    var e := RunEnd(s, q + 1, IsUpperOrDigit);
    var t := s[i..e];
    assert |t| == e - i && 4 <= p - i < q - i < |t|;
    assert t[..4] == s[i..i + 4];
    assert t[p - i] == '/' && t[q - i] == '/';
    RunInSlice(s, i, e, 4, p - i, IsUpper);
    RunInSlice(s, i, e, p - i + 1, q - i, IsDigit);
    RunInSlice(s, i, e, q - i + 1, e - i, IsUpperOrDigit);
    assert SbiShape(t, p - i, q - i);
  }

  /** A run of P-characters in the text is one in a slice of it. */
  lemma RunInSlice(s: string, i: nat, e: nat, a: nat, b: nat, P: char -> bool)
    requires i <= e <= |s| && a <= b <= e - i
    requires forall k :: i + a <= k < i + b ==> P(s[k])
    ensures forall k :: a <= k < b ==> P(s[i..e][k])
  {
    forall k | a <= k < b ensures P(s[i..e][k]) {
      assert s[i..e][k] == s[i + k];
    }
  }

  /** Every match that starts at i is covered by SbiMatchAt: it finds one,
      and one at least as long. */
  lemma SbiMatchAtComplete(s: string, i: nat, e: nat)
    requires i <= e <= |s| && InSbiLanguage(s[i..e])
    ensures SbiMatchAt(s, i).Some? && e <= SbiMatchAt(s, i).value
  {
    var p: nat, q: nat :| SbiShape(s[i..e], p, q);
    SbiSegments(s, i, e, p, q);
  }

  /** Where the runs of a match starting at i end, in the whole text. */
  lemma SbiSegments(s: string, i: nat, e: nat, p: nat, q: nat)
    requires i <= e <= |s| && SbiShape(s[i..e], p, q)
    ensures i + 4 <= |s| && s[i..i + 4] == "UPI/"
    ensures RunEnd(s, i + 4, IsUpper) == i + p && s[i + p] == '/'
    ensures RunEnd(s, i + p + 1, IsDigit) == i + q && s[i + q] == '/'
    ensures e <= RunEnd(s, i + q + 1, IsUpperOrDigit)
  {
    var t := s[i..e];
    assert s[i..i + 4] == t[..4];
    SliceRun(s, i, e, 4, p, IsUpper);
    assert s[i + p] == t[p];
    RunEndIs(s, i + 4, i + p, IsUpper);
    SliceRun(s, i, e, p + 1, q, IsDigit);
    assert s[i + q] == t[q];
    RunEndIs(s, i + p + 1, i + q, IsDigit);
    SliceRun(s, i, e, q + 1, |t|, IsUpperOrDigit);
    RunEndAtLeast(s, i + q + 1, e, IsUpperOrDigit);
  }

  /** A run of P-characters in a slice is one in the whole text. */
  lemma SliceRun(s: string, i: nat, e: nat, a: nat, b: nat, P: char -> bool)
    requires i <= e <= |s| && a <= b <= e - i
    requires forall k :: a <= k < b ==> P(s[i..e][k])
    ensures forall k :: i + a <= k < i + b ==> P(s[k])
  {
    forall k | i + a <= k < i + b ensures P(s[k]) {
      assert s[k] == s[i..e][k - i];
    }
  }

  /** The maximal run reaches at least as far as any run. */
  lemma RunEndAtLeast(s: string, i: nat, j: nat, P: char -> bool)
    requires i <= j <= |s|
    requires forall k :: i <= k < j ==> P(s[k])
    ensures j <= RunEnd(s, i, P)
  {
  }

  /** The SBI identifier of a text: its first match, or None. */
  function SbiIdentifier(s: string): Option<string> {
    match Search(s, 0, SbiMatchAt)
    case Some(sp) => if sp.start <= sp.end <= |s| then Some(s[sp.start..sp.end]) else None
    case None => None
  }

  /** The SBI identifier is absent exactly when no part of the text matches;
      when present it is the leftmost match, as long as the match at that
      position can be. */
  lemma SbiIdentifierSpec(s: string)
    ensures SbiIdentifier(s).None? <==> forall i, e :: 0 <= i <= e <= |s| ==> !InSbiLanguage(s[i..e])
    ensures SbiIdentifier(s).Some? ==> exists i: nat :: i + |SbiIdentifier(s).value| <= |s| && SbiLeftmostLongest(s, i, SbiIdentifier(s).value)
  {
    SearchSpec(s, 0, SbiMatchAt);
    if Search(s, 0, SbiMatchAt).None? {
      SbiNoMatch(s);
    } else {
      SbiFirstMatch(s, Search(s, 0, SbiMatchAt).value);
    }
  }

  /** The case of SbiIdentifierSpec where the search finds nothing. */
  lemma SbiNoMatch(s: string)
    requires forall k :: 0 <= k <= |s| ==> SbiMatchAt(s, k).None?
    ensures forall i, e :: 0 <= i <= e <= |s| ==> !InSbiLanguage(s[i..e])
  {
    forall i, e | 0 <= i <= e <= |s| ensures !InSbiLanguage(s[i..e]) {
      if InSbiLanguage(s[i..e]) { SbiMatchAtComplete(s, i, e); }
    }
  }

  /** The case of SbiIdentifierSpec where the search finds the span sp. */
  lemma SbiFirstMatch(s: string, sp: Span)
    requires sp.start <= |s| && SbiMatchAt(s, sp.start) == Some(sp.end)
    requires forall k :: 0 <= k < sp.start ==> SbiMatchAt(s, k).None?
    ensures sp.start <= sp.end <= |s|
    ensures SbiLeftmostLongest(s, sp.start, s[sp.start..sp.end])
    ensures InSbiLanguage(s[sp.start..sp.end])
  {
    SbiMatchAtSound(s, sp.start);
    forall k, e | 0 <= k < sp.start && k <= e <= |s| ensures !InSbiLanguage(s[k..e]) {
      if InSbiLanguage(s[k..e]) { SbiMatchAtComplete(s, k, e); }
    }
    forall e | sp.end < e <= |s| ensures !InSbiLanguage(s[sp.start..e]) {
      if InSbiLanguage(s[sp.start..e]) { SbiMatchAtComplete(s, sp.start, e); }
    }
  }

  /** m occurs in s at i, is a match, no match starts before i, and no
      longer match starts at i. */
  ghost predicate SbiLeftmostLongest(s: string, i: nat, m: string)
    requires i + |m| <= |s|
  {
    && s[i..i + |m|] == m
    && InSbiLanguage(m)
    && (forall k, e :: 0 <= k < i && k <= e <= |s| ==> !InSbiLanguage(s[k..e]))
    && (forall e :: i + |m| < e <= |s| ==> !InSbiLanguage(s[i..e]))
  }

  // ---------------- Union ----------------

  /** The character class [a-zA-Z0-9.\-_]. */
  predicate IsWordChar(c: char) {
    IsUpper(c) || IsLower(c) || IsDigit(c) || c == '.' || c == '-' || c == '_'
  }

  predicate IsAt(c: char) { c == '@' }

  /** t is in the language of the Union regex, its word part ending at p. */
  ghost predicate UnionShape(t: string, p: nat) {
    && 1 <= p <= |t|
    && (forall k :: 0 <= k < p ==> IsWordChar(t[k]))
    && (forall k :: p <= k < |t| ==> t[k] == '@')
  }

  ghost predicate InUnionLanguage(t: string) {
    exists p: nat :: UnionShape(t, p)
  }

  /** The greedy match of the Union regex that starts at i, if any. */
  function UnionMatchAt(s: string, i: nat): Option<nat> {
    if i < |s| && IsWordChar(s[i]) then Some(RunEnd(s, RunEnd(s, i, IsWordChar), IsAt)) else None
  }

  lemma UnionMatchAtSound(s: string, i: nat)
    requires UnionMatchAt(s, i).Some?
    ensures i <= UnionMatchAt(s, i).value <= |s|
    ensures InUnionLanguage(s[i..UnionMatchAt(s, i).value])
  {
    var p := RunEnd(s, i, IsWordChar);
    var e := RunEnd(s, p, IsAt);
    assert UnionShape(s[i..e], p - i);
  }

  lemma UnionMatchAtComplete(s: string, i: nat, e: nat)
    requires i <= e <= |s| && InUnionLanguage(s[i..e])
    ensures UnionMatchAt(s, i).Some? && e <= UnionMatchAt(s, i).value
  {
    var t := s[i..e];
    var p: nat :| UnionShape(t, p);
    assert s[i] == t[0];
    SliceRun(s, i, e, 0, p, IsWordChar);
    if p < |t| {
      assert s[i + p] == t[p];
      RunEndIs(s, i, i + p, IsWordChar);
      SliceRun(s, i, e, p, |t|, IsAt);
      RunEndAtLeast(s, i + p, e, IsAt);
    } else {
      RunEndAtLeast(s, i, e, IsWordChar);
    }
  }

  /** The Union identifier of a text: its first match, or None. */
  function UnionIdentifier(s: string): Option<string> {
    match Search(s, 0, UnionMatchAt)
    case Some(sp) => if sp.start <= sp.end <= |s| then Some(s[sp.start..sp.end]) else None
    case None => None
  }

  ghost predicate UnionLeftmostLongest(s: string, i: nat, m: string)
    requires i + |m| <= |s|
  {
    && s[i..i + |m|] == m
    && InUnionLanguage(m)
    && (forall k, e :: 0 <= k < i && k <= e <= |s| ==> !InUnionLanguage(s[k..e]))
    && (forall e :: i + |m| < e <= |s| ==> !InUnionLanguage(s[i..e]))
  }

  /** The Union identifier is absent exactly when no part of the text
      matches; when present it is the leftmost, longest match. */
  lemma UnionIdentifierSpec(s: string)
    ensures UnionIdentifier(s).None? <==> forall i, e :: 0 <= i <= e <= |s| ==> !InUnionLanguage(s[i..e])
    ensures UnionIdentifier(s).Some? ==> exists i: nat :: i + |UnionIdentifier(s).value| <= |s| && UnionLeftmostLongest(s, i, UnionIdentifier(s).value)
  {
    SearchSpec(s, 0, UnionMatchAt);
    match Search(s, 0, UnionMatchAt)
    case None =>
      forall i, e | 0 <= i <= e <= |s| ensures !InUnionLanguage(s[i..e]) {
        if InUnionLanguage(s[i..e]) { UnionMatchAtComplete(s, i, e); }
      }
    case Some(sp) =>
      UnionMatchAtSound(s, sp.start);
      var m := s[sp.start..sp.end];
      forall k, e | 0 <= k < sp.start && k <= e <= |s| ensures !InUnionLanguage(s[k..e]) {
        if InUnionLanguage(s[k..e]) { UnionMatchAtComplete(s, k, e); }
      }
      forall e | sp.end < e <= |s| ensures !InUnionLanguage(s[sp.start..e]) {
        if InUnionLanguage(s[sp.start..e]) { UnionMatchAtComplete(s, sp.start, e); }
      }
      assert UnionLeftmostLongest(s, sp.start, m);
      assert !forall i, e :: 0 <= i <= e <= |s| ==> !InUnionLanguage(s[i..e]) by {
        assert InUnionLanguage(s[sp.start..sp.end]);
      }
  }

  /** A simpler reading of the Union identifier: it is present exactly when
      the text holds one of the word characters. */
  lemma UnionIdentifierPresent(s: string)
    ensures UnionIdentifier(s).Some? <==> exists k :: 0 <= k < |s| && IsWordChar(s[k])
  {
    SearchSpec(s, 0, UnionMatchAt);
    if k :| 0 <= k < |s| && IsWordChar(s[k]) {
      assert UnionMatchAt(s, k).Some?;
    }
    if UnionIdentifier(s).Some? {
      var sp := Search(s, 0, UnionMatchAt).value;
      assert IsWordChar(s[sp.start]);
    }
  }

  /** A text made only of word characters is its own Union identifier. */
  lemma UnionIdentifierOfWord(s: string)
    requires s != [] && forall k :: 0 <= k < |s| ==> IsWordChar(s[k])
    ensures UnionIdentifier(s) == Some(s)
  {
    RunEndIs(s, 0, |s|, IsWordChar);
    assert UnionMatchAt(s, 0) == Some(|s|);
    assert s[0..|s|] == s;
  }
}
