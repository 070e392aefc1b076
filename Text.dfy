/** String helpers that the Python and JavaScript code get from their
    runtimes: Python's str.strip, JavaScript's split('.').pop() and
    toLowerCase, and maximal runs of a character class. */
module Text {

  /** The characters for which Python's str.isspace holds. */
  predicate IsSpace(c: char) {
    ('\t' <= c <= '\r') || ('\U{1c}' <= c <= '\U{1f}') || c == ' '
    || c == '\U{85}' || c == '\U{a0}' || c == '\U{1680}'
    || ('\U{2000}' <= c <= '\U{200a}') || c == '\U{2028}' || c == '\U{2029}'
    || c == '\U{202f}' || c == '\U{205f}' || c == '\U{3000}'
  }

  ghost predicate AllSpace(s: string) {
    forall k :: 0 <= k < |s| ==> IsSpace(s[k])
  }

  /** Python's str.lstrip() with no argument. */
  function StripLeft(s: string): string {
    if |s| > 0 && IsSpace(s[0]) then StripLeft(s[1..]) else s
  }

  /** Python's str.rstrip() with no argument. */
  function StripRight(s: string): string {
    if |s| > 0 && IsSpace(s[|s| - 1]) then StripRight(s[..|s| - 1]) else s
  }

  /** Python's str.strip() with no argument. */
  function Strip(s: string): string {
    StripRight(StripLeft(s))
  }

  lemma {:induction false} StripLeftShape(s: string) returns (i: nat)
    ensures i <= |s| && StripLeft(s) == s[i..] && AllSpace(s[..i])
    ensures StripLeft(s) == [] || !IsSpace(StripLeft(s)[0])
  {
    if |s| > 0 && IsSpace(s[0]) {
      var i' := StripLeftShape(s[1..]);
      i := i' + 1;
      assert s[1..][i'..] == s[i..];
      assert forall k :: 0 < k < i ==> s[k] == s[1..][..i'][k - 1];
    } else {
      i := 0;
    }
  }

  lemma {:induction false} StripRightShape(s: string) returns (j: nat)
    ensures j <= |s| && StripRight(s) == s[..j] && AllSpace(s[j..])
    ensures StripRight(s) == [] || !IsSpace(StripRight(s)[|StripRight(s)| - 1])
  {
    if |s| > 0 && IsSpace(s[|s| - 1]) {
      j := StripRightShape(s[..|s| - 1]);
      assert s[..|s| - 1][..j] == s[..j];
      assert forall k :: j <= k < |s| - 1 ==> s[k] == s[..|s| - 1][j..][k - j];
    } else {
      j := |s|;
    }
  }

  /** Strip removes whitespace at both ends and nothing else: the result is
      a slice of the input, whitespace surrounds it, and it neither starts
      nor ends with whitespace. */
  lemma StripSpec(s: string)
    ensures exists i, j :: 0 <= i <= j <= |s| && Strip(s) == s[i..j]
                           && AllSpace(s[..i]) && AllSpace(s[j..])
    ensures Strip(s) == [] || (!IsSpace(Strip(s)[0]) && !IsSpace(Strip(s)[|Strip(s)| - 1]))
  {
    var i := StripLeftShape(s);
    var t := s[i..];
    var j := StripRightShape(t);
    assert Strip(s) == s[i..i + j];
    assert s[i + j..] == t[j..];
    if StripLeft(s) != [] && StripRight(t) != [] {
      assert StripRight(t)[0] == t[0];
    }
  }

  /** A string made of whitespace only strips to the empty string. */
  lemma {:induction false} StripAllSpace(s: string)
    requires AllSpace(s)
    ensures Strip(s) == ""
  {
    var i := StripLeftShape(s);
  }

  predicate IsUpper(c: char) { 'A' <= c <= 'Z' }
  predicate IsLower(c: char) { 'a' <= c <= 'z' }
  predicate IsDigit(c: char) { '0' <= c <= '9' }

  /** JavaScript's toLowerCase on one character, for ASCII letters. */
  function LowerChar(c: char): (r: char)
    ensures !IsUpper(r)
    ensures IsUpper(c) ==> IsLower(r) && r as int - 'a' as int == c as int - 'A' as int
    ensures !IsUpper(c) ==> r == c
  {
    if IsUpper(c) then (c as int + 32) as char else c
  }

  function Lower(s: string): (r: string)
    ensures |r| == |s|
    ensures forall k :: 0 <= k < |s| ==> r[k] == LowerChar(s[k])
  {
    if s == [] then [] else [LowerChar(s[0])] + Lower(s[1..])
  }

  /** How many times sep occurs in s. */
  function Occurrences(s: string, sep: char): nat {
    if s == [] then 0
    else Occurrences(s[..|s| - 1], sep) + (if s[|s| - 1] == sep then 1 else 0)
  }

  /** JavaScript's s.split(sep): the pieces between the separators, one more
      than there are separators. Built from the right end of s. */
  function Split(s: string, sep: char): (r: seq<string>)
    ensures |r| == Occurrences(s, sep) + 1
  {
    if s == [] then [[]]
    else
      var rest := Split(s[..|s| - 1], sep);
      if s[|s| - 1] == sep then rest + [[]]
      else rest[..|rest| - 1] + [rest[|rest| - 1] + [s[|s| - 1]]]
  }

  /** split(sep).pop(): the last piece. */
  function LastPiece(s: string, sep: char): string {
    var pieces := Split(s, sep);
    pieces[|pieces| - 1]
  }

  /** The last piece is the text after the last separator, or the whole
      string when it holds no separator. */
  lemma {:induction false} LastPieceSpec(s: string, sep: char)
    ensures var p := LastPiece(s, sep);
      && |p| <= |s| && p == s[|s| - |p|..] && sep !in p
      && (|p| == |s| || s[|s| - |p| - 1] == sep)
  {
    if s != [] && s[|s| - 1] != sep {
      var s' := s[..|s| - 1];
      LastPieceSpec(s', sep);
      var p' := LastPiece(s', sep);
      assert LastPiece(s, sep) == p' + [s[|s| - 1]];
      assert s'[|s'| - |p'|..] + [s[|s| - 1]] == s[|s| - |p'| - 1..];
      if |p'| < |s'| {
        assert s'[|s'| - |p'| - 1] == s[|s| - |p'| - 2];
      }
    }
  }

  /** Corollary: the last piece is what follows the last separator. */
  lemma LastPieceAfter(s: string, sep: char, i: nat)
    requires i < |s| && s[i] == sep && sep !in s[i + 1..]
    ensures LastPiece(s, sep) == s[i + 1..]
  {
    LastPieceSpec(s, sep);
    var p := LastPiece(s, sep);
    assert forall k :: |s| - |p| <= k < |s| ==> s[k] != sep by {
      forall k | |s| - |p| <= k < |s| ensures s[k] != sep { assert p[k - (|s| - |p|)] == s[k]; }
    }
    assert forall k :: i + 1 <= k < |s| ==> s[k] != sep by {
      forall k | i + 1 <= k < |s| ensures s[k] != sep { assert s[i + 1..][k - (i + 1)] == s[k]; }
    }
  }

  /** Corollary: with no separator in s, the last piece is all of s. */
  lemma LastPieceNoSep(s: string, sep: char)
    requires sep !in s
    ensures LastPiece(s, sep) == s
  {
    LastPieceSpec(s, sep);
  }

  /** The end of the maximal run of characters satisfying p that starts at i. */
  function RunEnd(s: string, i: nat, p: char -> bool): (j: nat)
    requires i <= |s|
    ensures i <= j <= |s|
    ensures forall k :: i <= k < j ==> p(s[k])
    ensures j == |s| || !p(s[j])
    decreases |s| - i
  {
    if i < |s| && p(s[i]) then RunEnd(s, i + 1, p) else i
  }

  /** A run of p-characters that ends at j, where p fails or s ends, is the
      maximal one. */
  lemma RunEndIs(s: string, i: nat, j: nat, p: char -> bool)
    requires i <= j <= |s|
    requires forall k :: i <= k < j ==> p(s[k])
    requires j == |s| || !p(s[j])
    ensures RunEnd(s, i, p) == j
  {
  }
}
