/**
 * The two Python string operations the crawler relies on: `str.strip()` with no
 * argument, and the substring test `needle in haystack`.
 */
module Text {

  /**
   * The code points for which Python's `str.isspace()` holds; `strip()` removes exactly these.
   * Within ASCII they are the space, `\t \n \v \f \r` and the four separators 0x1C to 0x1F.
   */
  predicate IsSpace(c: char)
  {
    || ('\t' <= c <= '\r')              // tab, line feed, vertical tab, form feed, carriage return
    || ('\U{1C}' <= c <= '\U{1F}')      // file, group, record and unit separators
    || c == ' '
    || c == '\U{85}' || c == '\U{A0}' || c == '\U{1680}'
    || ('\U{2000}' <= c <= '\U{200A}')
    || c == '\U{2028}' || c == '\U{2029}' || c == '\U{202F}' || c == '\U{205F}' || c == '\U{3000}'
  }

  /** Within ASCII, the whitespace is the space, `\t \n \v \f \r` and the separators 0x1C to 0x1F. */
  lemma IsSpaceAscii(c: char)
    requires c <= '\U{7F}'
    ensures IsSpace(c) <==> c in " \t\n\U{B}\U{C}\r\U{1C}\U{1D}\U{1E}\U{1F}"
  {
  }

  /** `r` is the piece of `s` starting at `lo`, and everything of `s` around it is whitespace. */
  ghost predicate TrimmedAt(s: string, r: string, lo: int)
  {
    && 0 <= lo <= |s| - |r|
    && s[lo..lo + |r|] == r
    && (forall k :: 0 <= k < lo ==> IsSpace(s[k]))
    && (forall k :: lo + |r| <= k < |s| ==> IsSpace(s[k]))
  }

  /**
   * Python's `s.strip()`: the slice of `s` left once the whitespace at both ends is removed.
   * The result neither starts nor ends with whitespace, and what was cut off is all whitespace.
   */
  function Strip(s: string): (r: string)
    ensures r == [] || (!IsSpace(r[0]) && !IsSpace(r[|r| - 1]))
    ensures exists lo :: TrimmedAt(s, r, lo)
    decreases |s|
  {
    if s != [] && IsSpace(s[0]) then
      var r := Strip(s[1..]);
      StripFront(s, r);
      r
    else if s != [] && IsSpace(s[|s| - 1]) then
      var r := Strip(s[..|s| - 1]);
      StripBack(s, s[..|s| - 1], r);
      r
    else
      assert TrimmedAt(s, s, 0);
      s
  }

  /** Cutting a leading whitespace character keeps a trimming of the rest a trimming of the whole. */
  lemma StripFront(s: string, r: string)
    requires s != [] && IsSpace(s[0])
    requires exists lo :: TrimmedAt(s[1..], r, lo)
    ensures exists lo :: TrimmedAt(s, r, lo)
  {
    var lo :| TrimmedAt(s[1..], r, lo);
    assert s[1..][lo..lo + |r|] == s[lo + 1..lo + 1 + |r|];
    assert TrimmedAt(s, r, lo + 1);
  }

  /** Cutting a trailing whitespace character keeps a trimming of the rest a trimming of the whole. */
  lemma StripBack(s: string, init: string, r: string)
    requires s != [] && IsSpace(s[|s| - 1]) && init == s[..|s| - 1]
    requires exists lo :: TrimmedAt(init, r, lo)
    ensures exists lo :: TrimmedAt(s, r, lo)
  {
    var lo :| TrimmedAt(init, r, lo);
    assert init[lo..lo + |r|] == s[lo..lo + |r|];
    assert TrimmedAt(s, r, lo);
  }

  /** Stripping twice is stripping once. */
  lemma StripIdempotent(s: string)
    ensures Strip(Strip(s)) == Strip(s)
  {
  }

  /** `needle` sits in `haystack` at position `i`. */
  ghost predicate OccursAt(needle: string, haystack: string, i: int)
  {
    0 <= i <= |haystack| - |needle| && haystack[i..i + |needle|] == needle
  }

  /** `needle` occurs in `haystack` as a contiguous piece (Python's `needle in haystack`). */
  ghost predicate Occurs(needle: string, haystack: string)
  {
    exists i :: OccursAt(needle, haystack, i)
  }

  /** When `needle` is not at the front of `haystack`, it occurs in `haystack` iff it occurs in its tail. */
  lemma OccursInTail(needle: string, haystack: string)
    requires |needle| <= |haystack| && haystack[..|needle|] != needle
    ensures |haystack| > 0
    ensures Occurs(needle, haystack) <==> Occurs(needle, haystack[1..])
  {
    var n := |needle|;
    if Occurs(needle, haystack[1..]) {
      var i :| OccursAt(needle, haystack[1..], i);
      assert haystack[1..][i..i + n] == haystack[i + 1..i + 1 + n];
      assert OccursAt(needle, haystack, i + 1);
    }
    if Occurs(needle, haystack) {
      var i :| OccursAt(needle, haystack, i);
      assert i != 0;
      assert haystack[1..][i - 1..i - 1 + n] == haystack[i..i + n];
      assert OccursAt(needle, haystack[1..], i - 1);
    }
  }

  /** The substring test `needle in haystack`, case-sensitive; the empty string occurs everywhere. */
  function Contains(needle: string, haystack: string): (b: bool)
    ensures b <==> Occurs(needle, haystack)
    decreases |haystack|
  {
    if |needle| > |haystack| then
      false
    else if haystack[..|needle|] == needle then
      assert OccursAt(needle, haystack, 0);
      true
    else
      OccursInTail(needle, haystack);
      Contains(needle, haystack[1..])
  }
}
