/** The Python string primitives the table code relies on:
    `str.isspace()`, `str.strip()` and `str.lower()`. */
module Strings {

  /** The characters for which Python's `str.isspace()` holds. */
  predicate IsSpace(c: char)
  {
    || ('\t' <= c <= '\r')            // TAB, LF, VT, FF, CR
    || ('\U{1C}' <= c <= '\U{1F}')    // the four ASCII separators
    || c == ' ' || c == '\U{85}' || c == '\U{A0}' || c == '\U{1680}'
    || ('\U{2000}' <= c <= '\U{200A}')
    || c == '\U{2028}' || c == '\U{2029}' || c == '\U{202F}' || c == '\U{205F}' || c == '\U{3000}'
  }

  /** `s` without its leading whitespace. */
  function StripLeft(s: string): (r: string)
    ensures |r| <= |s| && r == s[|s| - |r|..]
    ensures r != [] ==> !IsSpace(r[0])
    ensures forall i :: 0 <= i < |s| - |r| ==> IsSpace(s[i])
  {
    if s != [] && IsSpace(s[0]) then StripLeft(s[1..]) else s
  }

  /** `s` without its trailing whitespace. */
  function StripRight(s: string): (r: string)
    ensures |r| <= |s| && r == s[..|r|]
    ensures r != [] ==> !IsSpace(r[|r| - 1])
    ensures forall i :: |r| <= i < |s| ==> IsSpace(s[i])
  {
    if s != [] && IsSpace(s[|s| - 1]) then StripRight(s[..|s| - 1]) else s
  }

  /** `s[lo..hi]` is what remains of `s` once the whitespace at both ends is
      removed: only whitespace lies outside it, and it neither starts nor ends
      with whitespace. */
  ghost predicate IsTrim(s: string, lo: int, hi: int)
  {
    && 0 <= lo <= hi <= |s|
    && (forall i :: 0 <= i < lo ==> IsSpace(s[i]))
    && (forall i :: hi <= i < |s| ==> IsSpace(s[i]))
    && (lo < hi ==> !IsSpace(s[lo]) && !IsSpace(s[hi - 1]))
  }

  /** Python's `str.strip()` with no argument. */
  function Strip(s: string): (r: string)
    ensures exists lo, hi :: IsTrim(s, lo, hi) && r == s[lo..hi]
  {
    var left := StripLeft(s);
    var r := StripRight(left);
    assert IsTrim(s, |s| - |left|, |s| - |left| + |r|);
    r
  }

  /** Two trims of the same string keep the same characters. */
  lemma TrimUnique(s: string, lo: int, hi: int, lo': int, hi': int)
    requires IsTrim(s, lo, hi) && IsTrim(s, lo', hi')
    ensures s[lo..hi] == s[lo'..hi']
  {
    if lo < hi {
      assert !IsSpace(s[lo]) && !IsSpace(s[hi - 1]);
      assert lo' == lo && hi' == hi;
    } else {
      assert lo' == hi';
    }
  }

  /** `Strip` is characterised by `IsTrim`: whichever trim of `s` one picks,
      `Strip(s)` is exactly that slice. */
  lemma StripIsTheTrim(s: string, lo: int, hi: int)
    requires IsTrim(s, lo, hi)
    ensures Strip(s) == s[lo..hi]
  {
    var lo', hi' :| IsTrim(s, lo', hi') && Strip(s) == s[lo'..hi'];
    TrimUnique(s, lo, hi, lo', hi');
  }

  /** A string followed by trailing whitespace strips back to itself when it
      has no whitespace at its own ends. */
  lemma StripTrailingSpace(s: string)
    requires s != [] ==> !IsSpace(s[0]) && !IsSpace(s[|s| - 1])
    ensures Strip(s + " ") == s
  {
    var t := s + " ";
    assert IsTrim(t, 0, |s|) by {
      assert forall i :: |s| <= i < |t| ==> t[i] == ' ';
    }
    StripIsTheTrim(t, 0, |s|);
    assert t[0..|s|] == s;
  }

  /** ASCII upper case to lower case; every other character is unchanged. */
  function LowerChar(c: char): (d: char)
  {
    if 'A' <= c <= 'Z' then (c as int + 32) as char else c
  }

  /** `str.lower()` on the characters this model distinguishes (see README). */
  function Lower(s: string): (r: string)
    ensures |r| == |s|
    ensures forall i :: 0 <= i < |s| ==> r[i] == LowerChar(s[i])
  {
    if s == [] then [] else [LowerChar(s[0])] + Lower(s[1..])
  }
}
