/** Whitespace trimming as done by Python's `str.strip()` with no argument. */
module Text {

  /** The characters Python's `str.isspace()` accepts, which are exactly the
      ones `str.strip()` removes. */
  predicate IsSpace(c: char) {
    || ('\t' <= c <= '\r')
    || ('\U{1C}' <= c <= ' ')
    || c == '\U{85}' || c == '\U{A0}' || c == '\U{1680}'
    || ('\U{2000}' <= c <= '\U{200A}')
    || c == '\U{2028}' || c == '\U{2029}' || c == '\U{202F}'
    || c == '\U{205F}' || c == '\U{3000}'
  }

  /** Number of whitespace characters at the front of `s`. */
  function LeadingSpaces(s: string): (n: nat)
    ensures n <= |s|
    ensures forall k :: 0 <= k < n ==> IsSpace(s[k])
    ensures n < |s| ==> !IsSpace(s[n])
  {
    if |s| > 0 && IsSpace(s[0]) then 1 + LeadingSpaces(s[1..]) else 0
  }

  /** Number of whitespace characters at the back of `s`, not counting
      any of its first `lo` characters. */
  function TrailingSpaces(s: string, lo: nat): (n: nat)
    requires lo <= |s|
    ensures n <= |s| - lo
    ensures forall k :: |s| - n <= k < |s| ==> IsSpace(s[k])
    ensures n < |s| - lo ==> !IsSpace(s[|s| - n - 1])
  {
    if |s| > lo && IsSpace(s[|s| - 1]) then 1 + TrailingSpaces(s[..|s| - 1], lo) else 0
  }

  /** `s` with surrounding whitespace removed: a contiguous slice of `s`
      such that only whitespace lies outside it and neither end of it is
      whitespace. */
  function Trim(s: string): (r: string)
    ensures exists i, j ::
              && 0 <= i <= j <= |s| && r == s[i..j]
              && (forall k :: 0 <= k < i ==> IsSpace(s[k]))
              && (forall k :: j <= k < |s| ==> IsSpace(s[k]))
    ensures |r| > 0 ==> !IsSpace(r[0]) && !IsSpace(r[|r| - 1])
  {
    var i := LeadingSpaces(s);
    s[i..|s| - TrailingSpaces(s, i)]
  }

  /** A trimmed string is empty exactly when the input is all whitespace. */
  lemma TrimEmptyIffBlank(s: string)
    ensures Trim(s) == [] <==> forall k :: 0 <= k < |s| ==> IsSpace(s[k])
  {
    var r := Trim(s);
    var i, j :|
      && 0 <= i <= j <= |s| && r == s[i..j]
      && (forall k :: 0 <= k < i ==> IsSpace(s[k]))
      && (forall k :: j <= k < |s| ==> IsSpace(s[k]));
    if r != [] {
      assert r[0] == s[i];
    }
  }

  /** Trimming twice is the same as trimming once. */
  lemma TrimIdempotent(s: string)
    ensures Trim(Trim(s)) == Trim(s)
  {
    var r := Trim(s);
    if |r| > 0 {
      assert LeadingSpaces(r) == 0;
      assert TrailingSpaces(r, 0) == 0;
    }
  }
}
