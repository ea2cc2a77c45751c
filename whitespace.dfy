/** Python's `str.strip()` called without an argument: it removes the leading
    and trailing characters for which `str.isspace()` holds.

    The functions carry no postconditions so that code using them (the
    deduplication keys) does not pay for their properties; those are stated
    as lemmas below. */
module Whitespace {

  /** The fixed set of characters Python's `str.isspace()` accepts
      (tab to carriage return, the four information separators, space,
      next line, no-break space and the Unicode space separators). */
  predicate IsSpace(c: char) {
    var k := c as int;
    (9 <= k <= 13) || (28 <= k <= 32) || k == 0x85 || k == 0xA0 || k == 0x1680
    || (0x2000 <= k <= 0x200A) || k == 0x2028 || k == 0x2029 || k == 0x202F
    || k == 0x205F || k == 0x3000
  }

  /** True when every character of `s` is whitespace (so also for ""). */
  predicate AllSpace(s: string) {
    forall i :: 0 <= i < |s| ==> IsSpace(s[i])
  }

  /** `s.lstrip()`. */
  function StripLeading(s: string): string {
    if s != [] && IsSpace(s[0]) then StripLeading(s[1..]) else s
  }

  /** `s.rstrip()`. */
  function StripTrailing(s: string): string {
    if s != [] && IsSpace(s[|s| - 1]) then StripTrailing(s[..|s| - 1]) else s
  }

  /** `s.strip()`. */
  function Strip(s: string): string {
    StripTrailing(StripLeading(s))
  }

  /** `lstrip` removes exactly the whitespace prefix: the result is a suffix
      of `s`, everything cut off is whitespace and the result does not start
      with whitespace. */
  lemma {:induction false} StripLeadingShape(s: string)
    ensures |StripLeading(s)| <= |s| && StripLeading(s) == s[|s| - |StripLeading(s)|..]
    ensures forall i :: 0 <= i < |s| - |StripLeading(s)| ==> IsSpace(s[i])
    ensures StripLeading(s) == [] || !IsSpace(StripLeading(s)[0])
    decreases |s|
  {
    if s != [] && IsSpace(s[0]) {
      StripLeadingShape(s[1..]);
    }
  }

  /** `rstrip` removes exactly the whitespace suffix: the result is a prefix
      of `s`, everything cut off is whitespace and the result does not end
      with whitespace. */
  lemma {:induction false} StripTrailingShape(s: string)
    ensures |StripTrailing(s)| <= |s| && StripTrailing(s) == s[..|StripTrailing(s)|]
    ensures forall i :: |StripTrailing(s)| <= i < |s| ==> IsSpace(s[i])
    ensures StripTrailing(s) == [] || !IsSpace(StripTrailing(s)[|StripTrailing(s)| - 1])
    decreases |s|
  {
    if s != [] && IsSpace(s[|s| - 1]) {
      StripTrailingShape(s[..|s| - 1]);
    }
  }

  /** The stripped text is empty exactly when `s` holds only whitespace,
      which is what a truth test on a stripped cell asks; otherwise it
      neither starts nor ends with whitespace. */
  lemma StripShape(s: string)
    ensures |Strip(s)| <= |s|
    ensures Strip(s) == [] <==> AllSpace(s)
    ensures Strip(s) == [] || (!IsSpace(Strip(s)[0]) && !IsSpace(Strip(s)[|Strip(s)| - 1]))
  {
    var t := StripLeading(s);
    StripLeadingShape(s);
    StripTrailingShape(t);
    var r := StripTrailing(t);
    if r != [] {
      assert r[0] == t[0];
      var k := |s| - |t|;
      assert s[k] == t[0];
    }
  }

  /** A string without leading or trailing whitespace is its own strip. */
  lemma StripUnpadded(s: string)
    requires s == [] || (!IsSpace(s[0]) && !IsSpace(s[|s| - 1]))
    ensures Strip(s) == s
  {
    assert StripLeading(s) == s;
    assert StripTrailing(s) == s;
  }

  /** Stripping twice is stripping once. */
  lemma StripIdempotent(s: string)
    ensures Strip(Strip(s)) == Strip(s)
  {
    StripShape(s);
    StripUnpadded(Strip(s));
  }
}
