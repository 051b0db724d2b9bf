/** Python string primitives used by main.py: `str.strip()` with no argument,
    `str.lower()` as far as a suffix test needs it, and `str.endswith`. */
module Text {

  /** Python's `str.isspace` for one character: CPython's whitespace table
      (tab through carriage return, the four ASCII separators 0x1C-0x1F,
      space, NEL, no-break space and the Unicode space separators). */
  predicate IsSpace(c: char) {
    || ('\t' <= c <= '\r')
    || ('\U{1C}' <= c <= '\U{1F}')
    || c == ' '
    || c == '\U{85}'
    || c == '\U{A0}'
    || c == '\U{1680}'
    || ('\U{2000}' <= c <= '\U{200A}')
    || c == '\U{2028}'
    || c == '\U{2029}'
    || c == '\U{202F}'
    || c == '\U{205F}'
    || c == '\U{3000}'
  }

  predicate AllSpace(s: string) {
    forall k :: 0 <= k < |s| ==> IsSpace(s[k])
  }

  /** No whitespace at either end: the shape of every result of `str.strip()`. */
  predicate IsStripped(s: string) {
    |s| == 0 || (!IsSpace(s[0]) && !IsSpace(s[|s| - 1]))
  }

  /** Drops leading whitespace; the result is a suffix of `s`. */
  function LStrip(s: string): (r: string)
    ensures |r| <= |s| && r == s[|s| - |r|..]
    ensures AllSpace(s[..|s| - |r|])
    ensures |r| == 0 || !IsSpace(r[0])
  {
    if |s| > 0 && IsSpace(s[0]) then LStrip(s[1..]) else s
  }

  /** Drops trailing whitespace; the result is a prefix of `s`. */
  function RStrip(s: string): (r: string)
    ensures |r| <= |s| && r == s[..|r|]
    ensures AllSpace(s[|r|..])
    ensures |r| == 0 || !IsSpace(r[|r| - 1])
  {
    if |s| > 0 && IsSpace(s[|s| - 1]) then RStrip(s[..|s| - 1]) else s
  }

  /** How many whitespace characters `str.strip()` removes at the front. */
  function LeadingSpaceCount(s: string): nat {
    |s| - |LStrip(s)|
  }

  /** Python's `str.strip()`: the infix of `s` left after removing whitespace
      from both ends. */
  function Strip(s: string): (r: string)
    ensures IsStripped(r)
    ensures LeadingSpaceCount(s) + |r| <= |s|
    ensures r == s[LeadingSpaceCount(s)..LeadingSpaceCount(s) + |r|]
    ensures AllSpace(s[..LeadingSpaceCount(s)])
    ensures AllSpace(s[LeadingSpaceCount(s) + |r|..])
  {
    var t := LStrip(s);
    var r := RStrip(t);
    assert t == s[LeadingSpaceCount(s)..];
    assert t[|r|..] == s[LeadingSpaceCount(s) + |r|..];
    r
  }

  lemma {:induction false} LStripSkipsSpaces(p: string, m: string)
    requires AllSpace(p)
    requires |m| == 0 || !IsSpace(m[0])
    ensures LStrip(p + m) == m
    decreases |p|
  {
    if |p| == 0 {
      assert p + m == m;
    } else {
      assert (p + m)[0] == p[0];
      assert (p + m)[1..] == p[1..] + m;
      LStripSkipsSpaces(p[1..], m);
    }
  }

  lemma {:induction false} RStripSkipsSpaces(m: string, q: string)
    requires AllSpace(q)
    requires |m| == 0 || !IsSpace(m[|m| - 1])
    ensures RStrip(m + q) == m
    decreases |q|
  {
    if |q| == 0 {
      assert m + q == m;
    } else {
      assert (m + q)[|m + q| - 1] == q[|q| - 1];
      assert (m + q)[..|m + q| - 1] == m + q[..|q| - 1];
      RStripSkipsSpaces(m, q[..|q| - 1]);
    }
  }

  /** `str.strip()` removes exactly the surrounding whitespace: whatever
      whitespace is put around a stripped string, stripping gives it back. */
  lemma {:induction false} StripUnique(p: string, m: string, q: string)
    requires AllSpace(p) && AllSpace(q)
    requires IsStripped(m)
    ensures Strip(p + m + q) == m
  {
    if |m| == 0 {
      assert p + m + q == (p + q) + m;
      assert AllSpace(p + q) by {
        forall k | 0 <= k < |p + q|
          ensures IsSpace((p + q)[k])
        {
          if k < |p| {
            assert (p + q)[k] == p[k];
          } else {
            assert (p + q)[k] == q[k - |p|];
          }
        }
      }
      LStripSkipsSpaces(p + q, m);
      assert RStrip(m) == m;
    } else {
      assert p + m + q == p + (m + q);
      assert (m + q)[0] == m[0];
      LStripSkipsSpaces(p, m + q);
      RStripSkipsSpaces(m, q);
    }
  }

  /** A string without surrounding whitespace is left unchanged by `strip()`. */
  lemma StrippedIsFixed(m: string)
    requires IsStripped(m)
    ensures Strip(m) == m
  {
    assert "" + m + "" == m;
    StripUnique("", m, "");
  }

  lemma StripIdempotent(s: string)
    ensures Strip(Strip(s)) == Strip(s)
  {
    StrippedIsFixed(Strip(s));
  }

  /** A string made only of whitespace strips to the empty string. */
  lemma StripAllSpace(s: string)
    requires AllSpace(s)
    ensures Strip(s) == ""
  {
    assert s + "" + "" == s;
    StripUnique(s, "", "");
  }

  /** The two-index scan CPython's `do_strip` performs: advance a left index
      past whitespace, then pull a right index back past whitespace. */
  method StripScan(s: string) returns (r: string)
    ensures r == Strip(s)
  {
    var i := 0;
    while i < |s| && IsSpace(s[i])
      invariant 0 <= i <= |s|
      invariant AllSpace(s[..i])
    {
      assert s[..i + 1] == s[..i] + [s[i]];
      i := i + 1;
    }
    var j := |s|;
    while j > i && IsSpace(s[j - 1])
      invariant i <= j <= |s|
      invariant AllSpace(s[j..])
    {
      assert s[j - 1..] == [s[j - 1]] + s[j..];
      j := j - 1;
    }
    r := s[i..j];
    assert s[..i] + r + s[j..] == s;
    StripUnique(s[..i], r, s[j..]);
  }

  /** `str.lower()` on one character, restricted to ASCII letters. */
  function LowerChar(c: char): char {
    if 'A' <= c <= 'Z' then (c as int - 'A' as int + 'a' as int) as char else c
  }

  /** Lowers `A`-`Z` to the matching letter of `a`-`z` and leaves every
      other character, and the length, as they are. */
  function Lower(s: string): (r: string)
    ensures |r| == |s|
    ensures forall k :: 0 <= k < |s| ==> !('A' <= r[k] <= 'Z')
    ensures forall k :: 0 <= k < |s| && !('A' <= s[k] <= 'Z') ==> r[k] == s[k]
    ensures forall k :: 0 <= k < |s| && 'A' <= s[k] <= 'Z' ==>
              'a' <= r[k] <= 'z' && r[k] as int - 'a' as int == s[k] as int - 'A' as int
  {
    seq(|s|, k requires 0 <= k < |s| => LowerChar(s[k]))
  }

  /** Python's `str.endswith`. */
  predicate EndsWith(s: string, suffix: string) {
    |suffix| <= |s| && s[|s| - |suffix|..] == suffix
  }
}
