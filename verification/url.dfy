/** The URL check of main.py: `_URL_RE = re.compile(r"^https?://", re.IGNORECASE)`
    applied with `re.match` to the stripped `--url` value. */
module UrlCheck {
  import opened Text

  /** One element of a start-anchored pattern: a literal character, or an
      optional one (`s?`). */
  datatype Atom = Lit(c: char) | Opt(c: char)

  function Literal(w: string): seq<Atom> {
    seq(|w|, k requires 0 <= k < |w| => Lit(w[k]))
  }

  /** `^https?://` */
  const UrlPattern: seq<Atom> := Literal("http") + [Opt('s')] + Literal("://")

  /** The case folding Python's regex engine applies under `re.IGNORECASE`,
      restricted to what can meet the letters of `UrlPattern`: ASCII letters,
      and LATIN SMALL LETTER LONG S, which the engine treats as a case
      variant of `s`. */
  function Fold(c: char): char {
    if c == '\U{17F}' then 's' else LowerChar(c)
  }

  predicate SameIgnoringCase(a: char, b: char) {
    Fold(a) == Fold(b)
  }

  /** `re.match(pattern, s, re.IGNORECASE) is not None`: some prefix of `s`
      matches `p`. An optional atom first tries to consume a character and
      otherwise backtracks to skip it. */
  predicate MatchesPrefix(p: seq<Atom>, s: string)
    decreases |p|
  {
    if |p| == 0 then true
    else match p[0]
      case Lit(c) =>
        |s| > 0 && SameIgnoringCase(s[0], c) && MatchesPrefix(p[1..], s[1..])
      case Opt(c) =>
        || (|s| > 0 && SameIgnoringCase(s[0], c) && MatchesPrefix(p[1..], s[1..]))
        || MatchesPrefix(p[1..], s)
  }

  predicate StartsWithIgnoringCase(s: string, prefix: string) {
    |prefix| <= |s| && forall k :: 0 <= k < |prefix| ==> SameIgnoringCase(s[k], prefix[k])
  }

  /** The intended acceptance rule: `http://` or `https://` in front, in any
      letter case. */
  predicate HasHttpScheme(s: string) {
    StartsWithIgnoringCase(s, "http://") || StartsWithIgnoringCase(s, "https://")
  }

  /** main.py's acceptance test on the raw `--url` value. */
  predicate UrlAccepted(raw: string) {
    MatchesPrefix(UrlPattern, Strip(raw))
  }

  lemma StartsWithConcat(s: string, a: string, b: string)
    ensures StartsWithIgnoringCase(s, a + b)
        <==> StartsWithIgnoringCase(s, a) && StartsWithIgnoringCase(s[|a|..], b)
  {
    if StartsWithIgnoringCase(s, a) && StartsWithIgnoringCase(s[|a|..], b) {
      forall k | 0 <= k < |a + b|
        ensures SameIgnoringCase(s[k], (a + b)[k])
      {
        if k >= |a| {
          assert s[k] == s[|a|..][k - |a|];
        }
      }
    }
    if StartsWithIgnoringCase(s, a + b) {
      forall k | 0 <= k < |a|
        ensures SameIgnoringCase(s[k], a[k])
      {
        assert (a + b)[k] == a[k];
      }
      forall k | 0 <= k < |b|
        ensures SameIgnoringCase(s[|a|..][k], b[k])
      {
        assert (a + b)[|a| + k] == b[k];
      }
    }
  }

  /** Matching a run of literals followed by `rest` is matching the literals
      as a case-insensitive prefix, then `rest` on what follows. */
  lemma {:induction false} LiteralThen(w: string, rest: seq<Atom>, s: string)
    ensures MatchesPrefix(Literal(w) + rest, s)
        <==> StartsWithIgnoringCase(s, w) && MatchesPrefix(rest, s[|w|..])
    decreases |w|
  {
    var p := Literal(w) + rest;
    if |w| == 0 {
      assert p == rest;
      assert s[0..] == s;
    } else {
      assert p[0] == Lit(w[0]);
      assert p[1..] == Literal(w[1..]) + rest;
      assert w == [w[0]] + w[1..];
      if |s| > 0 {
        LiteralThen(w[1..], rest, s[1..]);
        StartsWithConcat(s, [w[0]], w[1..]);
        if |w| <= |s| {
          assert s[1..][|w| - 1..] == s[|w|..];
        }
      }
    }
  }

  /** The compiled pattern accepts exactly the strings with an `http://` or
      `https://` prefix, in any letter case. */
  lemma {:induction false} UrlPatternMeansHttpScheme(s: string)
    ensures MatchesPrefix(UrlPattern, s) <==> HasHttpScheme(s)
  {
    var tail := [Opt('s')] + Literal("://");
    assert UrlPattern == Literal("http") + tail;
    LiteralThen("http", tail, s);
    assert "http://" == "http" + "://";
    assert "https://" == "http" + "s://";
    StartsWithConcat(s, "http", "://");
    StartsWithConcat(s, "http", "s://");
    if |s| >= 4 {
      var u := s[4..];
      assert tail[0] == Opt('s');
      assert tail[1..] == Literal("://") + [];
      LiteralThen("://", [], u);
      assert "s://" == "s" + "://";
      StartsWithConcat(u, "s", "://");
      if |u| > 0 {
        LiteralThen("://", [], u[1..]);
      }
    }
  }

  /** Whitespace around the value never decides acceptance. */
  lemma UrlAcceptedIff(raw: string)
    ensures UrlAccepted(raw) <==> HasHttpScheme(Strip(raw))
  {
    UrlPatternMeansHttpScheme(Strip(raw));
  }

  /** A raw value that, once stripped, is empty or does not open with `h`
      or `H` is refused. */
  lemma RejectsWithoutLeadingH(s: string)
    requires |Strip(s)| == 0 || Fold(Strip(s)[0]) != 'h'
    ensures !UrlAccepted(s)
  {
    RejectsStrippedWithoutLeadingH(Strip(s));
    StripIdempotent(s);
  }

  /** The step of `RejectsWithoutLeadingH` for a value that is already
      stripped; it spares the concrete cases below from unfolding `Strip`. */
  lemma RejectsStrippedWithoutLeadingH(s: string)
    requires IsStripped(s)
    requires |s| == 0 || Fold(s[0]) != 'h'
    ensures !UrlAccepted(s)
  {
    assert Fold('h') == 'h';
    assert !StartsWithIgnoringCase(s, "http://") && !StartsWithIgnoringCase(s, "https://") by {
      if |s| > 0 {
        assert "http://"[0] == 'h' && "https://"[0] == 'h';
      }
    }
    StrippedIsFixed(s);
    UrlAcceptedIff(s);
  }

  /** Values without an http(s) scheme are refused, the empty one included. */
  lemma RejectedExamples()
    ensures !UrlAccepted("ftp://x")
    ensures !UrlAccepted("example.com")
    ensures !UrlAccepted("not-a-url")
    ensures !UrlAccepted("")
  {
    RejectsStrippedWithoutLeadingH("ftp://x");
    RejectsStrippedWithoutLeadingH("example.com");
    RejectsStrippedWithoutLeadingH("not-a-url");
    RejectsStrippedWithoutLeadingH("");
  }

  /** Upper-case schemes and surrounding whitespace are accepted. */
  lemma AcceptedExample()
    ensures UrlAccepted(" HTTPS://example.com\n")
  {
    var u := "HTTPS://example.com";
    assert StartsWithIgnoringCase(u, "https://");
    assert " HTTPS://example.com\n" == " " + u + "\n";
    StripUnique(" ", u, "\n");
    UrlAcceptedIff(" HTTPS://example.com\n");
  }

  /** The regex engine's case folding also lets LATIN SMALL LETTER LONG S
      stand for the `s` of `https`. */
  lemma LongSAccepted()
    ensures UrlAccepted("http\U{17F}://x")
  {
    var u := "http\U{17F}://x";
    assert Fold('\U{17F}') == 's';
    assert StartsWithIgnoringCase(u, "https://");
    StrippedIsFixed(u);
    UrlAcceptedIff(u);
  }
}
