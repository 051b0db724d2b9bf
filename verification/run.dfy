/** The control flow of `main` in main.py, without its I/O: strip the URL,
    refuse it with exit status 2, or resolve the file name and hand both to
    the QR encoder, whose success or failure sets the final status. */
module Run {
  import opened Wrappers
  import opened Text
  import opened Filename
  import opened UrlCheck

  const SuccessStatus: int := 0
  const FailureStatus: int := 1
  const InvalidUrlStatus: int := 2

  /** What `main` does once the arguments are parsed: stop with an exit
      status, or go on to encode `url` into the file `filename`. */
  datatype Decision = Reject(status: int) | Proceed(url: string, filename: string)

  /** `urlArg` and `filenameArg` are the parsed `--url` and `--filename`
      values; `defaultName` is the `FILENAME` setting and `stamp` the
      formatted clock reading. */
  function Decide(urlArg: string, filenameArg: string, defaultName: string, stamp: string): (d: Decision)
    ensures d.Reject? <==> !HasHttpScheme(Strip(urlArg))
    ensures d.Reject? ==> d.status == InvalidUrlStatus
    ensures d.Proceed? ==> d.url == Strip(urlArg) && HasHttpScheme(d.url)
    ensures d.Proceed? ==> HasPngExtension(d.filename) && IsStripped(d.filename)
  {
    var url := Strip(urlArg);
    UrlAcceptedIff(urlArg);
    if !UrlAccepted(urlArg) then Reject(InvalidUrlStatus)
    else Proceed(url, BuildFilename(Some(filenameArg), defaultName, stamp))
  }

  /** The process exit status once the arguments are parsed.
      `encodes(url, filename)` stands for every step after the decision:
      directory creation, the QR encoder and image write, and the final
      message. It is true when none of them raises, and it is reached only on
      `Proceed`. */
  function ExitStatus(d: Decision, encodes: (string, string) -> bool): (code: int)
    ensures d.Proceed? ==> (code == SuccessStatus <==> encodes(d.url, d.filename))
    ensures d.Proceed? ==> (code == FailureStatus <==> !encodes(d.url, d.filename))
    ensures d.Reject? ==> code == d.status
  {
    match d
    case Reject(status) => status
    case Proceed(url, filename) => if encodes(url, filename) then SuccessStatus else FailureStatus
  }

  /** A refused URL ends the run before any file name is built: the outcome
      does not depend on the file-name inputs or on the encoder. */
  lemma RejectBuildsNothing(u: string, f1: string, n1: string, t1: string,
                            f2: string, n2: string, t2: string,
                            e1: (string, string) -> bool, e2: (string, string) -> bool)
    requires Decide(u, f1, n1, t1).Reject?
    ensures Decide(u, f2, n2, t2) == Decide(u, f1, n1, t1)
    ensures ExitStatus(Decide(u, f1, n1, t1), e1) == InvalidUrlStatus
    ensures ExitStatus(Decide(u, f2, n2, t2), e2) == InvalidUrlStatus
  {
  }

  /** Exit status 2 is reserved for refused URLs: an accepted URL ends with
      0 or 1 whatever the encoder does. */
  lemma InvalidUrlStatusIffRejected(u: string, f: string, n: string, t: string, e: (string, string) -> bool)
    ensures ExitStatus(Decide(u, f, n, t), e) == InvalidUrlStatus <==> !HasHttpScheme(Strip(u))
  {
  }

  /** An accepted URL reaches the encoder exactly as typed, minus the
      surrounding whitespace. */
  lemma {:induction false} AcceptedUrlPassesThrough(p: string, u: string, q: string,
                                                    f: string, n: string, t: string)
    requires AllSpace(p) && AllSpace(q)
    requires IsStripped(u) && HasHttpScheme(u)
    ensures Decide(p + u + q, f, n, t) == Proceed(u, BuildFilename(Some(f), n, t))
  {
    StripUnique(p, u, q);
  }

  /** `https://example.com` with no file name and no default proceeds with
      the timestamp name; `not-a-url` stops with status 2. */
  lemma EndToEndExamples(t: string)
    ensures Decide("https://example.com", "", "", t) == Proceed("https://example.com", "qr_" + t + PngExtension)
    ensures Decide("not-a-url", "", "", t) == Reject(InvalidUrlStatus)
  {
    var u := "https://example.com";
    assert StartsWithIgnoringCase(u, "https://");
    assert "" + u + "" == u;
    AcceptedUrlPassesThrough("", u, "", "", "", t);
    TimestampFallback(Some(""), t);
    RejectedExamples();
  }
}
