/** Output file naming, `build_filename` in main.py: pick a base name (explicit
    hint, else the configured default, else a timestamp name), strip it, and
    append `.png` unless it already ends in `.png` in any letter case. */
module Filename {
  import opened Wrappers
  import opened Text

  const PngExtension: string := ".png"

  /** `name.lower().endswith(".png")`. Lowering only ASCII letters decides
      this exactly: no other character lowers to `.`, `p`, `n` or `g`. */
  predicate HasPngExtension(name: string) {
    EndsWith(Lower(name), PngExtension)
  }

  /** Python's truthiness of `name_hint`: neither `None` nor the empty string. */
  predicate HintGiven(hint: Option<string>) {
    hint.Some? && hint.value != ""
  }

  /** The `base` that `build_filename` settles on before the extension check.
      `stamp` stands for `datetime.now().strftime("%Y%m%d_%H%M%S")`. */
  function ChooseBase(hint: Option<string>, defaultName: string, stamp: string): string {
    if HintGiven(hint) then Strip(hint.value)
    else if defaultName != "" then Strip(defaultName)
    else "qr_" + stamp + PngExtension
  }

  lemma AppendedPngHasExtension(base: string)
    ensures HasPngExtension(base + PngExtension)
  {
    var low := Lower(base + PngExtension);
    assert low[|low| - |PngExtension|..] == PngExtension by {
      forall k | 0 <= k < |PngExtension|
        ensures low[|base| + k] == PngExtension[k]
      {
        assert (base + PngExtension)[|base| + k] == PngExtension[k];
      }
    }
  }

  /** Appends `.png` only where it is missing: the result always carries the
      extension and starts with `base`; it is `base` itself when the extension
      is already there, and `base` followed by exactly `.png` otherwise. */
  function EnsurePngExtension(base: string): (r: string)
    ensures HasPngExtension(r)
    ensures |base| <= |r| && r[..|base|] == base
    ensures HasPngExtension(base) ==> r == base
    ensures !HasPngExtension(base) ==> r == base + PngExtension
  {
    if HasPngExtension(base) then base
    else
      AppendedPngHasExtension(base);
      base + PngExtension
  }

  /** `build_filename(name_hint)` with the module-level default filename and
      the formatted clock reading passed in. Every result carries the `.png`
      extension and has no surrounding whitespace. */
  function BuildFilename(hint: Option<string>, defaultName: string, stamp: string): (r: string)
    ensures HasPngExtension(r)
    ensures IsStripped(r)
  {
    var base := ChooseBase(hint, defaultName, stamp);
    ChooseBaseStripped(hint, defaultName, stamp);
    ExtensionKeepsStripped(base);
    EnsurePngExtension(base)
  }

  /** Every base `build_filename` can choose is free of surrounding
      whitespace: the hint and the default are stripped, and the timestamp
      name starts with `q` and ends with `g`. */
  lemma ChooseBaseStripped(hint: Option<string>, defaultName: string, stamp: string)
    ensures IsStripped(ChooseBase(hint, defaultName, stamp))
  {
    if !HintGiven(hint) && defaultName == "" {
      var base := "qr_" + stamp + PngExtension;
      assert base[0] == 'q' && base[|base| - 1] == 'g';
    }
  }

  /** Adding the extension to a stripped name leaves it stripped. */
  lemma ExtensionKeepsStripped(base: string)
    requires IsStripped(base)
    ensures IsStripped(EnsurePngExtension(base))
  {
    if !HasPngExtension(base) {
      var r := base + PngExtension;
      assert r[|r| - 1] == 'g';
      assert r[0] == if |base| > 0 then base[0] else '.';
    }
  }

  /** A non-empty hint decides the name alone: the default and the clock are
      never consulted. */
  lemma HintTakesPriority(h: string, d1: string, t1: string, d2: string, t2: string)
    requires h != ""
    ensures BuildFilename(Some(h), d1, t1) == BuildFilename(Some(h), d2, t2)
  {
  }

  /** A stripped hint already ending in `.png` (any case) is kept verbatim. */
  lemma KeepsExistingExtension(h: string, d: string, t: string)
    requires h != ""
    requires HasPngExtension(Strip(h))
    ensures BuildFilename(Some(h), d, t) == Strip(h)
  {
  }

  /** Otherwise exactly `.png` is appended to the stripped hint. */
  lemma AppendsExtension(h: string, d: string, t: string)
    requires h != ""
    requires !HasPngExtension(Strip(h))
    ensures BuildFilename(Some(h), d, t) == Strip(h) + PngExtension
  {
  }

  /** A whitespace-only hint is still chosen; it strips to nothing and the
      name is the bare extension. */
  lemma WhitespaceOnlyHint(h: string, d: string, t: string)
    requires h != ""
    requires AllSpace(h)
    ensures BuildFilename(Some(h), d, t) == PngExtension
  {
    StripAllSpace(h);
    assert !HasPngExtension("");
    assert "" + PngExtension == PngExtension;
  }

  /** Without a hint, a non-empty default is treated exactly as a hint would
      be, and the clock is not consulted. */
  lemma DefaultActsAsHint(hint: Option<string>, d: string, t1: string, t2: string)
    requires !HintGiven(hint)
    requires d != ""
    ensures BuildFilename(hint, d, t1) == BuildFilename(Some(d), "", t2)
  {
  }

  /** With neither hint nor default, the name is `qr_<stamp>.png`, and the
      stamp is used as given. */
  lemma TimestampFallback(hint: Option<string>, t: string)
    requires !HintGiven(hint)
    ensures BuildFilename(hint, "", t) == "qr_" + t + PngExtension
  {
    AppendedPngHasExtension("qr_" + t);
    assert "qr_" + t + PngExtension == ("qr_" + t) + PngExtension;
  }

  /** Feeding a resolved name back in as the hint returns it unchanged,
      whatever the default and the clock say then. */
  lemma {:induction false} BuildFilenameIdempotent(hint: Option<string>, d1: string, t1: string, d2: string, t2: string)
    ensures BuildFilename(Some(BuildFilename(hint, d1, t1)), d2, t2) == BuildFilename(hint, d1, t1)
  {
    var r := BuildFilename(hint, d1, t1);
    assert r != "";
    StrippedIsFixed(r);
  }

  lemma ReportLacksExtension()
    ensures !HasPngExtension("report")
    ensures "report" + PngExtension == "report.png"
  {
    assert Lower("report")[2] == "report"[2] == 'p';
  }

  /** `report` gains the extension. */
  lemma ExampleAppends(d: string, t: string)
    ensures BuildFilename(Some("report"), d, t) == "report.png"
  {
    ReportLacksExtension();
    AppendsToStrippedName("report", d, t);
  }

  lemma AppendsToStrippedName(h: string, d: string, t: string)
    requires h != "" && IsStripped(h) && !HasPngExtension(h)
    ensures BuildFilename(Some(h), d, t) == h + PngExtension
  {
    StrippedIsFixed(h);
    AppendsExtension(h, d, t);
  }

  /** `report.png` and `report.PNG` are kept as they are. */
  lemma ExampleKeeps(d: string, t: string)
    ensures BuildFilename(Some("report.png"), d, t) == "report.png"
    ensures BuildFilename(Some("report.PNG"), d, t) == "report.PNG"
  {
    assert Lower("report.png")[6..] == PngExtension;
    assert Lower("report.PNG")[6..] == PngExtension;
    StrippedIsFixed("report.png");
    KeepsExistingExtension("report.png", d, t);
    StrippedIsFixed("report.PNG");
    KeepsExistingExtension("report.PNG", d, t);
  }
}
