# QR-code CLI: URL acceptance and output naming

A command-line tool that turns a URL into a QR-code PNG. Almost all of it
is glue around the `qrcode` library. Two pure string rules decide what a
run does, and this Dafny project models and proves those:

- **URL acceptance.** `main` strips the `--url` value. It accepts the value
  only if the regex `^https?://` matches it under `re.IGNORECASE`. A refused
  value ends the run with exit status 2, before any file name is built or
  anything is encoded.
- **Output naming** (`build_filename`). The tool picks a base name in a fixed
  order: the `--filename` hint, then the `FILENAME` setting, then
  `qr_<YYYYMMDD_HHMMSS>.png`. It strips that base and appends `.png` unless
  the name already ends in `.png` in any letter case.

Modules:

- `Text` (text.dfy) models Python's `str.strip()`, ASCII `str.lower()` and `str.endswith`.
  `StripScan` mirrors CPython's two-index strip loop and is proved equal to the functional `Strip`.
- `UrlCheck` (url.dfy) gives the compiled pattern as data: literal and optional-literal atoms.
  A backtracking matcher models `re.match`, and a lemma proves it equal to "starts with
  `http://` or `https://`, ignoring case".
- `Filename` (filename.dfy) models `build_filename`. The default filename and the formatted
  clock reading are parameters.
- `Run` (run.dfy) models the decision in `main` and the exit status. The encoder's
  success is a parameter.
- `Wrappers` (wrappers.dfy) holds the `Option` type used for Python's `None`.

Character semantics:

- `Text.IsSpace` is CPython's whitespace table, not just ASCII. It covers 0x09-0x0D,
  0x1C-0x1F, space, U+0085, U+00A0, U+1680, U+2000-U+200A, U+2028, U+2029, U+202F, U+205F
  and U+3000. So `Strip` is `str.strip()` on every Dafny string. A Dafny `char` cannot be a lone
  surrogate code point, which a Python `str` can hold; see "## Left out".
- `Text.Lower` lowers ASCII letters only. For the `.png` suffix test this matches Python
  exactly. Only U+0130 and U+212A lower to ASCII characters (`i` plus a combining dot, and
  `k`). Neither of those can produce `.`, `p`, `n` or `g`.
- `UrlCheck.Fold` is the case folding Python's regex engine applies to the letters of
  `^https?://`. That is ASCII case, plus U+017F LATIN SMALL LETTER LONG S, which the engine
  treats as a case variant of `s`. So `httpſ://x` is accepted (`UrlCheck.LongSAccepted`).

Two behaviours of the code that a reader might not expect, both modelled as written:

- The hint is tested for emptiness before it is stripped. A whitespace-only hint therefore
  wins over the default and yields the name `.png`.
- The timestamp name is never stripped. `stamp` is used exactly as given.

## Model

| member | source | states |
|---|---|---|
| Text.Strip | main.py:38-40 | `strip()` returns a slice of its input with no whitespace at either end; everything removed in front of and behind it is whitespace |
| Text.StripUnique | main.py:74 | wrapping a stripped string in any whitespace and stripping again gives that string back, so `strip()` removes exactly the surrounding whitespace |
| Text.StrippedIsFixed | main.py:38 | a string with no surrounding whitespace is unchanged by `strip()` |
| Text.StripIdempotent | main.py:38 | stripping twice is the same as stripping once |
| Text.StripAllSpace | main.py:38 | a whitespace-only string strips to the empty string |
| Text.StripScan | main.py:38 | the index scan from both ends computes the same string as `strip()` |
| Text.Lower | main.py:45 | lower-casing keeps the length, turns each of `A`-`Z` into the matching letter of `a`-`z`, and leaves every other character as it is |
| UrlCheck.UrlPatternMeansHttpScheme | main.py:23 | the pattern `^https?://` with IGNORECASE matches a string iff the string starts with `http://` or `https://`, ignoring case |
| UrlCheck.LiteralThen | main.py:23 | matching a run of literal characters and then more pattern is a case-insensitive prefix test followed by matching the rest |
| UrlCheck.UrlAcceptedIff | main.py:74-75 | the raw `--url` value is accepted iff its stripped form has an http(s) scheme prefix in any case |
| UrlCheck.RejectsWithoutLeadingH | main.py:74-77 | a raw value that, after stripping, is empty or does not begin with `h`/`H` is refused |
| UrlCheck.RejectedExamples | main.py:74-77 | `ftp://x`, `example.com`, `not-a-url` and the empty string are refused |
| UrlCheck.AcceptedExample | main.py:74-75 | ` HTTPS://example.com` followed by a newline is accepted, so upper case and surrounding whitespace do not matter |
| UrlCheck.LongSAccepted | main.py:23 | the regex engine's case folding also accepts U+017F as the `s` of `https` |
| Filename.AppendedPngHasExtension | main.py:45-46 | any name with `.png` appended passes the case-insensitive `.png` test |
| Filename.EnsurePngExtension | main.py:45-47 | the result always ends in `.png` (any case); it is the base itself when the base already has the extension, and exactly the base followed by `.png` otherwise |
| Filename.BuildFilename | main.py:36-47 | every resolved name ends in `.png` in some letter case and has no leading or trailing whitespace |
| Filename.HintTakesPriority | main.py:37-38 | with a non-empty hint the result does not depend on the default name or the clock |
| Filename.KeepsExistingExtension | main.py:37-38 | a hint whose stripped form already ends in `.png` in any case (e.g. `report.PNG`) is returned stripped, with nothing appended |
| Filename.AppendsExtension | main.py:38-46 | otherwise the result is the stripped hint followed by `.png` |
| Filename.WhitespaceOnlyHint | main.py:37-46 | a whitespace-only hint is still chosen and yields exactly `.png` |
| Filename.DefaultActsAsHint | main.py:39-40 | with no hint (None or empty) a non-empty default gives the same name it would give as a hint, and the clock is not consulted |
| Filename.TimestampFallback | main.py:41-43 | with no hint and no default the name is `qr_` + stamp + `.png` |
| Filename.BuildFilenameIdempotent | main.py:36-47 | passing a resolved name back in as the hint returns it unchanged, whatever the default and clock are then |
| Filename.ExampleAppends | main.py:45-46 | the hint `report` yields `report.png` |
| Filename.ExampleKeeps | main.py:45-47 | the hints `report.png` and `report.PNG` are returned unchanged |
| Run.Decide | main.py:74-79 | the run is refused with status 2 iff the stripped URL lacks an http(s) scheme; otherwise it proceeds with the stripped URL and a name ending in `.png` with no surrounding whitespace |
| Run.ExitStatus | main.py:85-95 | after proceeding, the status is 0 iff the steps after the decision succeed and 1 iff one of them raises; a refusal keeps its status |
| Run.RejectBuildsNothing | main.py:74-79 | a refused URL gives the same outcome whatever the file-name inputs and the encoder are, and always exits with status 2 |
| Run.InvalidUrlStatusIffRejected | main.py:74-90 | once the arguments are parsed, exit status 2 occurs exactly when the URL is refused |
| Run.AcceptedUrlPassesThrough | main.py:74-87 | an accepted URL with any surrounding whitespace reaches the encoder as the bare URL, together with the name `build_filename` gives |
| Run.EndToEndExamples | main.py:74-87 | `https://example.com` with no name proceeds with `qr_<stamp>.png`; `not-a-url` ends with status 2 |

## Left out

- QR encoding, rasterization and the image write (`generate_qr`, main.py:49-59). They are a
  call into the `qrcode` library. `Run.ExitStatus` takes only their success or failure, as a
  function of URL and file name.
- Logging (`configure_logger`, main.py:29-34, and every `logger` call). This is console and
  rotating-file output with no effect on the decision.
- Directory creation (`ensure_dirs`, main.py:25-27), the output path join
  `OUTPUT_DIR / filename` (main.py:80), and the success message and `print` (main.py:92-95).
  These are filesystem and console I/O.
- `.env` loading, environment reads and `int(...)` parsing of the defaults (main.py:12-20).
  The `FILENAME` setting reaches the model as the parameter `defaultName`.
- Argument parsing (main.py:61-68). The parsed `--url` and `--filename` values are
  parameters. `--box-size`, `--border` and `--silent` only matter to the encoder and to
  output, so they are not modelled.
- The clock and `strftime("%Y%m%d_%H%M%S")` (main.py:42). The formatted stamp is a string
  parameter, and its digit format is not checked.
- Text.Lower: lowers ASCII letters only, not all of Unicode. This is exact for the `.png`
  suffix test, which is its only use.
- Run.InvalidUrlStatusIffRejected: the iff holds only once argument parsing has succeeded.
  `parse_args()` (main.py:72) also exits with status 2 on a malformed flag, such as a
  non-integer `--border`, and argument parsing is not modelled.
- Run.ExitStatus: `encodes` stands for everything after the decision, not only the encoder
  call at main.py:87. It also covers `ensure_dirs()` at main.py:85 and the `resolve()`, log
  and `print` steps at main.py:92-95. An exception in any of these ends the run with status 1.
- Text.IsSpace: Dafny strings cannot hold lone surrogates (U+D800-U+DFFF). Python strings can,
  for example from undecodable command-line bytes. Surrogates are neither whitespace nor cased,
  so the results would be the same.
- UrlCheck.Fold: covers ASCII case and U+017F. These are all the case variants the regex
  engine recognises for the letters in `^https?://`. It is not general Unicode case folding.
