# Root-relative asset validator, modelled in Dafny

`scripts/check_root_assets.py` checks a static site. It scans every HTML file under the
repository root for `src="/…"` and `href='/…'` attribute values. It drops
protocol-relative values (`//host/…`) and the bare root. It then checks that
each remaining path exists on disk once its leading slashes are stripped,
testing each distinct path once. If any path is missing, it prints the
missing paths in sorted order under a header and exits with status 1.
Otherwise it prints a summary line with the number of paths checked and the
number of HTML files.

The model is split into five modules:

- `AssetPattern` (`asset_pattern.dfy`): the attribute pattern
  `(?:src|href)=["'](/[^"'#?]+)` and the leftmost-first, non-overlapping
  `findall` scan, written as pure functions on suffixes of the text
  (`MatchAt`, `FindAll`). A declarative reading of one match, `AttributeAt`,
  sits beside them, with lemmas tying the two together. The scan has no word
  boundary, allows no whitespace around `=`, accepts either quote, stops the
  capture at `"`, `'`, `#` or `?`, and needs at least one character after
  the slash.
- `RootAssets` (`root_assets.dfy`): `lstrip("/")`, the filter, and the loop.
  The loop over files is the method `Validate`; its inner loop over one
  file's matches is `ScanMatches`. Both update local `checked` and `missing`
  sets under loop invariants. They also record, in `probes`, every path
  whose existence was tested, so the model can state that each path is
  tested once.
  - Their results are tied to the specification functions `CheckedOf`,
    `MissingOf` and `ProbesOf` of the extracted values (`Candidates`).
  - The exit status and the printed lines come from `Report`, and the whole
    run is `CheckRootAssets`.
- `TextOrder` (`text_order.dfy`): Python's ordering of `str` values and
  `sorted()` applied to the missing set. A set has exactly one sorted
  listing, so the report is determined.
- `Numerals` (`numerals.dfy`): the decimal rendering of the two counts in
  the summary line, with its inverse.
- `Scenarios` (`scenarios.dfy`): concrete pages and what the validator makes
  of them. These are a present asset, a missing asset with a query string
  and fragment, a protocol-relative script, one asset shared by two pages,
  an empty site, a `data-src` attribute, and a value with spaces in it.
  Two whole runs give the exit status and the printed lines.

The file system is a parameter. `pathExists(p)` says whether `p`, joined to
the root directory, exists as a file or a directory. The decoded texts of
the HTML files are an input sequence, in the order the directory walk
yields them.

The comment on line 13 says the pattern ignores protocol-relative values.
It does not: the pattern also captures `//cdn…` values, and line 22 drops
them afterwards. The model follows the code. `FindAll` captures them, and
`CdnPageFound` shows one such capture. The `match == "/"` half of the filter
on line 22 never applies, because the `+` in the pattern needs a character
after the slash. `BareRootNeverCandidate` proves this. It does not change
any result, so it is not recorded as a defect.

## Model

| member | source | states |
|---|---|---|
| AssetPattern.KeywordLength | scripts/check_root_assets.py:14 | the alternative `(?:src|href)` read case-sensitively: the length of `src` or `href` when the text starts with it, 0 otherwise |
| AssetPattern.RunLength | scripts/check_root_assets.py:14 | the greedy run `[^"'#?]*` holds no terminator and stops at the first terminator or at the end of the text |
| AssetPattern.MatchAt | scripts/check_root_assets.py:14 | a match at the start of a text captures a well-formed path that ends where the whole match ends, within the text |
| AssetPattern.FindAll | scripts/check_root_assets.py:21 | every value `findall` returns is a well-formed capture: a slash, at least one more character, no quote, `#` or `?` |
| AssetPattern.MatchAtMeansAttribute | scripts/check_root_assets.py:14 | the pattern matches at the start of a text with group `v` exactly when the text opens with `src=` or `href=`, a quote, and `v` followed by a terminator or the end (both directions) |
| AssetPattern.AttributeIsMatched | scripts/check_root_assets.py:14 | when the declarative reading holds, the whole match is keyword, `=`, quote and value, so the scan resumes right after the value |
| AssetPattern.FindAllShape | scripts/check_root_assets.py:13-14 | an extracted value starts with `/`, is at least two characters long, is never `"/"`, and holds no `"`, `'`, `?` or `#` |
| AssetPattern.FindAllSound | scripts/check_root_assets.py:21 | every extracted value is the group of a match of the pattern at some position of the text |
| AssetPattern.FindAllEmptyIff | scripts/check_root_assets.py:21 | the scan yields nothing exactly when the pattern matches at no position (both directions) |
| AssetPattern.FindAllSkipsTo | scripts/check_root_assets.py:21 | positions where the pattern does not match are skipped one at a time, so the scan of a text equals the scan of the text from its first match on |
| AssetPattern.NoAttributeFirst | scripts/check_root_assets.py:21 | when no attribute starts the text, the scan retries one character further on |
| AssetPattern.AttributeFirst | scripts/check_root_assets.py:14-21 | an attribute at the start of the text is matched whole, yields its value first, and the scan resumes right after it |
| AssetPattern.FindAllLeftmost | scripts/check_root_assets.py:21 | the first extracted value is the group of the match at the earliest position where the pattern matches, and the remaining values are those of the text after that whole match (keyword, `=`, quote and value) |
| AssetPattern.FindAllQuiet | scripts/check_root_assets.py:14 | a text with no `=`, or with neither `s` nor `h`, yields nothing |
| AssetPattern.MatchSpellsKeyword | scripts/check_root_assets.py:14 | a match begins with `src=` or `href=` spelled out |
| AssetPattern.FindAllSkipsPrefix | scripts/check_root_assets.py:21 | text without `=` before a keyword letter cannot start a match, so the scan skips it |
| AssetPattern.FindAllAttributeFirst | scripts/check_root_assets.py:14 | an attribute at the start of a text yields its path, then the scan resumes after it |
| AssetPattern.FindAllAttribute | scripts/check_root_assets.py:21 | text without `=`, then an attribute with a well-formed path ending at a terminator, yields that path first and then whatever the rest yields |
| RootAssets.Skipped | scripts/check_root_assets.py:22 | the filter: a value starting with `//` or equal to `/` is skipped |
| RootAssets.LStripSlash | scripts/check_root_assets.py:27 | the result is a suffix of the input, does not start with `/`, and only slashes were removed |
| RootAssets.Candidates | scripts/check_root_assets.py:19-21 | the extracted values of all files, file after file in walk order, each file's values in the order `findall` returns them |
| RootAssets.CandidatesStep | scripts/check_root_assets.py:19-21 | one more file appends its extracted values, in text order, after those of the files before it |
| RootAssets.Validate | scripts/check_root_assets.py:16-29 | the loop over the files leaves `checked`, `missing` and the existence tests equal to their specification functions of all extracted values; `missing` is a subset of `checked`; a value is missing iff it is checked and its stripped path does not exist; every checked value is tested, and none twice |
| RootAssets.ScanMatches | scripts/check_root_assets.py:21-29 | the loop over one file's matches extends the three results by that file's values, and `checked` and `missing` only grow |
| RootAssets.ResultsConsistent | scripts/check_root_assets.py:24-29 | for any sequence of values, `missing` lies within `checked`, a value is missing iff it is checked and absent, and the existence tests are the checked values without repeats |
| RootAssets.CheckedStep | scripts/check_root_assets.py:22-26 | one more value adds itself to `checked` unless the filter drops it |
| RootAssets.MissingStep | scripts/check_root_assets.py:22-29 | one more value adds itself to `missing` exactly when the filter keeps it and its stripped path does not exist |
| RootAssets.ProbesStep | scripts/check_root_assets.py:22-28 | one more value is tested for existence exactly when the filter keeps it and it is not yet checked |
| RootAssets.Unchanged | scripts/check_root_assets.py:22-25 | a value the filter drops, or one already checked, changes none of the results |
| RootAssets.RepeatAddsNothing | scripts/check_root_assets.py:24-25 | a value seen before, in the same file or another, changes none of the results |
| RootAssets.KeptMembers | scripts/check_root_assets.py:22-23 | the values the filter keeps are the extracted values that are neither protocol-relative nor the bare root |
| RootAssets.FirstOccurrencesDistinct | scripts/check_root_assets.py:24-26 | keeping each value's first occurrence keeps every value and repeats none |
| RootAssets.ProbesMatchChecked | scripts/check_root_assets.py:24-28 | each checked value is tested for existence exactly once, with as many tests as checked values |
| RootAssets.CandidatesWellFormed | scripts/check_root_assets.py:19-21 | every value extracted from any file has the shape the pattern guarantees |
| RootAssets.BareRootNeverCandidate | scripts/check_root_assets.py:22 | `"/"` is never extracted, so for extracted values the filter reduces to "starts with `//`" |
| RootAssets.ProtocolRelativeIgnored | scripts/check_root_assets.py:22-23 | a value starting with `//` is never checked and never missing |
| RootAssets.CheckedPathsAreRootRelative | scripts/check_root_assets.py:27 | a checked value has exactly one leading slash, so stripping removes that slash alone and leaves a non-empty path |
| RootAssets.CandidatesAppend | scripts/check_root_assets.py:19-21 | the values of two runs of files are those of the first run followed by those of the second |
| RootAssets.CandidatesPrefix | scripts/check_root_assets.py:19-21 | the values of the first `i` files come first among the values of the first `j` files |
| RootAssets.ResultsOnlyGrow | scripts/check_root_assets.py:16-29 | `checked` and `missing` after `i` files are contained in `checked` and `missing` after `j >= i` files |
| RootAssets.SummaryLine | scripts/check_root_assets.py:37 | spells line 37's text with the checked count and the file count in decimal |
| RootAssets.Indented | scripts/check_root_assets.py:34 | each missing path on a line of its own after two spaces, in the order given |
| RootAssets.Report | scripts/check_root_assets.py:31-37 | status 1 iff something is missing, status 0 iff nothing is; on success the single summary line; on failure the header `MissingHeader` (line 32's text) followed by the missing paths, each indented, in ascending order, each once |
| RootAssets.CheckRootAssets | scripts/check_root_assets.py:19-37 | the run fails iff some extracted, kept path does not exist; it prints the summary with `|checked|` and the file count on success and the sorted missing list on failure; with no files it succeeds with both counts 0 |
| TextOrder.Less | scripts/check_root_assets.py:33 | Python's `str` order: the first differing code point decides, and a proper prefix sorts first |
| TextOrder.LessIrreflexive | scripts/check_root_assets.py:33 | no string sorts before itself |
| TextOrder.LessTransitive | scripts/check_root_assets.py:33 | the string order is transitive |
| TextOrder.LessTotal | scripts/check_root_assets.py:33 | any two different strings are ordered one way or the other |
| TextOrder.ListingCount | scripts/check_root_assets.py:33-34 | a sorted listing of a set has one entry per element and repeats none |
| TextOrder.ListingUnique | scripts/check_root_assets.py:33 | a set has only one sorted listing |
| TextOrder.RestListing | scripts/check_root_assets.py:33 | dropping the first entry of a sorted listing lists the set without that element |
| TextOrder.Least | scripts/check_root_assets.py:33 | returns the element of a non-empty set that sorts before every other |
| TextOrder.SortedElements | scripts/check_root_assets.py:33 | `sorted(s)` lists the elements of `s` in strictly ascending order, all of them and nothing else |
| Numerals.ToDecimal | scripts/check_root_assets.py:37 | the rendering of a count is a non-empty string of digits, with no leading zero unless the count is 0 |
| Numerals.DecimalRoundTrip | scripts/check_root_assets.py:37 | reading the rendered digits gives the count back |
| Numerals.DecimalInjective | scripts/check_root_assets.py:37 | different counts render differently |
| Scenarios.LogoPageFound | scripts/check_root_assets.py:14 | `<img src="/static/logo.png">` yields exactly `/static/logo.png` |
| Scenarios.DocsPageFound | scripts/check_root_assets.py:14 | `<a href="/docs/missing.html?x=1#frag">` yields exactly `/docs/missing.html`, cut at the query string |
| Scenarios.CdnPageFound | scripts/check_root_assets.py:14 | `<script src="//cdn.example.com/lib.js">` yields the protocol-relative value itself |
| Scenarios.LinkPageFound | scripts/check_root_assets.py:14 | `<link href="/shared/style.css">` yields exactly `/shared/style.css` |
| Scenarios.StylePageFound | scripts/check_root_assets.py:14 | a single-quoted `href` inside other markup yields exactly its path |
| Scenarios.DataAttributeMatches | scripts/check_root_assets.py:14 | with no word boundary, `data-src="/lazy.png"` yields `/lazy.png` |
| Scenarios.SpacesStayInValue | scripts/check_root_assets.py:14 | spaces and `>` stay in the captured value; only a quote, `#` or `?` ends it |
| Scenarios.OnePage | scripts/check_root_assets.py:21-29 | a site of one page holding one value checks it unless the filter drops it, and reports it missing exactly when it is checked and absent |
| Scenarios.TwoPagesOneValue | scripts/check_root_assets.py:24-28 | a value referenced by two pages is checked once and tested once |
| Scenarios.PresentAsset | scripts/check_root_assets.py:19-29 | the logo page, with the logo on disk: `/static/logo.png` is checked and nothing is missing |
| Scenarios.MissingAssetWithQuery | scripts/check_root_assets.py:19-29 | the docs page, without the page on disk: `/docs/missing.html` is checked and missing |
| Scenarios.ProtocolRelativeScript | scripts/check_root_assets.py:22-23 | the CDN script page: nothing is checked and nothing is missing, whatever exists |
| Scenarios.SharedAsset | scripts/check_root_assets.py:24-28 | two pages linking `/shared/style.css`: one checked value, tested once |
| Scenarios.EmptySite | scripts/check_root_assets.py:31-37 | with no HTML files nothing is checked or missing, and the checked count renders as `0` |
| Scenarios.OneMissingLines | scripts/check_root_assets.py:31-34 | when exactly one path is missing, the printed lines are the header and that path after two spaces |
| Scenarios.PresentAssetRun | scripts/check_root_assets.py:19-37 | a whole run on the logo page with the logo on disk exits with status 0 and prints the summary for one asset in one file |
| Scenarios.MissingAssetRun | scripts/check_root_assets.py:19-35 | a whole run on the docs page without the page on disk exits with status 1 and prints the header and `  /docs/missing.html` |

## Left out

- Root resolution and file discovery (`Path(__file__).resolve().parents[1]`, `rglob("*.html")`, lines 10-11) are left out. They walk the file system, so the model takes the HTML files as a sequence of texts in walk order.
- Reading the files and lenient UTF-8 decoding with `errors="ignore"` (line 20) are left out. They are I/O and byte decoding, so the model takes the decoded text as given.
- Path joining and `Path.exists()` (lines 27-28) are replaced by the parameter `pathExists`, applied to the stripped path. The file system is assumed not to change during the run.
- `Path.exists()` can also raise, and the model has no such run. On Python before 3.13 it re-raises every `OSError` except ENOENT, ENOTDIR, EBADF and ELOOP. Examples are a `PermissionError` when a parent directory cannot be searched, or ENAMETOOLONG for an overlong captured value. The script then stops with a traceback and a non-zero status before printing any report.
- `print` and `sys.exit` (lines 32-37) are replaced by the returned status and the sequence of printed lines.
- `version-switch.js` is not part of this model. It is browser event wiring with no self-contained logic.
- `sorted()` is modelled as a selection of the least remaining element, not as Python's Timsort. Only its result is specified, and that result is unique (`TextOrder.ListingUnique`).
- `re.findall` is modelled for this one pattern only, not as a general regular-expression engine.
