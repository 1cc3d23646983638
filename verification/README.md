# astro-optimizer, modelled in Dafny

A model of the text-processing core of the astro-optimizer scripts: four
Python programs that read an Astro web-site's source tree and then report on
it or rewrite it.

- `apply_optimizations.py` rewrites `.astro` and stylesheet files in place.
  It does this through five `re.sub` rewriters: lazy loading, async decoding,
  `fetchpriority="high"` on hero images, `font-display: swap` in
  `@font-face` blocks, and `defer` on external scripts. The rewriters are
  chained by file suffix. Each file is backed up before it is written, and
  the per-file results are folded into a project report.
- `analyze.py` runs seven analyzers (images, fonts, prefetch, preconnect,
  scripts, CSS, config) over the project. It keeps the findings of those that
  return normally and summarises them.
- `detect_js_patterns.py` reports, per file, the first match of each entry
  of its pattern table. It gives the line and an evidence snippet for each
  match, removes duplicate (pattern, file) findings and summarises the rest.
- `generate_preloads.py` turns fonts and critical background images in CSS,
  plus hero images in pages, into `<link rel="preload">` directives. It drops
  directives whose href was already seen and renders them grouped by scope.

Text is `seq<char>`. Each Python function is a pure Dafny function.

- **File system.** The files a directory walk yields are inputs, each with
  its content or `None` when reading raises. Backup and write appear as
  effects in a result.
- **Span finders.** The finders behind the rewriters are concrete functions.
  Each states where Python's backtracking search for its own regular
  expression ends: `<img` up to the first `>`; `@font-face`, whitespace, `{`
  up to the first `}`; the hero and external-script patterns with their
  rightmost completing attribute. The origin regex of the preconnect check is
  concrete as well.
- **Abstract regexes.** The other regular expressions are parameters:
  - the fifteen-entry JavaScript pattern table;
  - the `url(...)` extraction inside a font face;
  - the CSS background rule;
  - the page hero `src` pattern;
  - the `@font-face ... src: url(...)` pattern of `analyze_fonts`.

Modules:

- **Text:** `in`, `lower`, `count`, `split`, `join`, `strip`, slicing.
- **Matchers:** the span finders, and `re.finditer` as a segmentation of the
  text.
- **Rewriters:** the five rewriters and the `re.sub` scan, with locality.
- **Idempotence:** a second run of the `<img` attribute rewriters and of the
  font-display rewriter changes nothing.
- **Optimizer:** `optimize_file` and `optimize_project`.
- **Report:** line numbers and evidence shared by the finding reports.
- **Origins:** the origin regex and the `scheme//host` rebuild.
- **Analyze:** `analyze.py`.
- **Firsts:** the order-keeping "first per key" dedup loop both reports use.
- **JsPatterns:** `detect_js_patterns.py`.
- **Preloads:** `generate_preloads.py`.
- **AstroPass:** two runs of the `.astro` rewriter chain on one tag.

Behaviours of the code that a reader might expect to be otherwise, and
that the model follows:

- A file that cannot be decoded is not read as empty text. The code reads
  with `errors='ignore'` and lets any other read failure raise. In
  `analyze.py` a raise drops every finding of that analyzer, so the model
  gives such a file `None` content and the analyzer `None`.
- There is not at most one finding per (rule, file). `analyze.py` reports
  `image_cls` and `script_blocking` once per matching tag, so these two can
  repeat within a file. Every other `analyze.py` finding appears at most once
  per file, and `font_display` at most once per stylesheet. The JavaScript
  pattern report also keeps one finding per (pattern, file).
- The page hero `src` rule of `generate_preloads.py` puts `/` in front of
  absolute `http` URLs. The pipeline follows the code, through
  `HeroHref(AsWritten, ...)`, and the corrected rule is modelled beside it
  (see "## Findings").
- The blocking check and the defer rewriter use the same script pattern, but
  the check looks for `defer`/`async` in the tag as written and the rewriter
  in the lowered tag. Every tag the rewriter edits is flagged, but a tag
  holding `DEFER` is flagged and never edited.
- The `.astro` pass as a whole is not idempotent, although each `<img`
  attribute rewriter and the font-display rewriter is. The **AstroPass**
  module proves this on `<img id='hero x>`: the first pass writes
  `decoding="async"`, and its `"` closes the open `id` value, so the hero
  rewriter matches on a second pass.

## Model

| member | source | states |
|---|---|---|
| Text.Split | astro-optimizer/scripts/detect_js_patterns.py:595 | `split('\n')` gives one more piece than there are newlines, and no piece holds a newline |
| Text.SplitJoin | astro-optimizer/scripts/generate_preloads.py:169-172 | joining tags with `\n` and splitting on `\n` gives the tags back when no tag holds a newline |
| Text.JoinHoldsParts | astro-optimizer/scripts/generate_preloads.py:169-172 | every part of a `sep.join(...)` occurs in the joined text |
| Text.Strip | astro-optimizer/scripts/detect_js_patterns.py:596 | `strip()` removes whitespace only, all of it at both ends: the result is a slice of the line with only whitespace before and after it, and it neither starts nor ends with whitespace |
| Text.StripUnique | astro-optimizer/scripts/detect_js_patterns.py:596 | any slice of the line with only whitespace around it and no whitespace at either end is what `strip()` returns |
| Text.Take | astro-optimizer/scripts/detect_js_patterns.py:603 | `s[:n]` has length `min(n, len(s))` and is a prefix of `s` |
| Matchers.ImgTagEnd | astro-optimizer/scripts/apply_optimizations.py:69 | `<img[^>]*/?>` matches at the head exactly when the text starts with `<img` (any case) and a later `>` exists; the match ends at the first such `>` |
| Matchers.FontFaceEnd | astro-optimizer/scripts/apply_optimizations.py:107 | `@font-face\s*\{[^}]*\}` ends at the first `}` after the brace, and fails exactly when there is no brace or no later `}` |
| Matchers.Rightmost | astro-optimizer/scripts/apply_optimizations.py:28 | the greedy `[^>]*` settles on the rightmost attribute position that completes; none before the bound completes when it finds nothing |
| Matchers.AttrPatternEnd | astro-optimizer/scripts/apply_optimizations.py:123 | a hero or external-script match opens with its opener and closes at a `>` after it |
| Matchers.Segment | astro-optimizer/scripts/apply_optimizations.py:43 | the left-to-right scan cuts the text into plain characters and matched spans that concatenate back to the text, each span being what the finder matches there |
| Matchers.SegmentUnique | astro-optimizer/scripts/apply_optimizations.py:43 | any faithful cut of the text into characters and spans is the scan's own |
| Matchers.SpanIsMatch | astro-optimizer/scripts/apply_optimizations.py:43 | every span of a faithful cut is exactly the text the finder matches at that point |
| Matchers.Occurrences | astro-optimizer/scripts/analyze.py:52 | every `finditer` match lies in the text at its start offset and is what the finder matches from there |
| Rewriters.Callback | astro-optimizer/scripts/apply_optimizations.py:35-121 | a span that already carries the rule's marker is left alone and any other span gets the rule's edit; a replacement is longer than the span and carries the marker |
| Rewriters.HeroCallbackText | astro-optimizer/scripts/apply_optimizations.py:35-41 | a hero tag without `fetchpriority` becomes the tag up to its closing `>`, then ` fetchpriority="high"`, then the `>` |
| Rewriters.LazyCallbackText | astro-optimizer/scripts/apply_optimizations.py:51-67 | an unmarked `<img` tag ending in `/>` has it replaced by ` loading="lazy" />`, one ending in `>` has it replaced by ` loading="lazy">`, and any other tag is left alone |
| Rewriters.DecodingCallbackText | astro-optimizer/scripts/apply_optimizations.py:77-88 | the same with ` decoding="async" />` and ` decoding="async">` |
| Rewriters.FontCallbackText | astro-optimizer/scripts/apply_optimizations.py:98-105 | a block without `font-display` becomes `rule[:-1] + "\n  font-display: swap;\n}"` |
| Rewriters.DeferCallbackText | astro-optimizer/scripts/apply_optimizations.py:115-121 | a script tag without `defer` or `async` becomes `tag[:-1] + " defer>"` |
| Rewriters.EditMarks | astro-optimizer/scripts/apply_optimizations.py:38-40 | every edit writes the rule's own marker: `fetchpriority`, `loading=`, `decoding=`, `font-display` or `defer` |
| Rewriters.CallbackEditsNearEnd | astro-optimizer/scripts/apply_optimizations.py:61-66 | every edit keeps all of the tag but its last two characters (`tag[:-2]` or `tag[:-1]`) |
| Rewriters.CallbackSettles | astro-optimizer/scripts/apply_optimizations.py:100-105 | the callback never edits its own output again |
| Rewriters.Sub | astro-optimizer/scripts/apply_optimizations.py:43 | `re.sub` logs the rule's message once per edited span, grows the text by at least one character per change, and returns the text unchanged when nothing was logged |
| Rewriters.SubIsLocal | astro-optimizer/scripts/apply_optimizations.py:69 | the output is the input with each matched span replaced in place, nothing else changed, and there is exactly one change entry per span the callback edited |
| Rewriters.ApplyEditsUnmarked | astro-optimizer/scripts/apply_optimizations.py:43-121 | a rewriter replaces every matched span that is not yet marked, and that it can edit, by the rule's literal edit, copies everything else, and logs one change per such span |
| Rewriters.TextIgnoresMessage | astro-optimizer/scripts/apply_optimizations.py:39-40 | the change messages do not affect the rewritten text |
| Rewriters.IdempotentIfStable | astro-optimizer/scripts/apply_optimizations.py:38-43 | a scan whose edited spans are matched again whole, and whose misses stay misses, changes nothing on its own output |
| Rewriters.SubKeepsHead | astro-optimizer/scripts/apply_optimizations.py:43 | when no match starts among the first `n` positions and every match is longer than `keep`, with edits made near the span's end, the first `n + keep` characters come out unchanged |
| Rewriters.NoMatchIdentity | astro-optimizer/scripts/apply_optimizations.py:43 | a text with no match anywhere is returned unchanged with no changes |
| Idempotence.ImgReplaceShaped | astro-optimizer/scripts/apply_optimizations.py:61-66 | a lazy-loading or async-decoding edit of an `<img ...>` tag is again an `<img` tag closed by its only `>` |
| Idempotence.ImgMatchesShaped | astro-optimizer/scripts/apply_optimizations.py:69 | every `<img` match is a tag that opens with `<img` and has its only `>` at the end |
| Idempotence.ImgRematch | astro-optimizer/scripts/apply_optimizations.py:90 | such a tag is matched whole again whatever follows it |
| Idempotence.ImgMissesStay | astro-optimizer/scripts/apply_optimizations.py:90 | an edit never creates an `<img` match at a position where there was none |
| Idempotence.FontReplaceShaped | astro-optimizer/scripts/apply_optimizations.py:105 | `rule[:-1] + "\n  font-display: swap;\n}"` is again an `@font-face` block with its only `}` at the end |
| Idempotence.FontMatchesShaped | astro-optimizer/scripts/apply_optimizations.py:107 | every `@font-face` match is a block whose brace is where the pattern finds it and whose only `}` is at the end |
| Idempotence.FontRematch | astro-optimizer/scripts/apply_optimizations.py:107 | such a block is matched whole again whatever follows it |
| Idempotence.FontMissesStay | astro-optimizer/scripts/apply_optimizations.py:107 | an edit never creates an `@font-face` match at a position where there was none |
| Idempotence.ImgRuleHook | astro-optimizer/scripts/apply_optimizations.py:51-88 | the lazy-loading and async-decoding callbacks grow tags, edit near the end, settle and keep the tag shape |
| Idempotence.FontRuleHook | astro-optimizer/scripts/apply_optimizations.py:98-105 | the font-display callback grows blocks, edits near the end, settles and keeps the block shape |
| Idempotence.RewriteIdempotent | astro-optimizer/scripts/apply_optimizations.py:47-109 | running the lazy-loading, async-decoding or font-display rewriter on its own output returns the same text and an empty change list |
| Idempotence.MarkedAfterRewrite | astro-optimizer/scripts/apply_optimizations.py:51-107 | after one lazy-loading, async-decoding or font-display run, every span the rule matches in the output carries its marker: `loading=` (or a hero word), `decoding=` or `font-display` |
| Optimizer.Suffix | astro-optimizer/scripts/apply_optimizations.py:142 | `Path(p).suffix.lower()` is empty exactly when the base name has no dot that is neither its first nor its last character and has no dot after it; otherwise it is the lowered tail of the base name from that dot, a dot and at least one more character, with no further dot |
| Optimizer.LastDot | astro-optimizer/scripts/apply_optimizations.py:142 | the suffix dot is found exactly when the name's last dot is neither its first nor its last character: a found dot is that last dot, and when none is found every inner dot has a later dot |
| Optimizer.AstroNameIsAstro | astro-optimizer/scripts/apply_optimizations.py:142-144 | a base name with a non-empty stem before `.astro` has suffix `.astro`, so the file takes the `.astro` rewriters |
| Optimizer.RulesFor | astro-optimizer/scripts/apply_optimizations.py:144-160 | `defer` runs exactly for `.astro` files with `include_risky`, and only other suffixes run no rewriter |
| Optimizer.Chain | astro-optimizer/scripts/apply_optimizations.py:144-160 | the chain grows the text by at least one character per change and leaves it alone when it logs nothing |
| Optimizer.ChainMessages | astro-optimizer/scripts/apply_optimizations.py:146-160 | every logged change is the message of one of the rewriters run |
| Optimizer.ChangedIffLogged | astro-optimizer/scripts/apply_optimizations.py:163 | the final text differs from the original exactly when the change list is non-empty |
| Optimizer.ChainAppend | astro-optimizer/scripts/apply_optimizations.py:146-156 | running more rewriters afterwards appends their changes after the earlier ones |
| Optimizer.RiskyExtendsSafe | astro-optimizer/scripts/apply_optimizations.py:154-156 | the change list of a default run is a prefix of the `include_risky` run's list, and every extra entry is the defer message |
| Optimizer.SafeRunNeverDefers | astro-optimizer/scripts/apply_optimizations.py:154 | without `include_risky` no "Added defer" entry appears |
| Optimizer.OptimizeFile | astro-optimizer/scripts/apply_optimizations.py:127-172 | an unreadable file is the read error with no changes or effects; an unchanged text gives an empty result; a backup is made only when the chain changed the text; when changes are reported they are the chain's changes, the backup comes first and the write of the chain's text second; a failed backup stops before any write |
| Optimizer.OptimizeFileSucceeds | astro-optimizer/scripts/apply_optimizations.py:162-167 | when the file operations succeed, a no-op run has no changes and no effects, and otherwise the backup and then the write of the rewritten text happen |
| Optimizer.Step | astro-optimizer/scripts/apply_optimizations.py:192-207 | one loop step keeps `total_changes` equal to the sum of the modified entries' change counts |
| Optimizer.ProcessSound | astro-optimizer/scripts/apply_optimizations.py:190-227 | every file is listed once in processed order; `total_changes` is the sum over `files_modified`; every modified entry has changes and a backup; each file adds at most one entry |
| Optimizer.ChangeCountAppend | astro-optimizer/scripts/apply_optimizations.py:201 | the change count of two lists of modified entries is the sum of their counts |
| Report.LineOf | astro-optimizer/scripts/detect_js_patterns.py:592-596 | `content[:start].count('\n') + 1` lies between 1 and the number of lines, so the `line_num <= len(lines)` guard always holds |
| Report.Evidence | astro-optimizer/scripts/detect_js_patterns.py:603 | the evidence is the stripped line when it has at most 100 characters, and otherwise its first 100 characters followed by `...` (103 in all) |
| Report.LineSpansStart | astro-optimizer/scripts/detect_js_patterns.py:592-596 | the line numbered by the newline count occurs in the text starting at or before the match offset and reaching to it |
| Report.EvidenceOccurs | astro-optimizer/scripts/detect_js_patterns.py:592-603 | the evidence cut from the reported line occurs in the file |
| Origins.OriginEndIsOrigin | astro-optimizer/scripts/analyze.py:216 | a match of `https?://[a-zA-Z0-9][a-zA-Z0-9-]*\.[a-zA-Z]{2,}` is a scheme, `//` and a host with one dot, and is not followed by a letter |
| Origins.OriginEndComplete | astro-optimizer/scripts/analyze.py:216 | conversely, an origin at the head that is not followed by a letter is exactly what the regex matches |
| Origins.RebuildKeepsOrigin | astro-optimizer/scripts/analyze.py:224 | `origin.split('/')[0] + '//' + origin.split('/')[2]` gives every origin back unchanged |
| Origins.OriginDots | astro-optimizer/scripts/analyze.py:216 | a matched origin holds exactly one dot |
| Origins.NoLoopbackInOrigin | astro-optimizer/scripts/analyze.py:223 | no match contains `127.0.0.1`, so that half of the exclusion never fires |
| Origins.MatchesAreOrigins | astro-optimizer/scripts/analyze.py:220-224 | every `finditer` match is an origin and the rebuild keeps it |
| Origins.FileOrigins | astro-optimizer/scripts/analyze.py:218-224 | the origins gathered from a file are origins without `localhost` |
| Origins.FileOriginsExact | astro-optimizer/scripts/analyze.py:220-224 | a file's gathered origins are exactly the texts of its matches that lack `localhost`, so every such match is gathered |
| Analyze.ForEachFile | astro-optimizer/scripts/analyze.py:47-48 | a per-file loop raises exactly when some file cannot be read |
| Analyze.ForEachFileAppend | astro-optimizer/scripts/analyze.py:47-96 | one more readable file appends that file's findings |
| Analyze.ScanUntil | astro-optimizer/scripts/analyze.py:152-156 | a loop that breaks on the first file meeting a test says true only for such a file, false only when every file was read and none meets it, and raises at an unreadable file reached first |
| Analyze.ScanUntilExact | astro-optimizer/scripts/analyze.py:152-156 | the scan says true exactly when it reaches a readable file meeting the test, false exactly when every file was readable and none meets it, and raises exactly when it reaches an unreadable file first |
| Analyze.ClsFindings | astro-optimizer/scripts/analyze.py:51-67 | every `image_cls` finding names the file and a line between 1 and the number of lines |
| Analyze.ClsCount | astro-optimizer/scripts/analyze.py:52-67 | the number of `image_cls` findings is the number of `<img` tags that lack dimensions and `Image`, and there is none exactly when no tag does |
| Analyze.ClsReported | astro-optimizer/scripts/analyze.py:52-67 | each such tag is reported as `image_cls` for the file at the line of the tag's start |
| Analyze.LoadingFindings | astro-optimizer/scripts/analyze.py:70-80 | one `image_loading` finding exactly when `<img` occurs and `loading=` does not |
| Analyze.PriorityLoopReports | astro-optimizer/scripts/analyze.py:83-96 | the loop reports once exactly when some hero word occurs in the lowered text and `fetchpriority` is absent |
| Analyze.ImageFileCounts | astro-optimizer/scripts/analyze.py:69-96 | a file gets one `image_loading` and one `image_priority` finding exactly in those cases, else none |
| Analyze.FormatFindings | astro-optimizer/scripts/analyze.py:99-111 | `image_format` findings name only `.jpg`, `.jpeg`, `.png` or `.gif` files |
| Analyze.RasterReported | astro-optimizer/scripts/analyze.py:100-102 | every such file of the public tree is reported |
| Analyze.AnalyzeImages | astro-optimizer/scripts/analyze.py:40-113 | the image analyzer raises exactly when an `.astro` file is unreadable, and otherwise its report holds an `image_format` finding for every raster file of the public tree |
| Analyze.ExternalFontFindings | astro-optimizer/scripts/analyze.py:136-146 | one `font_external` finding exactly when the file names either Google Fonts host |
| Analyze.DisplayFindings | astro-optimizer/scripts/analyze.py:171-183 | one `font_display` finding per stylesheet exactly when it has `@font-face` and lacks `font-display` |
| Analyze.FontPreloadReported | astro-optimizer/scripts/analyze.py:148-168 | one `font_preload` finding exactly when some stylesheet declares a font and no layout preloads one |
| Analyze.AnalyzeFonts | astro-optimizer/scripts/analyze.py:115-185 | the font analyzer raises exactly when a stylesheet or `.astro` file is unreadable or the layout scan reaches an unreadable layout before a preloading one; otherwise its report has at most one `font_preload` finding |
| Analyze.AnalyzePrefetch | astro-optimizer/scripts/analyze.py:187-208 | no config gives no finding; otherwise one finding exactly when the config lacks `prefetch` |
| Analyze.MissingPreconnect | astro-optimizer/scripts/analyze.py:226-237 | the missing set holds exactly the origins found in pages that no preconnecting layout names |
| Analyze.AllOriginsOfPages | astro-optimizer/scripts/analyze.py:218-224 | an origin is gathered from the pages exactly when some page's own origins contain it |
| Analyze.AnalyzePreconnect | astro-optimizer/scripts/analyze.py:210-250 | at most one `preconnect` finding, emitted exactly when some origin is not preconnected |
| Analyze.BlockingReported | astro-optimizer/scripts/analyze.py:261-275 | every external script tag without `defer` or `async` (as written, case-sensitive) is reported as `script_blocking` at the line it starts on |
| Analyze.BlockingCount | astro-optimizer/scripts/analyze.py:261-275 | the number of `script_blocking` findings is the number of tags without `defer` or `async`, so other tags give none, and there is none exactly when every tag holds `defer` or `async` |
| Analyze.DeferEditIsBlocking | astro-optimizer/scripts/apply_optimizations.py:115-121 | a tag the defer rewriter edits, because its lowered text has neither `defer` nor `async`, is a tag the blocking check flags |
| Analyze.UpperDeferNotEdited | astro-optimizer/scripts/apply_optimizations.py:115-121 | the converse fails: a flagged tag holding `DEFER` is left alone by the rewriter, which tests the lowered tag |
| Analyze.DeferEditsFlagged | astro-optimizer/scripts/analyze.py:261-275 | every external script of a file that the defer rewriter would edit is reported as `script_blocking` at its line |
| Analyze.TrackingLoopReports | astro-optimizer/scripts/analyze.py:277-292 | one `script_tracking` finding exactly when a tracking word occurs in the lowered text, no delay call occurs, and `<script` occurs |
| Analyze.ScriptFileCounts | astro-optimizer/scripts/analyze.py:257-292 | a file's blocking findings are those of its tags, and it gets at most one tracking finding |
| Analyze.AnalyzeCss | astro-optimizer/scripts/analyze.py:296-323 | one finding exactly when every stylesheet was read and none uses `content-visibility`; no finding exactly when the scan reaches such a stylesheet first; a raise exactly when it reaches an unreadable one first |
| Analyze.AnalyzeConfig | astro-optimizer/scripts/analyze.py:325-361 | no config gives no findings and an unreadable one raises; otherwise `config_image` is reported exactly when neither `image:` nor `astro:assets` occurs, `config_compress` exactly when `compress` does not occur, and nothing else |
| Analyze.CompressTestRedundant | astro-optimizer/scripts/analyze.py:349 | the `compressHTML` test adds nothing to the `compress` test |
| Analyze.GatherSplit | astro-optimizer/scripts/analyze.py:378-383 | the report is the findings of the analyzers before one, then its own (none if it raised), then those after it |
| Analyze.Summarize | astro-optimizer/scripts/analyze.py:386-398 | `total` is the number of findings, and each severity, risk and `auto_fixable` count is the number of findings in that group |
| Analyze.CountInIsCard | astro-optimizer/scripts/analyze.py:389-397 | counting a group one finding at a time gives the size of the set of positions in that group |
| Analyze.AnalyzeProject | astro-optimizer/scripts/analyze.py:363-400 | the findings are the analyzers' outputs in order, and each summary count is the number of those findings in its group |
| Firsts.DedupFrom | astro-optimizer/scripts/detect_js_patterns.py:639-645 | the loop keeps no seen key, no key twice, and every unseen key of the input |
| Firsts.Dedup | astro-optimizer/scripts/detect_js_patterns.py:638-645 | the kept list has distinct keys, the same keys as the input, and is no longer |
| Firsts.DedupIsSubsequence | astro-optimizer/scripts/detect_js_patterns.py:641-645 | the kept list is the input with some elements left out, order kept |
| Firsts.DedupKeepsFirst | astro-optimizer/scripts/detect_js_patterns.py:643-645 | the first element with each key is the one kept |
| Firsts.DedupIdempotent | astro-optimizer/scripts/detect_js_patterns.py:638-645 | deduplicating twice is deduplicating once |
| JsPatterns.Table | astro-optimizer/scripts/detect_js_patterns.py:27-573 | the table has fifteen entries with the names and severities of `PATTERNS`, in order |
| JsPatterns.TableNamesDistinct | astro-optimizer/scripts/detect_js_patterns.py:27-573 | the pattern names are pairwise distinct |
| JsPatterns.FirstHit | astro-optimizer/scripts/detect_js_patterns.py:586-591 | the reported match is the first match of the first sub-pattern, in list order, that matches at all |
| JsPatterns.EntryFinding | astro-optimizer/scripts/detect_js_patterns.py:586-609 | an entry yields a finding exactly when one of its sub-patterns matches, with that entry's name and severity, a valid line and evidence of at most 103 characters |
| JsPatterns.EntryEvidenceOccurs | astro-optimizer/scripts/detect_js_patterns.py:592-603 | the evidence, less any `...`, occurs in the file |
| JsPatterns.AnalyzeFile | astro-optimizer/scripts/detect_js_patterns.py:576-611 | an unreadable file yields no findings |
| JsPatterns.Matching | astro-optimizer/scripts/detect_js_patterns.py:585-589 | the entries that report are listed in table order, each exactly when it matches |
| JsPatterns.FindingsFollowTable | astro-optimizer/scripts/detect_js_patterns.py:585-609 | the findings of a file are one per reporting entry, in table order |
| JsPatterns.OnePerPattern | astro-optimizer/scripts/detect_js_patterns.py:609 | no two findings of one file share a pattern |
| JsPatterns.ReportingEntriesFound | astro-optimizer/scripts/detect_js_patterns.py:589-609 | every entry that matches is reported |
| JsPatterns.SeveritiesCover | astro-optimizer/scripts/detect_js_patterns.py:650-654 | the high, medium and low counts add up to the number of findings |
| JsPatterns.Bump | astro-optimizer/scripts/detect_js_patterns.py:659 | `get(p, 0) + 1` adds a new key at the end or keeps the keys, and adds one to the total |
| JsPatterns.ByPatternKeys | astro-optimizer/scripts/detect_js_patterns.py:658-664 | `patterns_detected` lists each pattern of the findings once, and nothing else |
| JsPatterns.ByPatternCounts | astro-optimizer/scripts/detect_js_patterns.py:658-659 | each `by_pattern` value is the number of findings with that pattern |
| JsPatterns.AnalyzeProject | astro-optimizer/scripts/detect_js_patterns.py:614-665 | the findings are the dedup of all files' findings; `total` is their number, each severity count is the number of findings of that severity, each `by_pattern` value the number with that pattern, and `patterns_detected` lists each reported pattern once |
| JsPatterns.CountSeverityIsCard | astro-optimizer/scripts/detect_js_patterns.py:650-654 | counting one severity finding by finding gives the number of findings of that severity |
| JsPatterns.CountPatternIsCard | astro-optimizer/scripts/detect_js_patterns.py:658-659 | counting one pattern finding by finding gives the number of findings of that pattern |
| Preloads.FontMime | astro-optimizer/scripts/generate_preloads.py:56-64 | `font/woff2` exactly when `.woff2` is in the lowered URL, `font/woff` exactly when `.woff` is and `.woff2` is not, `font/ttf` exactly when `.ttf` is and `.woff` is not, `None` otherwise |
| Preloads.FontHref | astro-optimizer/scripts/generate_preloads.py:39-54 | a URL starting with `/` or `http` is kept, any other is resolved |
| Preloads.FaceBody | astro-optimizer/scripts/generate_preloads.py:29-32 | group 1 of a face match is the text between its `{` and its closing `}`, and holds no `}` |
| Preloads.FontDirective | astro-optimizer/scripts/generate_preloads.py:65-74 | a font directive is `as=font`, crossorigin, layout scope, from its stylesheet, with the MIME type of its URL |
| Preloads.FontsFromCss | astro-optimizer/scripts/generate_preloads.py:24-76 | one directive per URL of each face, faces and URLs in order, each the font directive of that URL: crossorigin, layout scope, from that stylesheet |
| Preloads.FontDirectivesConcat | astro-optimizer/scripts/generate_preloads.py:38-74 | the directives of two URL lists in a row are those of the first followed by those of the second |
| Preloads.ImageHref | astro-optimizer/scripts/generate_preloads.py:95-101 | a URL starting with `/` or `http` is kept and `/` is put before any other |
| Preloads.ImageDirective | astro-optimizer/scripts/generate_preloads.py:103-111 | a critical image directive is `as=image`, without type or crossorigin, and has layout scope exactly when the lowered selector holds `header` |
| Preloads.CriticalOf | astro-optimizer/scripts/generate_preloads.py:89-94 | the rules kept are exactly those whose lowered selector holds a critical token and whose URL is not `data:` |
| Preloads.ImagesAreCriticalRules | astro-optimizer/scripts/generate_preloads.py:88-111 | one directive per critical rule, in order |
| Preloads.PageHrefBreaksUrls | astro-optimizer/scripts/generate_preloads.py:127 | as written, every `http` source gets a `/` put in front |
| Preloads.PageHrefBreaksUrl | astro-optimizer/scripts/generate_preloads.py:127 | as written, `https://a.io/h.jpg` becomes `/https://a.io/h.jpg` |
| Preloads.PageHref | astro-optimizer/scripts/generate_preloads.py:127 | corrected: an `http` source is kept, anything else is kept or gets a `/`, and the href is a site path or a URL |
| Preloads.PageHrefAgrees | astro-optimizer/scripts/generate_preloads.py:127 | the correction agrees with the code on every source that is not an absolute URL |
| Preloads.PageDirectives | astro-optimizer/scripts/generate_preloads.py:123-136 | page hero directives are `as=image`, page scope, without type or crossorigin, from that page, and no more than the sources |
| Preloads.HeroHref | astro-optimizer/scripts/generate_preloads.py:127 | the as-written rule gives the href line 127 computes and the corrected rule gives the corrected one |
| Preloads.PageDirectivesBreakUrl | astro-optimizer/scripts/generate_preloads.py:123-134 | as written, a page with `src="https://a.io/h.jpg"` gets the href `/https://a.io/h.jpg`; the corrected rule keeps the URL |
| Preloads.HeroSources | astro-optimizer/scripts/generate_preloads.py:125 | the sources kept are exactly those that are not `data:` URLs |
| Preloads.PageDirectivesOfSources | astro-optimizer/scripts/generate_preloads.py:123-134 | one directive per kept source, in order, whose href is the one the chosen rule gives for that source (line 127 for the as-written rule) |
| Preloads.Attrs | astro-optimizer/scripts/generate_preloads.py:150-160 | the attributes are `rel="preload"`, `href="H"`, `as="T"`, then `type="X"` exactly when the type is non-empty, then `crossorigin` exactly when it is set, and nothing else |
| Preloads.TagShape | astro-optimizer/scripts/generate_preloads.py:162 | a tag is `<link rel="preload" href="`, the href, then a tail starting with the closing quote |
| Preloads.TagHrefRoundTrip | astro-optimizer/scripts/generate_preloads.py:150-162 | the href is read back from its tag when it holds no quote |
| Preloads.TagsDistinct | astro-optimizer/scripts/generate_preloads.py:143-162 | directives with different quote-free hrefs render different tags |
| Preloads.ScopeTags | astro-optimizer/scripts/generate_preloads.py:164-167 | the tags of one scope are as many as the directives of that scope, each such directive's tag is among them, and they are tags of such directives |
| Preloads.ScopesSplit | astro-optimizer/scripts/generate_preloads.py:164-167 | every kept directive goes to exactly one of the layout and page lists |
| Preloads.ScopeTagsAppend | astro-optimizer/scripts/generate_preloads.py:145-167 | the tags of one scope for two lists in a row are those of the first followed by those of the second |
| Preloads.ScopeTagsOne | astro-optimizer/scripts/generate_preloads.py:164-167 | a single directive gives its tag in its own scope's list and nothing in the other |
| Preloads.ScopeTagsSplitBack | astro-optimizer/scripts/generate_preloads.py:169-172 | a non-empty group joined with `\n` splits back into its tags, one per line |
| Preloads.HtmlCoversHrefs | astro-optimizer/scripts/generate_preloads.py:143-148 | the rendered directives have distinct hrefs, cover every href of the input, and are no more than the input |
| Preloads.GenerateHtml | astro-optimizer/scripts/generate_preloads.py:138-172 | each HTML block is empty exactly when no kept directive has its scope, and holds the tag of every kept directive of its scope |
| Preloads.ScopeBlock | astro-optimizer/scripts/generate_preloads.py:164-172 | one scope's joined block is empty exactly when no directive has that scope, and contains the tag of each that has it |
| Preloads.CssSkipsUnreadable | astro-optimizer/scripts/generate_preloads.py:184-190 | a stylesheet that cannot be read adds nothing and stops nothing |
| Preloads.PageSpecific | astro-optimizer/scripts/generate_preloads.py:195-202 | `page_specific` holds exactly the entries of the readable pages with at least one hero directive, each keyed by the page path with that page's directives (hrefs as line 127 computes them in the pipeline) |
| Preloads.CountsSplit | astro-optimizer/scripts/generate_preloads.py:211-217 | the layout and page counts, and the font and image counts, each add up to the number of directives |
| Preloads.FontsWithinLayout | astro-optimizer/scripts/generate_preloads.py:71 | with every font in layout scope, fonts never outnumber layout directives |
| Preloads.AnalyzeProject | astro-optimizer/scripts/generate_preloads.py:174-218 | `preloads` is the stylesheet directives, `page_specific` uses the as-written href rule, the HTML is rendered from `preloads`, each summary count is the number of directives in its group, and the tags emitted are at most `total_preloads` |
| Preloads.CountScopeIsCard | astro-optimizer/scripts/generate_preloads.py:213-214 | counting one scope directive by directive gives the number of directives in that scope |
| Preloads.CountAsIsCard | astro-optimizer/scripts/generate_preloads.py:215-216 | counting one `as` type directive by directive gives the number of directives of that type |
| Preloads.HtmlIgnoresPages | astro-optimizer/scripts/generate_preloads.py:204-205 | the generated HTML depends only on the stylesheets: page hero images never reach it |
| AstroPass.HeroStagesMiss | astro-optimizer/scripts/apply_optimizations.py:27-43 | neither hero pattern matches `<img id='hero x>`, since its `id` value has no closing quote |
| AstroPass.LazyStageKeeps | astro-optimizer/scripts/apply_optimizations.py:51-69 | the lazy-loading rewriter leaves `<img id='hero x>` alone, because the tag holds `hero` |
| AstroPass.AsyncStageEdits | astro-optimizer/scripts/apply_optimizations.py:77-90 | the async-decoding rewriter turns it into `<img id='hero x decoding="async">` and logs one change |
| AstroPass.SecondPassHero | astro-optimizer/scripts/apply_optimizations.py:27-43 | on that output the hero pattern matches the whole tag and logs a `fetchpriority` change |
| AstroPass.AstroPassNotIdempotent | astro-optimizer/scripts/apply_optimizations.py:143-151 | the `.astro` chain turns `<img id='hero x>` into `<img id='hero x decoding="async">`, and a second run of the chain changes that text again |

## Left out

- File system walks (`rglob`, `glob`), their order, and the `node_modules`/`dist` path exclusion are not modelled. Their results are inputs, in walk order.
- Reading and writing are not modelled. A read is content or a failure; backup and write are effects with a success flag.
- `backup_file` naming, `mkdir` and `copy2` are left out because they are I/O. The timestamp is a clock reading, so backup names are not claimed unique.
- `find_astro_root`, the `astro.config.*` lookups and the layout-file globs are directory walks. Their results are inputs.
- Argument parsing, JSON printing, `main` and the unimplemented dry-run branch are command-line glue.
- The fifteen JavaScript pattern regexes are abstract searches that return the first match offset. The table's solution, explanation and example strings are inert data.
- These regular expressions are parameters, because modelling them would mean a regex engine:
  - the `url(...)` extraction inside a font face;
  - the CSS background rule (selector and URL);
  - the page hero `src` pattern;
  - the `font_face_pattern` of `analyze_fonts`.
- The relative font URL resolution (`Path.resolve`, `relative_to`) depends on the working directory and symlinks, so it is a function parameter.
- Finding messages, suggestions and preload reasons are fixed strings and are not modelled. The preconnect message lists up to three origins of an unordered set, so its order is not modelled.
- `lower()` and `\s` are modelled for ASCII only.
- `errors='ignore'` decoding is not modelled; text is already characters.
- Idempotence.RewriteIdempotent: covers the lazy-loading, async-decoding and font-display rewriters only. The hero `fetchpriority` and `defer` rewriters are left out because their patterns' rightmost-attribute search makes the rematch argument much heavier; each of them checks its own marker in the same way.
- The `page_specific` dictionary is a sequence of (page path, directives) pairs. The paths come from one directory walk, so no key repeats. The order of the pairs is not stated.

## Findings

| source | as written | input that shows it | evidently intended | confidence | as-written member | corrected member |
|---|---|---|---|---|---|---|
| astro-optimizer/scripts/generate_preloads.py:127 | a page hero `src` that does not start with `/` gets `/` put in front, `http` URLs included | `src="https://a.io/h.jpg"` gives href `/https://a.io/h.jpg` | keep `http` URLs as the CSS image path does (lines 96-101) | not executed | Preloads.PageHrefAsWritten (Preloads.PageHrefBreaksUrl, Preloads.PageHrefBreaksUrls, Preloads.PageDirectivesBreakUrl) | Preloads.PageHref (Preloads.PageHrefAgrees, Preloads.HeroHref) |

The model follows the code: `Preloads.AnalyzeProject` builds `page_specific`
with the as-written rule, and the corrected rule is available through
`HeroHref(Corrected, ...)`.
