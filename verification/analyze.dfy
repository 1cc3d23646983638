/**
 analyze.py: seven analyzers look at an Astro project and report findings;
 analyze_project runs them in order, keeps the findings of those that
 return normally and summarises the lot.

 The file system is an input: the files each directory walk yields, in walk
 order, each with its text or `None` when reading it raises. Reading a file
 is the only thing an analyzer can fail on, and a failure loses all the
 findings of that analyzer. A finding's message and suggestion are fixed
 strings per kind and are not modelled (the preconnect message names up to
 three origins of an unordered set).
 */
module Analyze {
  import opened Text
  import opened Matchers
  import opened Report
  import Origins
  import Optimizer
  import Rewriters
  import Firsts

  datatype Risk = Safe | Risky

  /** The `type` field of a finding. */
  datatype Kind =
    | ImageCls | ImageLoading | ImagePriority | ImageFormat
    | FontExternal | FontPreload | FontDisplay
    | PrefetchConfig | Preconnect
    | ScriptBlocking | ScriptTracking
    | CssContentVisibility
    | ConfigImage | ConfigCompress

  function SeverityOf(k: Kind): Severity {
    match k
    case ImageCls | ImagePriority | FontExternal | FontPreload | ScriptBlocking => High
    case CssContentVisibility | ConfigCompress => Low
    case _ => Medium
  }

  function RiskOf(k: Kind): Risk {
    match k
    case FontExternal | ScriptBlocking | ScriptTracking | CssContentVisibility => Risky
    case _ => Safe
  }

  function FixableOf(k: Kind): bool {
    match k
    case ImageCls | ImageFormat | FontExternal | ScriptTracking | CssContentVisibility => false
    case _ => true
  }

  /** A finding: its kind (which fixes severity, risk and `auto_fixable`),
      the file it names and, for per-match findings, the 1-based line. */
  datatype Finding = Finding(kind: Kind, file: string, line: Option<nat>)

  /** What the directory walks yield. */
  datatype Project = Project(
    astro: seq<SourceFile>,          // src/**/*.astro
    styles: seq<SourceFile>,         // src/**/*.css, then src/**/*.scss
    layouts: seq<SourceFile>,        // src/**/layouts/*.astro, then src/**/Layout*.astro
    publicEntries: Option<seq<string>>,  // every path under public/, None when it does not exist
    config: Option<SourceFile>)      // the first astro.config.*, None when there is none

  function CountKind(fs: seq<Finding>, k: Kind): (n: nat)
    ensures n <= |fs|
    decreases |fs|
  {
    if |fs| == 0 then 0 else (if fs[0].kind == k then 1 else 0) + CountKind(fs[1..], k)
  }

  lemma {:induction false} CountKindConcat(a: seq<Finding>, b: seq<Finding>, k: Kind)
    ensures CountKind(a + b, k) == CountKind(a, k) + CountKind(b, k)
    decreases |a|
  {
    if |a| > 0 {
      assert (a + b)[1..] == a[1..] + b;
      CountKindConcat(a[1..], b, k);
    } else {
      assert a + b == b;
    }
  }

  /** Every finding of a list has one kind and names one file. */
  predicate AllOf(fs: seq<Finding>, k: Kind, file: string) {
    forall i :: 0 <= i < |fs| ==> fs[i].kind == k && fs[i].file == file
  }

  /** Every finding of a list names one file. */
  predicate Names(fs: seq<Finding>, file: string) {
    forall i :: 0 <= i < |fs| ==> fs[i].file == file
  }

  lemma NamesConcat(a: seq<Finding>, b: seq<Finding>, file: string)
    requires Names(a, file) && Names(b, file)
    ensures Names(a + b, file)
  {
    forall i | 0 <= i < |a + b| ensures (a + b)[i].file == file {
      if i >= |a| {
        assert (a + b)[i] == b[i - |a|];
      }
    }
  }

  /** Run a per-file check over a walk, as the analyzers' `for` loops do:
      the first file that cannot be read aborts the analyzer. */
  function ForEachFile(files: seq<SourceFile>, check: (string, string) -> seq<Finding>): (r: Option<seq<Finding>>)
    ensures r.None? <==> !Readable(files)
    decreases |files|
  {
    if |files| == 0 then Some([])
    else
      match files[0].content
      case None => None
      case Some(c) =>
        match ForEachFile(files[1..], check)
        case None => None
        case Some(rest) => Some(check(files[0].rel, c) + rest)
  }

  /** The findings of a walk of readable files are those of its files in
      walk order: one file more appends that file's findings. */
  lemma {:induction false} ForEachFileAppend(files: seq<SourceFile>, f: SourceFile, check: (string, string) -> seq<Finding>)
    requires Readable(files) && f.content.Some?
    ensures ForEachFile(files + [f], check).Some? && ForEachFile(files, check).Some?
    ensures ForEachFile(files + [f], check).value == ForEachFile(files, check).value + check(f.rel, f.content.value)
    decreases |files|
  {
    assert Readable(files + [f]) by {
      forall i | 0 <= i < |files + [f]| ensures (files + [f])[i].content.Some? {
        if i < |files| {
          assert (files + [f])[i] == files[i];
        }
      }
    }
    if |files| == 0 {
      assert files + [f] == [f];
    } else {
      assert (files + [f])[1..] == files[1..] + [f];
      ForEachFileAppend(files[1..], f, check);
    }
  }

  /** Run a check over a walk until a file answers yes, as the `break`
      loops over layouts and style sheets do: `Some(found)` when the loop
      ends normally, `None` when a file it reaches cannot be read. */
  function ScanUntil(files: seq<SourceFile>, stop: string -> bool): (r: Option<bool>)
    ensures r == Some(true) ==> exists i :: 0 <= i < |files| && Reaches(files, stop, i) && Stops(files, stop, i)
    ensures r == Some(false) ==> Reaches(files, stop, |files|)
    ensures r.None? ==> exists i :: 0 <= i < |files| && Reaches(files, stop, i) && files[i].content.None?
    decreases |files|
  {
    if |files| == 0 then Some(false)
    else
      match files[0].content
      case None => None
      case Some(c) =>
        if stop(c) then
          assert Reaches(files, stop, 0) && Stops(files, stop, 0);
          Some(true)
        else
          var r := ScanUntil(files[1..], stop);
          ReachesStep(files, stop);
          r
  }

  /** The loop gets to file `i`: every file before it was read and did not
      answer yes. */
  predicate Reaches(files: seq<SourceFile>, stop: string -> bool, i: nat) {
    i <= |files| && forall j :: 0 <= j < i ==> files[j].content.Some? && !stop(files[j].content.value)
  }

  /** File `i` is read and answers yes. */
  predicate Stops(files: seq<SourceFile>, stop: string -> bool, i: nat)
    requires i < |files|
  {
    files[i].content.Some? && stop(files[i].content.value)
  }

  lemma ReachesStep(files: seq<SourceFile>, stop: string -> bool)
    requires |files| > 0 && files[0].content.Some? && !stop(files[0].content.value)
    ensures forall i :: 0 <= i < |files| - 1 && Reaches(files[1..], stop, i) ==> Reaches(files, stop, i + 1)
    ensures forall i :: 0 <= i < |files| - 1 && Stops(files[1..], stop, i) ==> Stops(files, stop, i + 1)
    ensures Reaches(files[1..], stop, |files| - 1) ==> Reaches(files, stop, |files|)
  {
    assert forall j :: 1 <= j < |files| ==> files[1..][j - 1] == files[j];
  }

  /** The loop ends in one way only: at the first file that answers yes, at
      the first unreadable file, or after the last file. */
  lemma ScanUntilExact(files: seq<SourceFile>, stop: string -> bool)
    ensures ScanUntil(files, stop) == Some(true) <==> exists i :: 0 <= i < |files| && Reaches(files, stop, i) && Stops(files, stop, i)
    ensures ScanUntil(files, stop) == Some(false) <==> Reaches(files, stop, |files|)
    ensures ScanUntil(files, stop).None? <==>
      exists i :: 0 <= i < |files| && Reaches(files, stop, i) && files[i].content.None?
  {
    match ScanUntil(files, stop)
    case Some(true) =>
      var i :| 0 <= i < |files| && Reaches(files, stop, i) && Stops(files, stop, i);
      EndsOnce(files, stop, i);
    case None =>
      var i :| 0 <= i < |files| && Reaches(files, stop, i) && files[i].content.None?;
      EndsOnce(files, stop, i);
    case Some(false) =>
  }

  /** A loop that ends at file `i` reaches no later file and ends at no
      earlier one. */
  lemma EndsOnce(files: seq<SourceFile>, stop: string -> bool, i: nat)
    requires i < |files| && Reaches(files, stop, i)
    requires files[i].content.None? || stop(files[i].content.value)
    ensures forall k :: i < k <= |files| ==> !Reaches(files, stop, k)
    ensures forall k :: 0 <= k < |files| && Reaches(files, stop, k) && files[k].content.None? ==> k == i
    ensures forall k :: 0 <= k < |files| && Reaches(files, stop, k) && Stops(files, stop, k) ==> k == i
  {
    forall k | i < k <= |files|
      ensures !Reaches(files, stop, k)
    {
      assert !(files[i].content.Some? && !stop(files[i].content.value));
    }
  }

  // ----- analyze_images ----------------------------------------------------------

  /** Matches that all start inside the text. */
  predicate Within(os: seq<Occurrence>, content: string) {
    forall i :: 0 <= i < |os| ==> os[i].start <= |content|
  }

  /** `re.finditer` with a finder's pattern, as the analyzers see it: the
      matches, each starting inside the text. */
  function Tags(m: Matcher, content: string): (os: seq<Occurrence>)
    requires Advances(m)
    ensures Within(os, content)
  {
    Occurrences(m, content)
  }

  /** The `<img ...>` tags of a text. */
  function ImgTags(content: string): (os: seq<Occurrence>)
    ensures Within(os, content)
  {
    Tags(Find(ImgTag), content)
  }

  /** `('width=' in tag and 'height=' in tag) or 'aspect-ratio' in tag` */
  predicate HasDimensions(tag: string) {
    (Contains(tag, "width=") && Contains(tag, "height=")) || Contains(tag, "aspect-ratio")
  }

  /** An `<img>` tag the CLS check reports. */
  predicate CausesShift(tag: string) {
    !HasDimensions(tag) && !Contains(tag, "Image")
  }

  function ClsFindings(rel: string, content: string, os: seq<Occurrence>): (r: seq<Finding>)
    requires Within(os, content)
    ensures AllOf(r, ImageCls, rel)
    ensures forall i :: 0 <= i < |r| ==> r[i].line.Some? && 1 <= r[i].line.value <= |Split(content, '\n')|
    decreases |os|
  {
    if |os| == 0 then []
    else
      var rest := ClsFindings(rel, content, os[1..]);
      if CausesShift(os[0].text) then [Finding(ImageCls, rel, Some(LineOf(content, os[0].start)))] + rest
      else rest
  }

  /** The positions of the `<img>` tags the CLS check reports. */
  function ShiftingAt(os: seq<Occurrence>): set<nat> {
    set i: nat | i < |os| && CausesShift(os[i].text)
  }

  /** One CLS finding per `<img>` tag that has no dimensions, and none
      otherwise. */
  lemma {:induction false} ClsCount(rel: string, content: string, os: seq<Occurrence>)
    requires Within(os, content)
    ensures |ClsFindings(rel, content, os)| == |ShiftingAt(os)|
    ensures |ClsFindings(rel, content, os)| == 0 <==> forall i :: 0 <= i < |os| ==> !CausesShift(os[i].text)
    decreases |os|
  {
    if |os| > 0 {
      var n := |os| - 1;
      ClsCount(rel, content, os[..n]);
      ClsFindingsAppend(rel, content, os[..n], os[n]);
      assert os[..n] + [os[n]] == os;
      ShiftingAtAppend(os);
      if |ClsFindings(rel, content, os)| == 0 {
        assert ShiftingAt(os) == {};
        forall i | 0 <= i < |os|
          ensures !CausesShift(os[i].text)
        {
          assert i !in ShiftingAt(os);
        }
      }
      if forall i :: 0 <= i < |os| ==> !CausesShift(os[i].text) {
        assert ShiftingAt(os) == {};
      }
    }
  }

  /** A tag more gives a finding more exactly when it is flagged. */
  lemma {:induction false} ClsFindingsAppend(rel: string, content: string, os: seq<Occurrence>, o: Occurrence)
    requires Within(os + [o], content)
    ensures Within(os, content)
    ensures |ClsFindings(rel, content, os + [o])| == |ClsFindings(rel, content, os)| + (if CausesShift(o.text) then 1 else 0)
    decreases |os|
  {
    assert forall i :: 0 <= i < |os| ==> os[i] == (os + [o])[i];
    if |os| > 0 {
      assert (os + [o])[1..] == os[1..] + [o];
      ClsFindingsAppend(rel, content, os[1..], o);
    } else {
      assert os + [o] == [o];
    }
  }

  /** The flagged positions of a list are those of all but its last tag, and
      the last one when it is flagged. */
  lemma ShiftingAtAppend(os: seq<Occurrence>)
    requires |os| > 0
    ensures |ShiftingAt(os)| == |ShiftingAt(os[..|os| - 1])| + (if CausesShift(os[|os| - 1].text) then 1 else 0)
  {
    var n := |os| - 1;
    var a := ShiftingAt(os[..n]);
    assert forall i: nat :: i in a <==> i < n && CausesShift(os[i].text);
    Firsts.CardStep(a, ShiftingAt(os), n, CausesShift(os[n].text));
  }

  /** Every flagged tag is reported at the line it starts on. */
  lemma {:induction false} ClsReported(rel: string, content: string, os: seq<Occurrence>, i: nat)
    requires Within(os, content)
    requires i < |os| && CausesShift(os[i].text)
    ensures Finding(ImageCls, rel, Some(LineOf(content, os[i].start))) in ClsFindings(rel, content, os)
    decreases i
  {
    if i > 0 {
      ClsReported(rel, content, os[1..], i - 1);
      assert os[1..][i - 1] == os[i];
    }
  }

  const HeroPatterns: seq<string> := ["hero", "banner", "header-image", "main-image", "lcp"]

  /** The hero loop: the first pattern in the lowered text, when the file
      has no `fetchpriority`, yields one finding and ends the loop. */
  function PriorityLoop(rel: string, content: string, patterns: seq<string>): (r: seq<Finding>)
    ensures |r| <= 1 && AllOf(r, ImagePriority, rel)
    decreases |patterns|
  {
    if |patterns| == 0 then []
    else if Contains(Lower(content), patterns[0]) && !Contains(content, "fetchpriority") then
      [Finding(ImagePriority, rel, None)]
    else PriorityLoop(rel, content, patterns[1..])
  }

  /** The loop reports exactly when some pattern occurs in the lowered text
      and the text has no `fetchpriority`. */
  lemma {:induction false} PriorityLoopReports(rel: string, content: string, patterns: seq<string>)
    ensures |PriorityLoop(rel, content, patterns)| == 1
      <==> ContainsAny(Lower(content), patterns) && !Contains(content, "fetchpriority")
    decreases |patterns|
  {
    if |patterns| > 0 {
      PriorityLoopReports(rel, content, patterns[1..]);
      if ContainsAny(Lower(content), patterns[1..]) {
        var k :| 0 <= k < |patterns[1..]| && Contains(Lower(content), patterns[1..][k]);
        assert Contains(Lower(content), patterns[k + 1]);
      }
      if ContainsAny(Lower(content), patterns) && !Contains(Lower(content), patterns[0]) {
        var k :| 0 <= k < |patterns| && Contains(Lower(content), patterns[k]);
        assert patterns[1..][k - 1] == patterns[k];
      }
    }
  }

  /** `'<img' in content and 'loading=' not in content` */
  predicate LacksLoading(content: string) {
    Contains(content, "<img") && !Contains(content, "loading=")
  }

  function LoadingFindings(rel: string, content: string): (r: seq<Finding>)
    ensures |r| <= 1 && AllOf(r, ImageLoading, rel)
    ensures |r| == 1 <==> LacksLoading(content)
  {
    if LacksLoading(content) then [Finding(ImageLoading, rel, None)] else []
  }

  /** The findings of one `.astro` file: CLS findings in tag order, then
      the loading and the priority checks. */
  function ImageFileFindings(rel: string, content: string): (r: seq<Finding>)
    ensures Names(r, rel)
  {
    var cls := ClsFindings(rel, content, ImgTags(content));
    var loading := LoadingFindings(rel, content);
    var priority := PriorityLoop(rel, content, HeroPatterns);
    NamesConcat(cls, loading, rel);
    NamesConcat(cls + loading, priority, rel);
    cls + loading + priority
  }

  /** The three parts of one `.astro` file's image findings. */
  lemma ImageFileParts(rel: string, content: string) returns (cls: seq<Finding>, loading: seq<Finding>, priority: seq<Finding>)
    ensures ImageFileFindings(rel, content) == cls + loading + priority
    ensures AllOf(cls, ImageCls, rel) && AllOf(loading, ImageLoading, rel) && AllOf(priority, ImagePriority, rel)
    ensures |loading| <= 1 && |priority| <= 1
    ensures |loading| == 1 <==> LacksLoading(content)
    ensures |priority| == 1 <==> ContainsAny(Lower(content), HeroPatterns) && !Contains(content, "fetchpriority")
  {
    cls := ClsFindings(rel, content, ImgTags(content));
    loading := LoadingFindings(rel, content);
    priority := PriorityLoop(rel, content, HeroPatterns);
    PriorityLoopReports(rel, content, HeroPatterns);
  }

  /** One `.astro` file yields a loading finding exactly when it has an
      `<img` and no `loading=`, and a priority finding exactly when it
      names a hero pattern (in any case) and has no `fetchpriority`. */
  lemma ImageFileCounts(rel: string, content: string)
    ensures CountKind(ImageFileFindings(rel, content), ImageLoading) == if LacksLoading(content) then 1 else 0
    ensures CountKind(ImageFileFindings(rel, content), ImagePriority)
      == if ContainsAny(Lower(content), HeroPatterns) && !Contains(content, "fetchpriority") then 1 else 0
  {
    var cls, loading, priority := ImageFileParts(rel, content);
    ThreePartCount(cls, loading, priority, ImageCls, ImageLoading, ImagePriority, rel);
  }

  /** Counting the middle and last kinds of a three-part list of distinct
      kinds. */
  lemma ThreePartCount(a: seq<Finding>, b: seq<Finding>, c: seq<Finding>, ka: Kind, kb: Kind, kc: Kind, file: string)
    requires AllOf(a, ka, file) && AllOf(b, kb, file) && AllOf(c, kc, file)
    requires ka != kb && ka != kc && kb != kc
    ensures CountKind(a + b + c, kb) == |b| && CountKind(a + b + c, kc) == |c|
  {
    OneKindCount(a, ka, file, kb);
    OneKindCount(a, ka, file, kc);
    OneKindCount(b, kb, file, kb);
    OneKindCount(b, kb, file, kc);
    OneKindCount(c, kc, file, kb);
    OneKindCount(c, kc, file, kc);
    CountKindConcat(a, b, kb);
    CountKindConcat(a + b, c, kb);
    CountKindConcat(a, b, kc);
    CountKindConcat(a + b, c, kc);
  }

  /** In a list of one kind, that kind counts every finding and any other
      kind none. */
  lemma {:induction false} OneKindCount(fs: seq<Finding>, k: Kind, file: string, q: Kind)
    requires AllOf(fs, k, file)
    ensures CountKind(fs, q) == if q == k then |fs| else 0
    decreases |fs|
  {
    if |fs| > 0 {
      OneKindCount(fs[1..], k, file, q);
    }
  }

  /** `img_file.suffix.lower() in ['.jpg', '.jpeg', '.png', '.gif']` */
  predicate IsRaster(path: string) {
    Optimizer.Suffix(path) in {".jpg", ".jpeg", ".png", ".gif"}
  }

  /** One format finding per entry that passes `keep`, in walk order. */
  function Flagged(entries: seq<string>, keep: string -> bool): (r: seq<Finding>)
    ensures |r| <= |entries|
    ensures forall i :: 0 <= i < |r| ==> r[i].kind == ImageFormat && r[i].line.None? && keep(r[i].file)
    decreases |entries|
  {
    if |entries| == 0 then []
    else (if keep(entries[0]) then [Finding(ImageFormat, entries[0], None)] else []) + Flagged(entries[1..], keep)
  }

  /** Every entry that passes `keep` is reported; returns where. */
  lemma {:induction false} FlaggedComplete(entries: seq<string>, keep: string -> bool, i: nat) returns (j: nat)
    requires i < |entries| && keep(entries[i])
    ensures j < |Flagged(entries, keep)| && Flagged(entries, keep)[j].file == entries[i]
    decreases i
  {
    var head := if keep(entries[0]) then [Finding(ImageFormat, entries[0], None)] else [];
    assert Flagged(entries, keep) == head + Flagged(entries[1..], keep);
    if i == 0 {
      j := 0;
    } else {
      var j' := FlaggedComplete(entries[1..], keep, i - 1);
      assert entries[1..][i - 1] == entries[i];
      j := |head| + j';
    }
  }

  /** The image-format findings for the entries under `public/`. */
  function FormatFindings(entries: seq<string>): (r: seq<Finding>)
    ensures |r| <= |entries|
    ensures forall i :: 0 <= i < |r| ==> r[i].kind == ImageFormat && r[i].line.None? && IsRaster(r[i].file)
  {
    Flagged(entries, IsRaster)
  }

  /** Every raster image under `public/` is reported. */
  lemma RasterReported(entries: seq<string>, i: nat) returns (j: nat)
    requires i < |entries| && IsRaster(entries[i])
    ensures j < |FormatFindings(entries)| && FormatFindings(entries)[j].file == entries[i]
  {
    j := FlaggedComplete(entries, IsRaster, i);
  }

  function AnalyzeImages(p: Project): (r: Option<seq<Finding>>)
    ensures r.None? <==> !Readable(p.astro)
    ensures r.Some? && p.publicEntries.Some? ==>
      forall i :: 0 <= i < |p.publicEntries.value| && IsRaster(p.publicEntries.value[i]) ==>
        Finding(ImageFormat, p.publicEntries.value[i], None) in r.value
  {
    match ForEachFile(p.astro, ImageFileFindings)
    case None => None
    case Some(fs) =>
      match p.publicEntries
      case None => Some(fs)
      case Some(es) =>
        RastersInReport(fs, es);
        Some(fs + FormatFindings(es))
  }

  /** Each raster entry's finding follows the per-file findings. */
  lemma RastersInReport(fs: seq<Finding>, entries: seq<string>)
    ensures forall i :: 0 <= i < |entries| && IsRaster(entries[i]) ==>
      Finding(ImageFormat, entries[i], None) in fs + FormatFindings(entries)
  {
    forall i | 0 <= i < |entries| && IsRaster(entries[i])
      ensures Finding(ImageFormat, entries[i], None) in fs + FormatFindings(entries)
    {
      var j := RasterReported(entries, i);
      assert (fs + FormatFindings(entries))[|fs| + j] == FormatFindings(entries)[j];
    }
  }

  // ----- analyze_fonts -----------------------------------------------------------

  /** `'fonts.googleapis.com' in content or 'fonts.gstatic.com' in content` */
  predicate UsesGoogleFonts(content: string) {
    Contains(content, "fonts.googleapis.com") || Contains(content, "fonts.gstatic.com")
  }

  function ExternalFontFindings(rel: string, content: string): (r: seq<Finding>)
    ensures |r| <= 1 && AllOf(r, FontExternal, rel)
    ensures |r| == 1 <==> UsesGoogleFonts(content)
  {
    if UsesGoogleFonts(content) then [Finding(FontExternal, rel, None)] else []
  }

  /** A layout that preloads a font. */
  predicate PreloadsFont(content: string) {
    Contains(content, "rel=\"preload\"") && (Contains(content, "as=\"font\"") || Contains(content, "as='font'"))
  }

  /** `'@font-face' in content and 'font-display' not in content` */
  predicate LacksFontDisplay(content: string) {
    Contains(content, "@font-face") && !Contains(content, "font-display")
  }

  function DisplayFindings(rel: string, content: string): (r: seq<Finding>)
    ensures |r| <= 1 && AllOf(r, FontDisplay, rel)
    ensures |r| == 1 <==> LacksFontDisplay(content)
  {
    if LacksFontDisplay(content) then [Finding(FontDisplay, rel, None)] else []
  }

  /** The font URLs the `@font-face ... src: url(...)` pattern finds in one
      style sheet: the pattern is not modelled, its result is an input. */
  type FontUrls = string -> seq<string>

  /** Whether any style sheet declares a font file. */
  predicate DeclaresFonts(styles: seq<SourceFile>, urls: FontUrls)
    requires Readable(styles)
  {
    exists i :: 0 <= i < |styles| && |urls(styles[i].content.value)| > 0
  }

  /** analyze_fonts: the style sheets are read for their font URLs, the
      `.astro` files are checked for Google Fonts, the layouts are read
      until one preloads a font, and the style sheets are checked for
      `font-display`. */
  function AnalyzeFonts(p: Project, urls: FontUrls): (r: Option<seq<Finding>>)
    ensures r.Some? ==> Readable(p.styles) && Readable(p.astro)
    ensures r.None? <==> !Readable(p.styles) || !Readable(p.astro) || ScanUntil(p.layouts, PreloadsFont).None?
    ensures r.Some? ==> CountKind(r.value, FontPreload) <= 1
  {
    if !Readable(p.styles) then None
    else
      match ForEachFile(p.astro, ExternalFontFindings)
      case None => None
      case Some(external) =>
        match ScanUntil(p.layouts, PreloadsFont)
        case None => None
        case Some(preloaded) =>
          var preload := if DeclaresFonts(p.styles, urls) && !preloaded then [Finding(FontPreload, "src/layouts/", None)] else [];
          var display := ForEachFile(p.styles, DisplayFindings).value;
          ForEachOfKind(p.astro, ExternalFontFindings, FontExternal);
          ForEachOfKind(p.styles, DisplayFindings, FontDisplay);
          FontCounts(external, preload, display);
          Some(external + preload + display)
  }

  /** Only the middle part of the fonts report can hold a preload finding. */
  lemma FontCounts(external: seq<Finding>, preload: seq<Finding>, display: seq<Finding>)
    requires forall i :: 0 <= i < |external| ==> external[i].kind == FontExternal
    requires |preload| <= 1
    requires forall i :: 0 <= i < |display| ==> display[i].kind == FontDisplay
    ensures CountKind(external + preload + display, FontPreload) <= 1
  {
    CountKindConcat(external + preload, display, FontPreload);
    CountKindConcat(external, preload, FontPreload);
    KindAbsent(external, FontPreload);
    KindAbsent(display, FontPreload);
  }

  lemma {:induction false} KindAbsent(fs: seq<Finding>, k: Kind)
    requires forall i :: 0 <= i < |fs| ==> fs[i].kind != k
    ensures CountKind(fs, k) == 0
    decreases |fs|
  {
    if |fs| > 0 {
      KindAbsent(fs[1..], k);
    }
  }

  /** The preload finding is raised exactly when a style sheet declares a
      font file and no layout preloads a font. */
  lemma FontPreloadReported(p: Project, urls: FontUrls)
    requires AnalyzeFonts(p, urls).Some?
    ensures CountKind(AnalyzeFonts(p, urls).value, FontPreload) == 1
      <==> DeclaresFonts(p.styles, urls) && ScanUntil(p.layouts, PreloadsFont) == Some(false)
  {
    var external := ForEachFile(p.astro, ExternalFontFindings).value;
    var preloaded := ScanUntil(p.layouts, PreloadsFont).value;
    var preload := if DeclaresFonts(p.styles, urls) && !preloaded then [Finding(FontPreload, "src/layouts/", None)] else [];
    var display := ForEachFile(p.styles, DisplayFindings).value;
    ForEachOfKind(p.astro, ExternalFontFindings, FontExternal);
    ForEachOfKind(p.styles, DisplayFindings, FontDisplay);
    CountKindConcat(external + preload, display, FontPreload);
    CountKindConcat(external, preload, FontPreload);
    KindAbsent(external, FontPreload);
    KindAbsent(display, FontPreload);
  }

  /** A per-file check that only reports one kind reports only that kind
      over a walk. */
  lemma {:induction false} ForEachOfKind(files: seq<SourceFile>, check: (string, string) -> seq<Finding>, k: Kind)
    requires forall rel, c :: forall i :: 0 <= i < |check(rel, c)| ==> check(rel, c)[i].kind == k
    requires ForEachFile(files, check).Some?
    ensures forall i :: 0 <= i < |ForEachFile(files, check).value| ==> ForEachFile(files, check).value[i].kind == k
    decreases |files|
  {
    if |files| > 0 {
      ForEachOfKind(files[1..], check, k);
      var head := check(files[0].rel, files[0].content.value);
      var rest := ForEachFile(files[1..], check).value;
      assert ForEachFile(files, check).value == head + rest;
    }
  }

  // ----- analyze_prefetch ------------------------------------------------------

  function AnalyzePrefetch(p: Project): (r: Option<seq<Finding>>)
    ensures p.config.None? ==> r == Some([])
    ensures p.config.Some? ==> (r.None? <==> p.config.value.content.None?)
    ensures r.Some? ==> |r.value| <= 1 && forall i :: 0 <= i < |r.value| ==> r.value[i].kind == PrefetchConfig
    ensures r.Some? && p.config.Some? ==> (|r.value| == 1 <==> !Contains(p.config.value.content.value, "prefetch"))
  {
    match p.config
    case None => Some([])
    case Some(cfg) =>
      match cfg.content
      case None => None
      case Some(c) => Some(if !Contains(c, "prefetch") then [Finding(PrefetchConfig, cfg.rel, None)] else [])
  }

  // ----- analyze_preconnect ----------------------------------------------------

  /** The origins every `.astro` file contributes. */
  function AllOrigins(contents: seq<string>): (r: set<string>)
    ensures forall o :: o in r ==> Origins.IsOrigin(o) && !Contains(o, "localhost")
    decreases |contents|
  {
    if |contents| == 0 then {} else Origins.FileOrigins(contents[0]) + AllOrigins(contents[1..])
  }

  /** The union of what `f` gives for each element of a list. */
  function UnionOver(xs: seq<string>, f: string -> set<string>): set<string>
    decreases |xs|
  {
    if |xs| == 0 then {} else f(xs[0]) + UnionOver(xs[1..], f)
  }

  /** An element of such a union comes from some element of the list. */
  lemma {:induction false} InUnionOver(xs: seq<string>, f: string -> set<string>, o: string)
    ensures o in UnionOver(xs, f) <==> exists i :: 0 <= i < |xs| && o in f(xs[i])
    decreases |xs|
  {
    if |xs| > 0 {
      var rest := xs[1..];
      InUnionOver(rest, f, o);
      if o in f(xs[0]) {
        assert 0 < |xs|;
      } else if o in UnionOver(rest, f) {
        var i :| 0 <= i < |rest| && o in f(rest[i]);
        assert rest[i] == xs[i + 1];
      } else {
        forall i | 0 <= i < |xs|
          ensures o !in f(xs[i])
        {
          if i > 0 {
            assert rest[i - 1] == xs[i];
          }
        }
      }
    }
  }

  /** The origins of one file, as a value. */
  function FileOriginsOf(): (f: string -> set<string>)
    ensures forall c :: f(c) == Origins.FileOrigins(c)
  {
    c => Origins.FileOrigins(c)
  }

  lemma {:induction false} AllOriginsIsUnion(contents: seq<string>)
    ensures AllOrigins(contents) == UnionOver(contents, FileOriginsOf())
    decreases |contents|
  {
    if |contents| > 0 {
      AllOriginsIsUnion(contents[1..]);
    }
  }

  /** The origins of the pages are those of some page. */
  lemma AllOriginsOfPages(contents: seq<string>, o: string)
    ensures o in AllOrigins(contents) <==> exists i :: 0 <= i < |contents| && o in Origins.FileOrigins(contents[i])
  {
    AllOriginsIsUnion(contents);
    InUnionOver(contents, FileOriginsOf(), o);
  }

  /** A layout that carries a preconnect link. */
  predicate HasPreconnect(content: string) {
    Contains(content, "rel=\"preconnect\"") || Contains(content, "rel='preconnect'")
  }

  /** An origin counts as preconnected when some layout with a preconnect
      link mentions it anywhere. */
  predicate Preconnected(o: string, layouts: seq<string>) {
    exists i :: 0 <= i < |layouts| && HasPreconnect(layouts[i]) && Contains(layouts[i], o)
  }

  function Contents(files: seq<SourceFile>): (cs: seq<string>)
    requires Readable(files)
    ensures |cs| == |files| && forall i :: 0 <= i < |files| ==> cs[i] == files[i].content.value
  {
    seq(|files|, i requires 0 <= i < |files| && Readable(files) => files[i].content.value)
  }

  /** The origins found without a preconnect. */
  function MissingPreconnect(astro: seq<string>, layouts: seq<string>): (r: set<string>)
    ensures forall o :: o in r ==> Origins.IsOrigin(o)
    ensures forall o :: o in r <==> o in AllOrigins(astro) && !Preconnected(o, layouts)
  {
    set o | o in AllOrigins(astro) && !Preconnected(o, layouts)
  }

  function AnalyzePreconnect(p: Project): (r: Option<seq<Finding>>)
    ensures r.None? <==> !Readable(p.astro) || !Readable(p.layouts)
    ensures r.Some? ==> |r.value| <= 1 && forall i :: 0 <= i < |r.value| ==> r.value[i] == Finding(Preconnect, "src/layouts/", None)
    ensures r.Some? ==> (|r.value| == 1 <==> MissingPreconnect(Contents(p.astro), Contents(p.layouts)) != {})
  {
    if !Readable(p.astro) || !Readable(p.layouts) then None
    else
      var missing := MissingPreconnect(Contents(p.astro), Contents(p.layouts));
      Some(if missing != {} then [Finding(Preconnect, "src/layouts/", None)] else [])
  }

  // ----- analyze_scripts -------------------------------------------------------

  /** A third-party `<script src=...>` tag the blocking check reports. */
  predicate Blocks(tag: string) {
    !Contains(tag, "defer") && !Contains(tag, "async")
  }

  function BlockingFindings(rel: string, content: string, os: seq<Occurrence>): (r: seq<Finding>)
    requires Within(os, content)
    ensures AllOf(r, ScriptBlocking, rel) && |r| <= |os|
    ensures forall i :: 0 <= i < |r| ==> r[i].line.Some? && 1 <= r[i].line.value <= |Split(content, '\n')|
    decreases |os|
  {
    if |os| == 0 then []
    else
      var rest := BlockingFindings(rel, content, os[1..]);
      if Blocks(os[0].text) then [Finding(ScriptBlocking, rel, Some(LineOf(content, os[0].start)))] + rest
      else rest
  }

  /** Every external script without `defer` or `async` is reported, at the
      line it starts on. */
  lemma {:induction false} BlockingReported(rel: string, content: string, os: seq<Occurrence>, i: nat)
    requires Within(os, content)
    requires i < |os| && Blocks(os[i].text)
    ensures Finding(ScriptBlocking, rel, Some(LineOf(content, os[i].start))) in BlockingFindings(rel, content, os)
    decreases i
  {
    if i > 0 {
      BlockingReported(rel, content, os[1..], i - 1);
      assert os[1..][i - 1] == os[i];
    }
  }

  /** The positions of the script tags the blocking check reports. */
  function BlockingAt(os: seq<Occurrence>): set<nat> {
    set i: nat | i < |os| && Blocks(os[i].text)
  }

  /** A tag more gives a finding more exactly when it blocks. */
  lemma {:induction false} BlockingFindingsAppend(rel: string, content: string, os: seq<Occurrence>, o: Occurrence)
    requires Within(os + [o], content)
    ensures Within(os, content)
    ensures |BlockingFindings(rel, content, os + [o])| == |BlockingFindings(rel, content, os)| + (if Blocks(o.text) then 1 else 0)
    decreases |os|
  {
    assert forall i :: 0 <= i < |os| ==> os[i] == (os + [o])[i];
    if |os| > 0 {
      assert (os + [o])[1..] == os[1..] + [o];
      BlockingFindingsAppend(rel, content, os[1..], o);
    } else {
      assert os + [o] == [o];
    }
  }

  lemma BlockingAtAppend(os: seq<Occurrence>)
    requires |os| > 0
    ensures |BlockingAt(os)| == |BlockingAt(os[..|os| - 1])| + (if Blocks(os[|os| - 1].text) then 1 else 0)
  {
    var n := |os| - 1;
    var a := BlockingAt(os[..n]);
    assert forall i: nat :: i in a <==> i < n && Blocks(os[i].text);
    Firsts.CardStep(a, BlockingAt(os), n, Blocks(os[n].text));
  }

  /** One blocking finding per script tag without `defer` or `async`, and
      none for any other tag. */
  lemma {:induction false} BlockingCount(rel: string, content: string, os: seq<Occurrence>)
    requires Within(os, content)
    ensures |BlockingFindings(rel, content, os)| == |BlockingAt(os)|
    ensures |BlockingFindings(rel, content, os)| == 0 <==> forall i :: 0 <= i < |os| ==> !Blocks(os[i].text)
    decreases |os|
  {
    if |os| > 0 {
      var n := |os| - 1;
      BlockingCount(rel, content, os[..n]);
      BlockingFindingsAppend(rel, content, os[..n], os[n]);
      assert os[..n] + [os[n]] == os;
      BlockingAtAppend(os);
      if |BlockingFindings(rel, content, os)| == 0 {
        assert BlockingAt(os) == {};
        forall i | 0 <= i < |os|
          ensures !Blocks(os[i].text)
        {
          assert i !in BlockingAt(os);
        }
      }
      if forall i :: 0 <= i < |os| ==> !Blocks(os[i].text) {
        assert BlockingAt(os) == {};
      }
    }
  }

  /** The defer rewriter tests the lowered tag and this check the tag as
      written, so every tag the rewriter edits is one this check flags. */
  lemma DeferEditIsBlocking(tag: string)
    requires |tag| > 0
    ensures Rewriters.Callback(Rewriters.DeferScript, tag).Some? ==> Blocks(tag)
  {
    if Contains(tag, "defer") {
      ContainsLowered(tag, "defer");
    }
    if Contains(tag, "async") {
      ContainsLowered(tag, "async");
    }
  }

  /** The converse fails: a tag holding `DEFER` is flagged here, but the
      rewriter leaves it alone. */
  lemma UpperDeferNotEdited(tag: string)
    requires Blocks(tag) && Contains(tag, "DEFER")
    ensures Rewriters.Callback(Rewriters.DeferScript, tag).None?
  {
    var i := ContainsHasWitness(tag, "DEFER");
    var low := Lower(tag);
    assert low[i..i + 5] == "defer" by {
      forall k | 0 <= k < 5 ensures low[i + k] == "defer"[k] {
        assert tag[i + k] == "DEFER"[k];
      }
    }
    ContainsFromWitness(low, "defer", i);
  }

  /** Every external script the defer rewriter would edit in a file is
      reported as blocking, at the line it starts on. */
  lemma DeferEditsFlagged(rel: string, content: string, i: nat)
    requires i < |ScriptTags(content)| && |ScriptTags(content)[i].text| > 0
    requires Rewriters.Callback(Rewriters.DeferScript, ScriptTags(content)[i].text).Some?
    ensures Finding(ScriptBlocking, rel, Some(LineOf(content, ScriptTags(content)[i].start)))
      in ScriptFileFindings(rel, content)
  {
    var os := ScriptTags(content);
    DeferEditIsBlocking(os[i].text);
    BlockingReported(rel, content, os, i);
  }

  /** The external `<script src=...>` tags of a text. */
  function ScriptTags(content: string): (os: seq<Occurrence>)
    ensures Within(os, content)
  {
    Tags(Find(ExternalScript), content)
  }

  const TrackingPatterns: seq<string> :=
    ["analytics", "gtag", "gtm", "facebook", "pixel", "hotjar", "intercom", "crisp", "drift"]

  /** Neither `setTimeout` nor `requestIdleCallback` occurs. */
  predicate LoadsImmediately(content: string) {
    !Contains(content, "setTimeout") && !Contains(content, "requestIdleCallback")
  }

  /** The tracking loop: a pattern in the lowered text of a file that loads
      scripts immediately is reported, and ends the loop, when the file has
      a `<script`; otherwise the loop goes on. */
  function TrackingLoop(rel: string, content: string, patterns: seq<string>): (r: seq<Finding>)
    ensures |r| <= 1 && AllOf(r, ScriptTracking, rel)
    decreases |patterns|
  {
    if |patterns| == 0 then []
    else if Contains(Lower(content), patterns[0]) && LoadsImmediately(content)
      && Contains(content, "<script") && Contains(Lower(content), patterns[0]) then
      [Finding(ScriptTracking, rel, None)]
    else TrackingLoop(rel, content, patterns[1..])
  }

  /** The loop reports exactly when the file names a tracker, has a
      `<script` and defers nothing. */
  lemma {:induction false} TrackingLoopReports(rel: string, content: string, patterns: seq<string>)
    ensures |TrackingLoop(rel, content, patterns)| == 1
      <==> ContainsAny(Lower(content), patterns) && LoadsImmediately(content) && Contains(content, "<script")
    decreases |patterns|
  {
    if |patterns| > 0 {
      TrackingLoopReports(rel, content, patterns[1..]);
      if ContainsAny(Lower(content), patterns[1..]) {
        var k :| 0 <= k < |patterns[1..]| && Contains(Lower(content), patterns[1..][k]);
        assert Contains(Lower(content), patterns[k + 1]);
      }
      if ContainsAny(Lower(content), patterns) && !Contains(Lower(content), patterns[0]) {
        var k :| 0 <= k < |patterns| && Contains(Lower(content), patterns[k]);
        assert patterns[1..][k - 1] == patterns[k];
      }
    }
  }

  function ScriptFileFindings(rel: string, content: string): (r: seq<Finding>)
    ensures Names(r, rel)
  {
    var blocking := BlockingFindings(rel, content, ScriptTags(content));
    var tracking := TrackingLoop(rel, content, TrackingPatterns);
    NamesConcat(blocking, tracking, rel);
    blocking + tracking
  }

  /** One `.astro` file yields a tracking finding exactly when it names a
      tracker, has a `<script` and defers nothing, and one blocking finding
      per external script without `defer` or `async`. */
  lemma ScriptFileCounts(rel: string, content: string)
    ensures CountKind(ScriptFileFindings(rel, content), ScriptTracking)
      == if ContainsAny(Lower(content), TrackingPatterns) && LoadsImmediately(content) && Contains(content, "<script") then 1 else 0
    ensures CountKind(ScriptFileFindings(rel, content), ScriptBlocking) == |BlockingFindings(rel, content, ScriptTags(content))|
  {
    var blocking := BlockingFindings(rel, content, ScriptTags(content));
    var tracking := TrackingLoop(rel, content, TrackingPatterns);
    TrackingLoopReports(rel, content, TrackingPatterns);
    OneKindCount(blocking, ScriptBlocking, rel, ScriptTracking);
    OneKindCount(blocking, ScriptBlocking, rel, ScriptBlocking);
    OneKindCount(tracking, ScriptTracking, rel, ScriptTracking);
    OneKindCount(tracking, ScriptTracking, rel, ScriptBlocking);
    CountKindConcat(blocking, tracking, ScriptTracking);
    CountKindConcat(blocking, tracking, ScriptBlocking);
  }

  function AnalyzeScripts(p: Project): (r: Option<seq<Finding>>)
    ensures r.None? <==> !Readable(p.astro)
  {
    ForEachFile(p.astro, ScriptFileFindings)
  }

  // ----- analyze_css -----------------------------------------------------------

  predicate UsesContentVisibility(content: string) {
    Contains(content, "content-visibility")
  }

  /** analyze_css: the loop stops at the first stylesheet that uses
      `content-visibility`; an unreadable one reached before that raises;
      a loop that reads every sheet without a hit reports once. */
  function AnalyzeCss(p: Project): (r: Option<seq<Finding>>)
    ensures r.Some? ==> |r.value| <= 1 && forall i :: 0 <= i < |r.value| ==> r.value[i] == Finding(CssContentVisibility, "Global CSS", None)
    ensures r == Some([Finding(CssContentVisibility, "Global CSS", None)]) <==>
      Readable(p.styles) && forall i :: 0 <= i < |p.styles| ==> !UsesContentVisibility(p.styles[i].content.value)
    ensures r == Some([]) <==>
      exists i :: 0 <= i < |p.styles| && Reaches(p.styles, UsesContentVisibility, i) && Stops(p.styles, UsesContentVisibility, i)
    ensures r.None? <==>
      exists i :: 0 <= i < |p.styles| && Reaches(p.styles, UsesContentVisibility, i) && p.styles[i].content.None?
  {
    ScanUntilExact(p.styles, UsesContentVisibility);
    match ScanUntil(p.styles, UsesContentVisibility)
    case None => None
    case Some(found) => Some(if !found then [Finding(CssContentVisibility, "Global CSS", None)] else [])
  }

  // ----- analyze_astro_config --------------------------------------------------

  function AnalyzeConfig(p: Project): (r: Option<seq<Finding>>)
    ensures p.config.None? ==> r == Some([])
    ensures p.config.Some? ==> (r.None? <==> p.config.value.content.None?)
    ensures r.Some? ==> |r.value| <= 2
    ensures r.Some? && p.config.Some? ==> Names(r.value, p.config.value.rel)
    ensures r.Some? && p.config.Some? ==>
      var c := p.config.value.content.value;
      var noImage := !Contains(c, "image:") && !Contains(c, "astro:assets");
      (Finding(ConfigImage, p.config.value.rel, None) in r.value <==> noImage)
      && (Finding(ConfigCompress, p.config.value.rel, None) in r.value <==> !Contains(c, "compress"))
      && |r.value| == (if noImage then 1 else 0) + (if Contains(c, "compress") then 0 else 1)
  {
    match p.config
    case None => Some([])
    case Some(cfg) =>
      match cfg.content
      case None => None
      case Some(c) =>
        var image := if !Contains(c, "image:") && !Contains(c, "astro:assets") then [Finding(ConfigImage, cfg.rel, None)] else [];
        var compress := if !Contains(c, "compress") && !Contains(c, "compressHTML") then [Finding(ConfigCompress, cfg.rel, None)] else [];
        CompressTestRedundant(c);
        Some(image + compress)
  }

  /** A text holding `compressHTML` holds `compress`: the second half of the
      compression test never decides anything. */
  lemma CompressTestRedundant(c: string)
    ensures (!Contains(c, "compress") && !Contains(c, "compressHTML")) <==> !Contains(c, "compress")
  {
    if Contains(c, "compressHTML") {
      var i := ContainsHasWitness(c, "compressHTML");
      assert c[i..i + 8] == "compressHTML"[..8];
      ContainsFromWitness(c, "compress", i);
    }
  }

  // ----- analyze_project -------------------------------------------------------

  /** What each analyzer returned, in the order analyze_project runs them;
      `None` for one that raised. */
  function Outcomes(p: Project, urls: FontUrls): (os: seq<Option<seq<Finding>>>)
    ensures |os| == 7
  {
    [AnalyzeImages(p), AnalyzeFonts(p, urls), AnalyzePrefetch(p), AnalyzePreconnect(p),
     AnalyzeScripts(p), AnalyzeCss(p), AnalyzeConfig(p)]
  }

  /** The findings of the analyzers that returned, in analyzer order; one
      that raised adds nothing. */
  function Gather(os: seq<Option<seq<Finding>>>): seq<Finding>
    decreases |os|
  {
    if |os| == 0 then []
    else (match os[0] case None => [] case Some(fs) => fs) + Gather(os[1..])
  }

  /** An analyzer's failure costs exactly its own findings: the report is
      what the analyzers before it found, then its findings, then what the
      ones after it found. */
  lemma {:induction false} GatherSplit(os: seq<Option<seq<Finding>>>, i: nat)
    requires i < |os|
    ensures Gather(os) == Gather(os[..i]) + (match os[i] case None => [] case Some(fs) => fs) + Gather(os[i + 1..])
    decreases i
  {
    if i > 0 {
      GatherSplit(os[1..], i - 1);
      assert os[1..][..i - 1] == os[..i][1..];
      assert os[1..][i - 1] == os[i];
      assert os[1..][i..] == os[i + 1..];
      assert Gather(os[..i]) == (match os[0] case None => [] case Some(fs) => fs) + Gather(os[..i][1..]);
    } else {
      assert os[..0] == [];
      assert os[1..] == os[i + 1..];
    }
  }

  datatype Summary = Summary(total: nat, high: nat, medium: nat, low: nat, safe: nat, risky: nat, autoFixable: nat)

  /** The groups the summary counts. */
  datatype Bucket = BySeverity(severity: Severity) | ByRisk(risk: Risk) | AutoFixable

  predicate InBucket(k: Kind, b: Bucket) {
    match b
    case BySeverity(s) => SeverityOf(k) == s
    case ByRisk(r) => RiskOf(k) == r
    case AutoFixable => FixableOf(k)
  }

  /** The positions of the findings in a group: what
      `len([f for f in report.findings if ...])` counts. */
  function Where(fs: seq<Finding>, b: Bucket): set<nat> {
    set i: nat | i < |fs| && InBucket(fs[i].kind, b)
  }

  /** The count of a group, one finding at a time. */
  function CountIn(fs: seq<Finding>, b: Bucket): (n: nat)
    ensures n <= |fs|
    decreases |fs|
  {
    if |fs| == 0 then 0 else (if InBucket(fs[0].kind, b) then 1 else 0) + CountIn(fs[1..], b)
  }

  lemma {:induction false} CountInAppend(fs: seq<Finding>, f: Finding, b: Bucket)
    ensures CountIn(fs + [f], b) == CountIn(fs, b) + (if InBucket(f.kind, b) then 1 else 0)
    decreases |fs|
  {
    if |fs| > 0 {
      assert (fs + [f])[1..] == fs[1..] + [f];
      CountInAppend(fs[1..], f, b);
    } else {
      assert fs + [f] == [f];
    }
  }

  /** The running count is the number of positions in the group. */
  lemma {:induction false} CountInIsCard(fs: seq<Finding>, b: Bucket)
    ensures CountIn(fs, b) == |Where(fs, b)|
    decreases |fs|
  {
    if |fs| > 0 {
      var n := |fs| - 1;
      CountInIsCard(fs[..n], b);
      CountInAppend(fs[..n], fs[n], b);
      assert fs[..n] + [fs[n]] == fs;
      var a := Where(fs[..n], b);
      assert forall i: nat :: i in a <==> i < n && InBucket(fs[i].kind, b);
      Firsts.CardStep(a, Where(fs, b), n, InBucket(fs[n].kind, b));
    }
  }

  /** Every finding has one severity and one risk. */
  lemma {:induction false} BucketsSplit(fs: seq<Finding>)
    ensures CountIn(fs, BySeverity(High)) + CountIn(fs, BySeverity(Medium)) + CountIn(fs, BySeverity(Low)) == |fs|
    ensures CountIn(fs, ByRisk(Safe)) + CountIn(fs, ByRisk(Risky)) == |fs|
    decreases |fs|
  {
    if |fs| > 0 {
      BucketsSplit(fs[1..]);
    }
  }

  /** The summary of analyze_project: each count is the number of findings
      in its group. */
  function Summarize(fs: seq<Finding>): (s: Summary)
    ensures s.total == |fs|
    ensures s.high == |Where(fs, BySeverity(High))| && s.medium == |Where(fs, BySeverity(Medium))|
    ensures s.low == |Where(fs, BySeverity(Low))|
    ensures s.safe == |Where(fs, ByRisk(Safe))| && s.risky == |Where(fs, ByRisk(Risky))|
    ensures s.autoFixable == |Where(fs, AutoFixable)|
    ensures s.high + s.medium + s.low == s.total
    ensures s.safe + s.risky == s.total
  {
    BucketsSplit(fs);
    CountInIsCard(fs, BySeverity(High));
    CountInIsCard(fs, BySeverity(Medium));
    CountInIsCard(fs, BySeverity(Low));
    CountInIsCard(fs, ByRisk(Safe));
    CountInIsCard(fs, ByRisk(Risky));
    CountInIsCard(fs, AutoFixable);
    Summary(|fs|,
      CountIn(fs, BySeverity(High)), CountIn(fs, BySeverity(Medium)), CountIn(fs, BySeverity(Low)),
      CountIn(fs, ByRisk(Safe)), CountIn(fs, ByRisk(Risky)), CountIn(fs, AutoFixable))
  }

  datatype AnalysisReport = AnalysisReport(findings: seq<Finding>, summary: Summary)

  function AnalyzeProject(p: Project, urls: FontUrls): (r: AnalysisReport)
    ensures r.findings == Gather(Outcomes(p, urls))
    ensures r.summary.total == |r.findings|
    ensures r.summary.high == |Where(r.findings, BySeverity(High))|
    ensures r.summary.medium == |Where(r.findings, BySeverity(Medium))|
    ensures r.summary.low == |Where(r.findings, BySeverity(Low))|
    ensures r.summary.safe == |Where(r.findings, ByRisk(Safe))|
    ensures r.summary.risky == |Where(r.findings, ByRisk(Risky))|
    ensures r.summary.autoFixable == |Where(r.findings, AutoFixable)|
  {
    var fs := Gather(Outcomes(p, urls));
    AnalysisReport(fs, Summarize(fs))
  }
}
