/**
 detect_js_patterns.py: for every file, at most one finding per entry of the
 pattern table, reporting where the first of the entry's expressions that
 matches at all first matches; then order-preserving deduplication on
 (pattern, file) and a summary by severity and by pattern.

 The table's regular expressions are not modelled: each is a `Search`, the
 offset of its first match (Python's `re.search(...).start()`), supplied by
 the caller. Names and severities are the table's own.
 */
module JsPatterns {
  import opened Text
  import opened Report
  import Firsts

  /** An expression of the table: where it first matches in a text. */
  type Search = string -> Option<nat>

  /** A match starts inside the text (possibly at its very end). */
  ghost predicate InText(search: Search) {
    forall s :: search(s).Some? ==> search(s).value <= |s|
  }

  datatype PatternDef = PatternDef(name: string, severity: Severity, searches: seq<Search>)

  /** Every expression of an entry reports offsets inside the text. */
  ghost predicate EntryOk(def: PatternDef) {
    forall j :: 0 <= j < |def.searches| ==> InText(def.searches[j])
  }

  ghost predicate WellFormed(defs: seq<PatternDef>) {
    forall k :: 0 <= k < |defs| ==> EntryOk(defs[k])
  }

  /** The names and severities of the fifteen table entries, in table order. */
  const PatternNames: seq<string> := [
    "accordion_toggle", "modal_dialog", "tabs", "smooth_scroll", "carousel_slider",
    "sticky_header", "dark_mode", "form_validation", "tooltip", "animation_js",
    "aspect_ratio_js", "container_query_js", "counter_numbering", "view_transitions",
    "scroll_driven_animation"]

  const PatternSeverities: seq<Severity> := [
    High, High, High, High, Medium,
    High, Medium, Medium, High, Medium,
    High, Medium, High, Low,
    Medium]

  /** The table, given each entry's expressions. */
  function Table(searches: seq<seq<Search>>): (defs: seq<PatternDef>)
    requires |searches| == |PatternNames|
    ensures |defs| == |PatternNames|
    ensures forall k :: 0 <= k < |defs| ==>
      defs[k].name == PatternNames[k] && defs[k].severity == PatternSeverities[k] && defs[k].searches == searches[k]
  {
    seq(|PatternNames|, k requires 0 <= k < |PatternNames| => PatternDef(PatternNames[k], PatternSeverities[k], searches[k]))
  }

  /** No two entries have the same name. */
  predicate NamesDistinct(defs: seq<PatternDef>) {
    forall k, j :: 0 <= k < j < |defs| ==> defs[k].name != defs[j].name
  }

  lemma TableNamesDistinct(searches: seq<seq<Search>>)
    requires |searches| == |PatternNames|
    ensures NamesDistinct(Table(searches))
  {
    var defs := Table(searches);
    forall k, j | 0 <= k < j < |defs|
      ensures defs[k].name != defs[j].name
    {
      assert defs[k].name == PatternNames[k] && defs[j].name == PatternNames[j];
    }
  }

  datatype JsFinding = JsFinding(pattern: string, severity: Severity, file: string, line: nat, evidence: string)

  /** The expression reported for an entry: the first in list order that
      matches at all, with the offset of its first match. */
  datatype Hit = Hit(index: nat, start: nat)

  function FirstHit(searches: seq<Search>, content: string): (r: Option<Hit>)
    requires forall j :: 0 <= j < |searches| ==> InText(searches[j])
    ensures r.Some? ==> r.value.index < |searches| && searches[r.value.index](content) == Some(r.value.start)
    ensures r.Some? ==> r.value.start <= |content|
    ensures r.Some? ==> forall j :: 0 <= j < r.value.index ==> searches[j](content).None?
    ensures r.None? <==> forall j :: 0 <= j < |searches| ==> searches[j](content).None?
    decreases |searches|
  {
    if |searches| == 0 then None
    else
      assert InText(searches[0]);
      match searches[0](content)
      case Some(start) => Some(Hit(0, start))
      case None =>
        match FirstHit(searches[1..], content)
        case None => None
        case Some(h) => Some(Hit(h.index + 1, h.start))
  }

  /** An entry reports on a text when one of its expressions matches. */
  predicate Reports(def: PatternDef, content: string)
    requires EntryOk(def)
  {
    FirstHit(def.searches, content).Some?
  }

  /** A finding comes from an entry: its name, its severity, and the line of
      the entry's first hit. */
  predicate FromEntry(f: JsFinding, def: PatternDef, content: string)
    requires EntryOk(def)
  {
    Reports(def, content) && f.pattern == def.name && f.severity == def.severity
    && f.line == LineOf(content, FirstHit(def.searches, content).value.start)
  }

  /** The finding an entry yields for a file, if any. */
  function EntryFinding(def: PatternDef, rel: string, content: string): (r: Option<JsFinding>)
    requires EntryOk(def)
    ensures r.Some? <==> Reports(def, content)
    ensures r.Some? ==> FromEntry(r.value, def, content) && r.value.file == rel
    ensures r.Some? ==> 1 <= r.value.line <= |Split(content, '\n')| && |r.value.evidence| <= 103
  {
    match FirstHit(def.searches, content)
    case None => None
    case Some(h) =>
      var line := LineOf(content, h.start);
      Some(JsFinding(def.name, def.severity, rel, line, Evidence(LineText(content, line))))
  }

  /** The evidence of a finding, without the `...` marking a cut, is text
      of the file: the line holding the entry's first hit. */
  lemma EntryEvidenceOccurs(def: PatternDef, rel: string, content: string)
    requires EntryOk(def) && Reports(def, content)
    ensures Contains(content, Take(EntryFinding(def, rel, content).value.evidence, 100))
  {
    var start := FirstHit(def.searches, content).value.start;
    var t := Strip(LineText(content, LineOf(content, start)));
    EvidenceOccurs(content, start);
    var e := EntryFinding(def, rel, content).value.evidence;
    assert e == Evidence(LineText(content, LineOf(content, start)));
    assert Take(e, 100) == Take(t, 100);
  }

  /** What an entry adds to a file's findings. */
  function EntryFindings(def: PatternDef, rel: string, content: string): (r: seq<JsFinding>)
    requires EntryOk(def)
  {
    match EntryFinding(def, rel, content)
    case None => []
    case Some(f) => [f]
  }

  /** analyze_file on a file that could be read: the entries in table order,
      each appending at most one finding. */
  function FileFindings(defs: seq<PatternDef>, rel: string, content: string): (r: seq<JsFinding>)
    requires WellFormed(defs)
    ensures |r| <= |defs|
    ensures forall i :: 0 <= i < |r| ==> r[i].file == rel && 1 <= r[i].line <= |Split(content, '\n')|
    decreases |defs|
  {
    if |defs| == 0 then []
    else
      var last := defs[|defs| - 1];
      assert EntryOk(last);
      FileFindings(defs[..|defs| - 1], rel, content) + EntryFindings(last, rel, content)
  }

  /** analyze_file: a file that cannot be read yields no finding. */
  function AnalyzeFile(defs: seq<PatternDef>, rel: string, content: Option<string>): (r: seq<JsFinding>)
    requires WellFormed(defs)
    ensures content.None? ==> r == []
    ensures content.Some? ==> r == FileFindings(defs, rel, content.value)
  {
    match content
    case None => []
    case Some(c) => FileFindings(defs, rel, c)
  }

  /** The positions in the table of the entries that report on a text, in
      table order: an independent statement of which entries report. */
  function Matching(defs: seq<PatternDef>, content: string): (ks: seq<nat>)
    requires WellFormed(defs)
    ensures forall i :: 0 <= i < |ks| ==> ks[i] < |defs|
    ensures forall i, j :: 0 <= i < j < |ks| ==> ks[i] < ks[j]
    ensures forall k :: 0 <= k < |defs| ==> (k in ks <==> Reports(defs[k], content))
    decreases |defs|
  {
    if |defs| == 0 then []
    else
      var n := |defs| - 1;
      var ks := Matching(defs[..n], content);
      MatchingStep(defs, content, ks);
      ks + (if Reports(defs[n], content) then [n] else [])
  }

  /** The entries of a table that report are those of its front that
      report, then its last entry if that one does. */
  lemma MatchingStep(defs: seq<PatternDef>, content: string, ks: seq<nat>)
    requires WellFormed(defs) && |defs| > 0
    requires var init := defs[..|defs| - 1];
      WellFormed(init)
      && (forall i :: 0 <= i < |ks| ==> ks[i] < |init|)
      && (forall i, j :: 0 <= i < j < |ks| ==> ks[i] < ks[j])
      && (forall k :: 0 <= k < |init| ==> (k in ks <==> Reports(init[k], content)))
    ensures var n := |defs| - 1;
      var r := ks + (if Reports(defs[n], content) then [n] else []);
      (forall i :: 0 <= i < |r| ==> r[i] < |defs|)
      && (forall i, j :: 0 <= i < j < |r| ==> r[i] < r[j])
      && (forall k :: 0 <= k < |defs| ==> (k in r <==> Reports(defs[k], content)))
  {
    var n := |defs| - 1;
    var init := defs[..n];
    assert forall k :: 0 <= k < n ==> init[k] == defs[k];
    var b := Reports(defs[n], content);
    Extend(ks, n, b);
  }

  /** Appending a position past all others, or nothing. */
  lemma Extend(ks: seq<nat>, n: nat, b: bool)
    requires forall i :: 0 <= i < |ks| ==> ks[i] < n
    requires forall i, j :: 0 <= i < j < |ks| ==> ks[i] < ks[j]
    ensures var r := ks + (if b then [n] else []);
      (forall i :: 0 <= i < |r| ==> r[i] <= n)
      && (forall i, j :: 0 <= i < j < |r| ==> r[i] < r[j])
      && (forall k :: k in r <==> k in ks || (b && k == n))
      && n !in ks
  {
  }

  /** Finding `i` of `r` comes from entry `ks[i]` of the table. */
  ghost predicate FollowsTable(r: seq<JsFinding>, ks: seq<nat>, defs: seq<PatternDef>, content: string)
    requires WellFormed(defs)
  {
    |r| == |ks| && forall i :: 0 <= i < |r| ==> ks[i] < |defs| && FromEntry(r[i], defs[ks[i]], content)
  }

  /** Findings that follow the table still do when the table grows. */
  lemma FollowsLongerTable(r: seq<JsFinding>, ks: seq<nat>, defs: seq<PatternDef>, n: nat, content: string)
    requires WellFormed(defs) && n <= |defs| && FollowsTable(r, ks, defs[..n], content)
    ensures FollowsTable(r, ks, defs, content)
  {
    forall i | 0 <= i < |r|
      ensures ks[i] < |defs| && FromEntry(r[i], defs[ks[i]], content)
    {
      assert defs[..n][ks[i]] == defs[ks[i]];
    }
  }

  /** Appending to both sides keeps findings following the table. */
  lemma FollowsAppend(r: seq<JsFinding>, ks: seq<nat>, e: seq<JsFinding>, e': seq<nat>, defs: seq<PatternDef>, content: string)
    requires WellFormed(defs) && FollowsTable(r, ks, defs, content) && FollowsTable(e, e', defs, content)
    ensures FollowsTable(r + e, ks + e', defs, content)
  {
    forall i | 0 <= i < |r + e|
      ensures (ks + e')[i] < |defs| && FromEntry((r + e)[i], defs[(ks + e')[i]], content)
    {
      if i >= |r| {
        assert (r + e)[i] == e[i - |r|] && (ks + e')[i] == e'[i - |r|];
      }
    }
  }

  /** What the last entry adds follows the table. */
  lemma EntryFollows(defs: seq<PatternDef>, n: nat, rel: string, content: string) returns (e: seq<JsFinding>, e': seq<nat>)
    requires WellFormed(defs) && n < |defs|
    ensures EntryOk(defs[n])
    ensures e == EntryFindings(defs[n], rel, content)
    ensures e' == if Reports(defs[n], content) then [n] else []
    ensures FollowsTable(e, e', defs, content)
  {
    assert EntryOk(defs[n]);
    e := EntryFindings(defs[n], rel, content);
    e' := if Reports(defs[n], content) then [n] else [];
  }

  /** The findings of a file are, one for one and in order, those of the
      entries that report: finding `i` comes from entry `Matching(...)[i]`. */
  lemma {:induction false} FindingsFollowTable(defs: seq<PatternDef>, rel: string, content: string)
    requires WellFormed(defs)
    ensures FollowsTable(FileFindings(defs, rel, content), Matching(defs, content), defs, content)
    decreases |defs|
  {
    if |defs| == 0 {
      EmptyTable(defs, rel, content);
    } else {
      FindingsFollowTable(defs[..|defs| - 1], rel, content);
      FollowsStep(defs, rel, content);
    }
  }

  lemma EmptyTable(defs: seq<PatternDef>, rel: string, content: string)
    requires WellFormed(defs) && |defs| == 0
    ensures FollowsTable(FileFindings(defs, rel, content), Matching(defs, content), defs, content)
  {
    assert FileFindings(defs, rel, content) == [];
    assert Matching(defs, content) == [];
  }

  /** If the findings of all entries but the last follow the table, so do
      those of all of them. */
  lemma FollowsStep(defs: seq<PatternDef>, rel: string, content: string)
    requires WellFormed(defs) && |defs| > 0
    requires FollowsTable(FileFindings(defs[..|defs| - 1], rel, content), Matching(defs[..|defs| - 1], content), defs[..|defs| - 1], content)
    ensures FollowsTable(FileFindings(defs, rel, content), Matching(defs, content), defs, content)
  {
    var n := |defs| - 1;
    var init := defs[..n];
    var r', ks' := FileFindings(init, rel, content), Matching(init, content);
    FollowsLongerTable(r', ks', defs, n, content);
    var e, e' := EntryFollows(defs, n, rel, content);
    FollowsAppend(r', ks', e, e', defs, content);
    TableStep(defs, rel, content);
  }

  /** One more entry appends its finding and its position. */
  lemma TableStep(defs: seq<PatternDef>, rel: string, content: string)
    requires WellFormed(defs) && |defs| > 0
    ensures EntryOk(defs[|defs| - 1])
    ensures FileFindings(defs, rel, content)
      == FileFindings(defs[..|defs| - 1], rel, content) + EntryFindings(defs[|defs| - 1], rel, content)
    ensures Matching(defs, content)
      == Matching(defs[..|defs| - 1], content) + (if Reports(defs[|defs| - 1], content) then [|defs| - 1] else [])
  {
    assert EntryOk(defs[|defs| - 1]);
  }

  /** With distinct entry names, a file has at most one finding per
      pattern. */
  lemma OnePerPattern(defs: seq<PatternDef>, rel: string, content: string)
    requires WellFormed(defs) && NamesDistinct(defs)
    ensures var r := FileFindings(defs, rel, content);
      forall i, j :: 0 <= i < j < |r| ==> r[i].pattern != r[j].pattern
  {
    FindingsFollowTable(defs, rel, content);
  }

  /** Conversely, every entry that reports yields a finding. */
  lemma ReportingEntriesFound(defs: seq<PatternDef>, rel: string, content: string, k: nat)
    requires WellFormed(defs) && k < |defs| && Reports(defs[k], content)
    ensures exists i :: 0 <= i < |FileFindings(defs, rel, content)| && FromEntry(FileFindings(defs, rel, content)[i], defs[k], content)
  {
    FindingsFollowTable(defs, rel, content);
    var ks := Matching(defs, content);
    var i :| 0 <= i < |ks| && ks[i] == k;
  }

  // ----- deduplication ----------------------------------------------------------

  type Key = (string, string)

  function KeyOf(f: JsFinding): Key {
    (f.pattern, f.file)
  }

  // ----- summary -----------------------------------------------------------------

  function CountSeverity(fs: seq<JsFinding>, sev: Severity): (n: nat)
    ensures n <= |fs|
    decreases |fs|
  {
    if |fs| == 0 then 0 else (if fs[0].severity == sev then 1 else 0) + CountSeverity(fs[1..], sev)
  }

  lemma {:induction false} SeveritiesCover(fs: seq<JsFinding>)
    ensures CountSeverity(fs, High) + CountSeverity(fs, Medium) + CountSeverity(fs, Low) == |fs|
    decreases |fs|
  {
    if |fs| > 0 {
      SeveritiesCover(fs[1..]);
    }
  }

  function CountPattern(fs: seq<JsFinding>, name: string): (n: nat)
    ensures n <= |fs|
    decreases |fs|
  {
    if |fs| == 0 then 0 else (if fs[0].pattern == name then 1 else 0) + CountPattern(fs[1..], name)
  }

  /** The positions of the findings of one severity: what
      `len([f for f in unique_findings if f.severity == ...])` counts. */
  function WithSeverity(fs: seq<JsFinding>, sev: Severity): set<nat> {
    set i: nat | i < |fs| && fs[i].severity == sev
  }

  /** The positions of the findings of one pattern. */
  function WithPattern(fs: seq<JsFinding>, name: string): set<nat> {
    set i: nat | i < |fs| && fs[i].pattern == name
  }

  lemma {:induction false} CountSeveritySnoc(fs: seq<JsFinding>, f: JsFinding, sev: Severity)
    ensures CountSeverity(fs + [f], sev) == CountSeverity(fs, sev) + (if f.severity == sev then 1 else 0)
    decreases |fs|
  {
    if |fs| > 0 {
      assert (fs + [f])[1..] == fs[1..] + [f];
      CountSeveritySnoc(fs[1..], f, sev);
    } else {
      assert fs + [f] == [f];
    }
  }

  /** Each severity count is the number of findings of that severity. */
  lemma {:induction false} CountSeverityIsCard(fs: seq<JsFinding>, sev: Severity)
    ensures CountSeverity(fs, sev) == |WithSeverity(fs, sev)|
    decreases |fs|
  {
    if |fs| > 0 {
      var n := |fs| - 1;
      CountSeverityIsCard(fs[..n], sev);
      CountSeveritySnoc(fs[..n], fs[n], sev);
      assert fs[..n] + [fs[n]] == fs;
      var a := WithSeverity(fs[..n], sev);
      assert forall i: nat :: i in a <==> i < n && fs[i].severity == sev;
      Firsts.CardStep(a, WithSeverity(fs, sev), n, fs[n].severity == sev);
    }
  }

  /** Each pattern count is the number of findings of that pattern. */
  lemma {:induction false} CountPatternIsCard(fs: seq<JsFinding>, name: string)
    ensures CountPattern(fs, name) == |WithPattern(fs, name)|
    decreases |fs|
  {
    if |fs| > 0 {
      var n := |fs| - 1;
      CountPatternIsCard(fs[..n], name);
      CountPatternSnoc(fs[..n], fs[n], name);
      assert fs[..n] + [fs[n]] == fs;
      var a := WithPattern(fs[..n], name);
      assert forall i: nat :: i in a <==> i < n && fs[i].pattern == name;
      Firsts.CardStep(a, WithPattern(fs, name), n, fs[n].pattern == name);
    }
  }

  /** `by_pattern`: a dictionary in insertion order, as a list of
      (pattern, count) pairs. */
  type Tally = seq<(string, nat)>

  function Names(t: Tally): (ns: seq<string>)
    ensures |ns| == |t| && forall i :: 0 <= i < |t| ==> ns[i] == t[i].0
  {
    seq(|t|, i requires 0 <= i < |t| => t[i].0)
  }

  function Total(t: Tally): nat
    decreases |t|
  {
    if |t| == 0 then 0 else t[0].1 + Total(t[1..])
  }

  /** `d[k] = d.get(k, 0) + 1`: bump an existing entry in place, or append a
      new one. */
  function Bump(t: Tally, name: string): (r: Tally)
    ensures Names(r) == if name in Names(t) then Names(t) else Names(t) + [name]
    ensures Total(r) == Total(t) + 1
    decreases |t|
  {
    if |t| == 0 then [(name, 1)]
    else
      NamesCons(t[0], t[1..]);
      assert [t[0]] + t[1..] == t;
      if t[0].0 == name then
        NamesCons((name, t[0].1 + 1), t[1..]);
        [(name, t[0].1 + 1)] + t[1..]
      else
        var rest := Bump(t[1..], name);
        NamesCons(t[0], rest);
        [t[0]] + rest
  }

  lemma NamesCons(x: (string, nat), t: Tally)
    ensures Names([x] + t) == [x.0] + Names(t)
  {
  }

  function ByPattern(fs: seq<JsFinding>): (t: Tally)
    ensures Total(t) == |fs|
    decreases |fs|
  {
    if |fs| == 0 then [] else Bump(ByPattern(fs[..|fs| - 1]), fs[|fs| - 1].pattern)
  }

  predicate Distinct(ns: seq<string>) {
    forall i, j :: 0 <= i < j < |ns| ==> ns[i] != ns[j]
  }

  /** The pattern of every finding, in order. */
  function PatternsOf(fs: seq<JsFinding>): (ps: seq<string>)
    ensures |ps| == |fs| && forall i :: 0 <= i < |fs| ==> ps[i] == fs[i].pattern
  {
    seq(|fs|, i requires 0 <= i < |fs| => fs[i].pattern)
  }

  /** The tally's keys: each pattern of the findings once, and nothing
      else. */
  lemma {:induction false} ByPatternKeys(fs: seq<JsFinding>)
    ensures Distinct(Names(ByPattern(fs)))
    ensures forall n :: n in Names(ByPattern(fs)) <==> n in PatternsOf(fs)
    decreases |fs|
  {
    if |fs| > 0 {
      var init := fs[..|fs| - 1];
      ByPatternKeys(init);
      assert PatternsOf(fs) == PatternsOf(init) + [fs[|fs| - 1].pattern];
    }
  }

  /** Each tally entry counts the findings with that pattern. */
  lemma {:induction false} BumpCounts(t: Tally, name: string, n: string)
    ensures CountIn(Bump(t, name), n) == CountIn(t, n) + (if n == name then 1 else 0)
    decreases |t|
  {
    if |t| > 0 && t[0].0 != name {
      BumpCounts(t[1..], name, n);
    }
  }

  /** The count the tally holds for `n` (summed, though names are
      distinct). */
  function CountIn(t: Tally, n: string): nat
    decreases |t|
  {
    if |t| == 0 then 0 else (if t[0].0 == n then t[0].1 else 0) + CountIn(t[1..], n)
  }

  lemma {:induction false} ByPatternCounts(fs: seq<JsFinding>, n: string)
    ensures CountIn(ByPattern(fs), n) == CountPattern(fs, n)
    decreases |fs|
  {
    if |fs| > 0 {
      var init, last := fs[..|fs| - 1], fs[|fs| - 1];
      assert init + [last] == fs;
      assert ByPattern(fs) == Bump(ByPattern(init), last.pattern);
      ByPatternCounts(init, n);
      BumpCounts(ByPattern(init), last.pattern, n);
      CountPatternSnoc(init, last, n);
    }
  }

  lemma {:induction false} CountPatternSnoc(fs: seq<JsFinding>, f: JsFinding, n: string)
    ensures CountPattern(fs + [f], n) == CountPattern(fs, n) + (if f.pattern == n then 1 else 0)
    decreases |fs|
  {
    if |fs| > 0 {
      assert (fs + [f])[1..] == fs[1..] + [f];
      CountPatternSnoc(fs[1..], f, n);
    } else {
      assert fs + [f] == [f];
    }
  }

  datatype Summary = Summary(total: nat, high: nat, medium: nat, low: nat, byPattern: Tally)

  datatype ProjectReport = ProjectReport(findings: seq<JsFinding>, summary: Summary, detected: seq<string>)

  function AllFindings(defs: seq<PatternDef>, files: seq<SourceFile>): seq<JsFinding>
    requires WellFormed(defs)
    decreases |files|
  {
    if |files| == 0 then []
    else AnalyzeFile(defs, files[0].rel, files[0].content) + AllFindings(defs, files[1..])
  }

  /** analyze_project over the files the walk yields, in walk order. */
  function AnalyzeProject(defs: seq<PatternDef>, files: seq<SourceFile>): (r: ProjectReport)
    requires WellFormed(defs)
    ensures Firsts.Distinct(r.findings, KeyOf)
    ensures Firsts.Keys(r.findings, KeyOf) == Firsts.Keys(AllFindings(defs, files), KeyOf)
    ensures r.findings == Firsts.Dedup(AllFindings(defs, files), KeyOf)
    ensures r.summary.total == |r.findings|
    ensures r.summary.high == |WithSeverity(r.findings, High)|
    ensures r.summary.medium == |WithSeverity(r.findings, Medium)|
    ensures r.summary.low == |WithSeverity(r.findings, Low)|
    ensures r.summary.high + r.summary.medium + r.summary.low == r.summary.total
    ensures Total(r.summary.byPattern) == r.summary.total
    ensures forall n :: CountIn(r.summary.byPattern, n) == |WithPattern(r.findings, n)|
    ensures r.detected == Names(r.summary.byPattern) && Distinct(r.detected)
    ensures forall n :: n in r.detected <==> exists i :: 0 <= i < |r.findings| && r.findings[i].pattern == n
  {
    var unique := Firsts.Dedup(AllFindings(defs, files), KeyOf);
    var byPattern := ByPattern(unique);
    SeveritiesCover(unique);
    ByPatternKeys(unique);
    CountSeverityIsCard(unique, High);
    CountSeverityIsCard(unique, Medium);
    CountSeverityIsCard(unique, Low);
    forall n
      ensures CountIn(byPattern, n) == |WithPattern(unique, n)|
    {
      ByPatternCounts(unique, n);
      CountPatternIsCard(unique, n);
    }
    forall n
      ensures n in Names(byPattern) <==> exists i :: 0 <= i < |unique| && unique[i].pattern == n
    {
      if n in PatternsOf(unique) {
        var i :| 0 <= i < |unique| && PatternsOf(unique)[i] == n;
      }
      if exists i :: 0 <= i < |unique| && unique[i].pattern == n {
        var i :| 0 <= i < |unique| && unique[i].pattern == n;
        assert PatternsOf(unique)[i] == n;
      }
    }
    ProjectReport(unique,
      Summary(|unique|, CountSeverity(unique, High), CountSeverity(unique, Medium), CountSeverity(unique, Low), byPattern),
      Names(byPattern))
  }
}
