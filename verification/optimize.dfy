/**
 optimize_file and optimize_project of apply_optimizations.py: which
 rewriters run on a file (chosen by its suffix, with `defer` gated behind
 `include_risky`), whether the file is backed up and written, and how the
 per-file results are gathered into the project report.

 The file system is not modelled. What a file read, a backup copy and a
 write do is given as an `Env`; the effects the run performs are returned
 as a trace.
 */
module Optimizer {
  import opened Text
  import opened Rewriters

  // ----- suffixes ------------------------------------------------------------

  /** The last path component. */
  function BaseName(path: string): (r: string)
    ensures '/' !in r
    ensures Contains(path, r)
    decreases |path|
  {
    match FindFrom(path, {'/'}, 0)
    case None =>
      ContainsFromWitness(path, path, 0);
      path
    case Some(k) =>
      var r := BaseName(path[k + 1..]);
      ContainsInSlice(path, k + 1, |path|, r);
      r
  }

  /** Last index below `hi` holding `c` (Python's `rfind`). */
  function LastIndexBelow(s: string, c: char, hi: nat): (r: Option<nat>)
    requires hi <= |s|
    ensures r.Some? ==> r.value < hi && s[r.value] == c
    ensures r.Some? ==> forall k :: r.value < k < hi ==> s[k] != c
    ensures r.None? ==> forall k :: 0 <= k < hi ==> s[k] != c
    decreases hi
  {
    if hi == 0 then None
    else if s[hi - 1] == c then Some(hi - 1)
    else LastIndexBelow(s, c, hi - 1)
  }

  /** The last `.` of a name, when it is neither the first nor the last
      character (the rule of `PurePath.suffix`). */
  function LastDot(name: string): (r: Option<nat>)
    ensures r.Some? ==> 0 < r.value < |name| - 1 && name[r.value] == '.'
    ensures r.Some? ==> forall k :: r.value < k < |name| ==> name[k] != '.'
    ensures r.None? ==> forall i :: 0 < i < |name| - 1 && name[i] == '.' ==>
      exists k :: i < k < |name| && name[k] == '.'
  {
    match LastIndexBelow(name, '.', |name|)
    case None => None
    case Some(i) => if 0 < i < |name| - 1 then Some(i) else None
  }

  /** `Path(path).suffix.lower()`: empty when the base name has no inner
      dot, otherwise the lowered end of the base name from its last dot. */
  function Suffix(path: string): (r: string)
    ensures r == [] <==> LastDot(BaseName(path)).None?
    ensures r != [] ==> r[0] == '.' && 2 <= |r| < |BaseName(path)|
    ensures r != [] ==> '.' !in r[1..]
    ensures r != [] ==> r == Lower(BaseName(path))[|BaseName(path)| - |r|..]
  {
    var name := BaseName(path);
    match LastDot(name)
    case None => []
    case Some(i) =>
      assert forall k :: 1 <= k < |name| - i ==> name[i..][k] == name[i + k];
      assert Lower(name[i..]) == Lower(name)[i..];
      Lower(name[i..])
  }

  datatype FileKind = AstroFile | StyleFile | OtherFile

  function KindOf(path: string): FileKind {
    var x := Suffix(path);
    if x == ".astro" then AstroFile
    else if x == ".css" || x == ".scss" then StyleFile
    else OtherFile
  }

  /** A base name with a non-empty stem before `.astro` has suffix `.astro`,
      so the file takes the `.astro` rewriters. */
  lemma AstroNameIsAstro(path: string)
    requires |BaseName(path)| > 6 && BaseName(path)[|BaseName(path)| - 6..] == ".astro"
    ensures Suffix(path) == ".astro"
    ensures KindOf(path) == AstroFile
  {
    var name := BaseName(path);
    var d := |name| - 6;
    var tail := name[d..];
    assert tail == ".astro";
    assert name[d] == '.' by { assert name[d] == tail[0]; }
    forall k | d < k < |name| ensures name[k] != '.' {
      assert name[k] == tail[k - d];
    }
    assert LastDot(name) == Some(d);
    assert Suffix(path) == Lower(tail);
    assert Lower(tail) == ".astro" by {
      assert forall k :: 0 <= k < 6 ==> LowerChar(tail[k]) == tail[k];
    }
  }

  // ----- the rewriting chain -------------------------------------------------

  /** The rewriters optimize_file runs, in order. The two hero patterns of
      add_fetchpriority_to_hero_images come first. */
  function RulesFor(kind: FileKind, includeRisky: bool): (rules: seq<Rule>)
    ensures DeferScript in rules <==> kind == AstroFile && includeRisky
    ensures kind == OtherFile <==> rules == []
  {
    match kind
    case AstroFile =>
      [FetchPriorityImg, FetchPriorityImage, LazyLoading, AsyncDecoding]
      + (if includeRisky then [DeferScript] else [])
    case StyleFile => [FontDisplaySwap]
    case OtherFile => []
  }

  /** A rewriter as a value, so that the chain can be reasoned about from
      what every rewriter guarantees rather than from the patterns. */
  type Stage = (Rule, string) -> Rewrite

  /** What every rewriter guarantees: it only grows the text, by at least one
      character per logged change; it logs its own message only; and it
      leaves the text alone when it logs nothing. */
  predicate LogsOn(st: Stage, rule: Rule, s: string) {
    var r := st(rule, s);
    |r.text| >= |s| + |r.changes| && (r.changes == [] ==> r.text == s)
    && forall i :: 0 <= i < |r.changes| ==> r.changes[i] == Message(rule)
  }

  ghost predicate Logs(st: Stage) {
    forall rule, s :: LogsOn(st, rule, s)
  }

  /** The rewriters of the model. */
  function Rewriting(): (st: Stage)
    ensures Logs(st)
    ensures forall rule, s :: st(rule, s) == Apply(rule, s)
  {
    (rule, s) => Apply(rule, s)
  }

  /** Run the rewriters one after the other, each on the previous one's
      output, concatenating their change lists. */
  function Chain(st: Stage, rules: seq<Rule>, s: string): (r: Rewrite)
    requires Logs(st)
    ensures |r.text| >= |s| + |r.changes|
    ensures r.changes == [] ==> r.text == s
    decreases |rules|
  {
    if |rules| == 0 then Rewrite(s, [])
    else
      var first := st(rules[0], s);
      assert LogsOn(st, rules[0], s);
      var rest := Chain(st, rules[1..], first.text);
      Rewrite(rest.text, first.changes + rest.changes)
  }

  /** Every logged change is the message of one of the rewriters run. */
  lemma {:induction false} ChainMessages(st: Stage, rules: seq<Rule>, s: string)
    requires Logs(st)
    ensures forall i :: 0 <= i < |Chain(st, rules, s).changes| ==>
      exists j :: 0 <= j < |rules| && Chain(st, rules, s).changes[i] == Message(rules[j])
    decreases |rules|
  {
    if |rules| > 0 {
      var first := st(rules[0], s);
      assert LogsOn(st, rules[0], s);
      var rest := Chain(st, rules[1..], first.text);
      ChainMessages(st, rules[1..], first.text);
      ChainStep(st, rules, s);
      var cs := first.changes + rest.changes;
      assert Chain(st, rules, s).changes == cs;
      forall i | 0 <= i < |cs|
        ensures exists j :: 0 <= j < |rules| && cs[i] == Message(rules[j])
      {
        if i < |first.changes| {
          assert cs[i] == Message(rules[0]);
        } else {
          var j :| 0 <= j < |rules[1..]| && rest.changes[i - |first.changes|] == Message(rules[1..][j]);
          assert rules[1..][j] == rules[j + 1];
        }
      }
    } else {
      assert Chain(st, rules, s).changes == [];
    }
  }

  /** The output differs from the input exactly when some change was logged. */
  lemma ChangedIffLogged(st: Stage, rules: seq<Rule>, s: string)
    requires Logs(st)
    ensures Chain(st, rules, s).text != s <==> Chain(st, rules, s).changes != []
  {
  }

  /** One step of the chain, as an equation. */
  lemma ChainStep(st: Stage, rules: seq<Rule>, s: string)
    requires Logs(st) && |rules| > 0
    ensures var first := st(rules[0], s);
      var rest := Chain(st, rules[1..], first.text);
      Chain(st, rules, s) == Rewrite(rest.text, first.changes + rest.changes)
  {
  }

  /** Running more rewriters afterwards only appends to the change list. */
  lemma {:induction false} ChainAppend(st: Stage, rules: seq<Rule>, more: seq<Rule>, s: string)
    requires Logs(st)
    ensures var first := Chain(st, rules, s);
      Chain(st, rules + more, s) == Rewrite(Chain(st, more, first.text).text, first.changes + Chain(st, more, first.text).changes)
    decreases |rules|
  {
    if |rules| > 0 {
      assert (rules + more)[0] == rules[0];
      assert (rules + more)[1..] == rules[1..] + more;
      ChainStep(st, rules, s);
      ChainStep(st, rules + more, s);
      ChainAppend(st, rules[1..], more, st(rules[0], s).text);
    } else {
      assert rules + more == more;
    }
  }

  /** Risk gating is monotonic: the changes of a default run are a prefix of
      the changes of a run with include_risky, and the extra ones all come
      from the `defer` rewriter. */
  lemma RiskyExtendsSafe(st: Stage, kind: FileKind, s: string)
    requires Logs(st)
    ensures var safe := Chain(st, RulesFor(kind, false), s).changes;
      var risky := Chain(st, RulesFor(kind, true), s).changes;
      |safe| <= |risky| && risky[..|safe|] == safe
      && forall i :: |safe| <= i < |risky| ==> risky[i] == Message(DeferScript)
  {
    if kind == AstroFile {
      var base := RulesFor(kind, false);
      assert RulesFor(kind, true) == base + [DeferScript];
      ChainAppend(st, base, [DeferScript], s);
      var mid := Chain(st, base, s).text;
      assert Chain(st, [DeferScript], mid).changes == st(DeferScript, mid).changes;
      assert LogsOn(st, DeferScript, mid);
    }
  }

  /** Messages tell the rewriters apart. */
  lemma MessagesDistinct(a: Rule, b: Rule)
    requires a != b
    ensures Message(a) != Message(b)
  {
  }

  /** Without include_risky no change mentions `defer`. */
  lemma SafeRunNeverDefers(st: Stage, kind: FileKind, s: string)
    requires Logs(st)
    ensures Message(DeferScript) !in Chain(st, RulesFor(kind, false), s).changes
  {
    var rules := RulesFor(kind, false);
    var cs := Chain(st, rules, s).changes;
    ChainMessages(st, rules, s);
    if Message(DeferScript) in cs {
      var i :| 0 <= i < |cs| && cs[i] == Message(DeferScript);
      var j :| 0 <= j < |rules| && cs[i] == Message(rules[j]);
      assert rules[j] != DeferScript;
      MessagesDistinct(rules[j], DeferScript);
      assert false;
    }
  }

  // ----- one file --------------------------------------------------------------

  /** What the file system does when optimize_file touches a file: the text
      read (`None` when reading raises), the backup path (`None` when the
      backup copy raises) and whether the write succeeds. */
  datatype Env = Env(content: Option<string>, backupPath: Option<string>, writeOk: bool)

  datatype Effect = BackedUp(path: string) | Wrote(text: string)

  datatype Failure = ReadFailed | BackupFailed | WriteFailed

  /** The result dictionary of optimize_file, plus the effects performed. */
  datatype FileResult = FileResult(
    changes: seq<string>,
    backup: Option<string>,
    error: Option<Failure>,
    effects: seq<Effect>)

  /** optimize_file: read, rewrite, and when the text changed, back it up
      and write it; any failure is reported instead of the changes. */
  function OptimizeFile(path: string, env: Env, includeRisky: bool): (r: FileResult)
    ensures |r.effects| <= 2
    ensures |r.effects| >= 1 ==> env.backupPath.Some? && r.effects[0] == BackedUp(env.backupPath.value)
    ensures |r.effects| == 2 ==> r.effects[1].Wrote? && env.writeOk
    ensures r.changes != [] <==> |r.effects| == 2
    ensures r.changes != [] ==> r.error == None && r.backup.Some?
    ensures r.error.Some? ==> r.changes == []
    ensures r.backup.Some? <==> |r.effects| >= 1
    ensures env.content.None? <==> r.error == Some(ReadFailed)
    ensures env.content.Some? ==>
      var o := env.content.value;
      var out := Chain(Rewriting(), RulesFor(KindOf(path), includeRisky), o);
      (out.text == o ==> r == FileResult([], None, None, []))
      && (out.text != o ==> |r.effects| >= 1 || r.error == Some(BackupFailed))
      && (|r.effects| >= 1 ==> out.text != o)
      && (r.changes != [] ==> r.changes == out.changes && r.effects[1] == Wrote(out.text))
  {
    match env.content
    case None => FileResult([], None, Some(ReadFailed), [])
    case Some(original) =>
      var rules := RulesFor(KindOf(path), includeRisky);
      var out := Chain(Rewriting(), rules, original);
      if out.text == original then FileResult([], None, None, [])
      else
        match env.backupPath
        case None => FileResult([], None, Some(BackupFailed), [])
        case Some(b) =>
          if !env.writeOk then FileResult([], Some(b), Some(WriteFailed), [BackedUp(b)])
          else
            ChangedIffLogged(Rewriting(), rules, original);
            FileResult(out.changes, Some(b), None, [BackedUp(b), Wrote(out.text)])
  }

  /** When every file operation succeeds, the file is rewritten exactly when
      some rewriter logged a change, and then with the chain's output after
      a backup; the reported changes are the chain's. */
  lemma OptimizeFileSucceeds(path: string, original: string, b: string, includeRisky: bool)
    ensures var out := Chain(Rewriting(), RulesFor(KindOf(path), includeRisky), original);
      var r := OptimizeFile(path, Env(Some(original), Some(b), true), includeRisky);
      r.error == None && r.changes == out.changes
      && (out.changes == [] ==> r.effects == [])
      && (out.changes != [] ==> r.effects == [BackedUp(b), Wrote(out.text)])
  {
    ChangedIffLogged(Rewriting(), RulesFor(KindOf(path), includeRisky), original);
  }

  // ----- the project -----------------------------------------------------------

  datatype Modified = Modified(file: string, changes: seq<string>, backup: Option<string>)
  datatype Errored = Errored(file: string, error: Failure)

  datatype ProjectResult = ProjectResult(
    filesProcessed: seq<string>,
    filesModified: seq<Modified>,
    totalChanges: nat,
    errors: seq<Errored>)

  /** A file handed to optimize_project: its path relative to the project
      root and what the file system does with it. */
  datatype Input = Input(rel: string, env: Env)

  /** Sum of the change counts of the modified entries. */
  function ChangeCount(ms: seq<Modified>): nat
    decreases |ms|
  {
    if |ms| == 0 then 0 else |ms[0].changes| + ChangeCount(ms[1..])
  }

  /** The loop body of optimize_project, folded over the files in order. */
  function Process(files: seq<Input>, includeRisky: bool, acc: ProjectResult): (r: ProjectResult)
    decreases |files|
  {
    if |files| == 0 then acc
    else
      var f := files[0];
      Process(files[1..], includeRisky, Step(acc, f.rel, OptimizeFile(f.rel, f.env, includeRisky)))
  }

  /** optimize_project: the `.astro` files first, then the `.css` and `.scss`
      files, in the order the directory walks return them. */
  function OptimizeProject(astro: seq<Input>, styles: seq<Input>, includeRisky: bool): ProjectResult {
    Process(astro + styles, includeRisky, ProjectResult([], [], 0, []))
  }

  lemma {:induction false} ChangeCountAppend(ms: seq<Modified>, more: seq<Modified>)
    ensures ChangeCount(ms + more) == ChangeCount(ms) + ChangeCount(more)
    decreases |ms|
  {
    if |ms| > 0 {
      assert (ms + more)[1..] == ms[1..] + more;
      ChangeCountAppend(ms[1..], more);
    } else {
      assert ms + more == more;
    }
  }

  /** The relative paths of a list of files, in order. */
  function Rels(files: seq<Input>): (r: seq<string>)
    ensures |r| == |files|
    ensures forall i :: 0 <= i < |files| ==> r[i] == files[i].rel
    decreases |files|
  {
    if |files| == 0 then [] else [files[0].rel] + Rels(files[1..])
  }

  /** The report entries every step of the loop keeps sound: total_changes
      is the sum of the modified entries' change counts, and every modified
      entry has changes and a backup. */
  predicate Sound(acc: ProjectResult) {
    acc.totalChanges == ChangeCount(acc.filesModified)
    && forall i :: 0 <= i < |acc.filesModified| ==>
      acc.filesModified[i].changes != [] && acc.filesModified[i].backup.Some?
  }

  /** One step of the loop, on the result of optimize_file for that file. */
  function Step(acc: ProjectResult, rel: string, res: FileResult): (r: ProjectResult)
    ensures Sound(acc) && (res.changes != [] ==> res.backup.Some?) ==> Sound(r)
  {
    var added := if res.changes != [] then [Modified(rel, res.changes, res.backup)] else [];
    ChangeCountAppend(acc.filesModified, added);
    ProjectResult(
      acc.filesProcessed + [rel],
      acc.filesModified + added,
      acc.totalChanges + |res.changes|,
      acc.errors + (if res.error.Some? then [Errored(rel, res.error.value)] else []))
  }

  /** The project report of a list of files: processed lists every file in
      order; modified and errors gain at most one entry per file, so that
      together they never outnumber the files; total_changes is the sum of
      the modified entries' change counts, and every modified entry has a
      backup. */
  lemma {:induction false} ProcessSound(files: seq<Input>, includeRisky: bool, acc: ProjectResult)
    requires Sound(acc)
    ensures var r := Process(files, includeRisky, acc);
      r.filesProcessed == acc.filesProcessed + Rels(files)
      && Sound(r)
      && |acc.filesModified| <= |r.filesModified| && |acc.errors| <= |r.errors|
      && |r.filesModified| - |acc.filesModified| + |r.errors| - |acc.errors| <= |files|
    decreases |files|
  {
    if |files| > 0 {
      var f := files[0];
      var res := OptimizeFile(f.rel, f.env, includeRisky);
      var acc' := Step(acc, f.rel, res);
      assert Process(files, includeRisky, acc) == Process(files[1..], includeRisky, acc');
      ProcessSound(files[1..], includeRisky, acc');
      assert acc.filesProcessed + Rels(files) == acc'.filesProcessed + Rels(files[1..]);
    }
  }
}
