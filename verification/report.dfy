/**
 What the two finding reports share: severities, the files read, the
 1-based line number of a match (`content[:start].count('\n') + 1`), the
 line that holds it (`content.split('\n')[line - 1]`) and the evidence
 snippet cut from that line.
 */
module Report {
  import opened Text

  datatype Severity = High | Medium | Low

  /** A file an analyzer reads: its path relative to the project and its
      text, `None` when reading it raises. */
  datatype SourceFile = SourceFile(rel: string, content: Option<string>)

  /** Every file of a list can be read. */
  predicate Readable(files: seq<SourceFile>) {
    forall i :: 0 <= i < |files| ==> files[i].content.Some?
  }

  /** The 1-based number of the line on which offset `start` lies. */
  function LineOf(content: string, start: nat): (line: nat)
    requires start <= |content|
    ensures 1 <= line <= |Split(content, '\n')|
  {
    assert content == content[..start] + content[start..];
    CountConcat(content[..start], content[start..], '\n');
    Count(content[..start], '\n') + 1
  }

  /** The text of line `line` (1-based), when there is one. */
  function LineText(content: string, line: nat): (r: string)
    ensures 1 <= line <= |Split(content, '\n')| ==> r == Split(content, '\n')[line - 1]
    ensures line < 1 || line > |Split(content, '\n')| ==> r == []
  {
    var lines := Split(content, '\n');
    if 1 <= line <= |lines| then lines[line - 1] else []
  }

  /** The evidence snippet: the stripped line cut to 100 characters, with
      `...` appended when something was cut. */
  function Evidence(line: string): (e: string)
    ensures |e| <= 103
    ensures |e| == 103 <==> |Strip(line)| > 100
    ensures Take(Strip(line), 100) <= e
    ensures |Strip(line)| <= 100 ==> e == Strip(line)
    ensures |Strip(line)| > 100 ==> e == Strip(line)[..100] + "..."
  {
    var t := Strip(line);
    Take(t, 100) + (if |t| > 100 then "..." else "")
  }

  /** `split` peels off the text before the first newline. */
  lemma SplitStep(s: string, f: nat)
    requires FindFrom(s, {'\n'}, 0) == Some(f)
    ensures Split(s, '\n') == [s[..f]] + Split(s[f + 1..], '\n')
  {
  }

  lemma SplitNone(s: string)
    requires FindFrom(s, {'\n'}, 0).None?
    ensures Split(s, '\n') == [s] && Count(s, '\n') == 0
  {
    CountAbsent(s, '\n');
  }

  /** Newlines before an offset past the first newline: that one, and those
      after it. */
  lemma CountStep(s: string, f: nat, start: nat)
    requires FindFrom(s, {'\n'}, 0) == Some(f) && f < start <= |s|
    ensures Count(s[..start], '\n') == 1 + Count(s[f + 1..][..start - f - 1], '\n')
  {
    var rest := s[f + 1..];
    CutAround(s, f, start);
    assert s[f] == '\n';
    CountConcat(s[..f] + ['\n'], rest[..start - f - 1], '\n');
    CountConcat(s[..f], ['\n'], '\n');
    CountAbsent(s[..f], '\n');
  }

  /** A prefix cut around one of its characters. */
  lemma CutAround(s: string, f: nat, start: nat)
    requires f < start <= |s|
    ensures s[..start] == s[..f] + [s[f]] + s[f + 1..][..start - f - 1]
  {
    assert s[..start] == s[..f] + s[f..start];
    assert s[f..start] == [s[f]] + s[f + 1..start];
  }

  /** No newline before the first one. */
  lemma CountBefore(s: string, start: nat)
    requires start <= |s|
    requires FindFrom(s, {'\n'}, 0).None? || start <= FindFrom(s, {'\n'}, 0).value
    ensures Count(s[..start], '\n') == 0
  {
    CountAbsent(s[..start], '\n');
  }

  /** An occurrence in a suffix is an occurrence in the whole text. */
  lemma StartsAtShift(s: string, d: nat, o: nat, w: string)
    requires d <= |s| && StartsAt(s[d..], o, w)
    ensures StartsAt(s, d + o, w)
  {
    assert s[d + o..d + o + |w|] == s[d..][o..o + |w|];
  }

  /** The line whose number `LineOf` reports is the one that holds the
      offset: it starts at or before `start` and reaches at least to it.
      Returns where that line starts. */
  lemma {:induction false} LineSpansStart(s: string, start: nat) returns (o: nat)
    requires start <= |s|
    ensures var k := Count(s[..start], '\n');
      k < |Split(s, '\n')| && StartsAt(s, o, Split(s, '\n')[k]) && o <= start <= o + |Split(s, '\n')[k]|
    decreases |s|
  {
    match FindFrom(s, {'\n'}, 0)
    case None =>
      o := FirstLineSpans(s, start);
    case Some(f) =>
      if start <= f {
        o := FirstLineSpans(s, start);
      } else {
        var o' := LineSpansStart(s[f + 1..], start - f - 1);
        o := LaterLineSpans(s, f, start, o');
      }
  }

  /** An offset past the first newline: its line is the one found in the
      text after that newline, shifted. */
  lemma LaterLineSpans(s: string, f: nat, start: nat, o': nat) returns (o: nat)
    requires FindFrom(s, {'\n'}, 0) == Some(f) && f < start <= |s|
    requires var rest := s[f + 1..]; var k' := Count(rest[..start - f - 1], '\n');
      k' < |Split(rest, '\n')| && StartsAt(rest, o', Split(rest, '\n')[k'])
      && o' <= start - f - 1 <= o' + |Split(rest, '\n')[k']|
    ensures var k := Count(s[..start], '\n');
      k < |Split(s, '\n')| && StartsAt(s, o, Split(s, '\n')[k]) && o <= start <= o + |Split(s, '\n')[k]|
  {
    var rest := s[f + 1..];
    var k' := Count(rest[..start - f - 1], '\n');
    var w := Split(rest, '\n')[k'];
    SplitStep(s, f);
    CountStep(s, f, start);
    assert Split(s, '\n')[k' + 1] == w;
    StartsAtShift(s, f + 1, o', w);
    o := f + 1 + o';
  }

  /** An offset before the first newline lies on the first line. */
  lemma FirstLineSpans(s: string, start: nat) returns (o: nat)
    requires start <= |s|
    requires FindFrom(s, {'\n'}, 0).None? || start <= FindFrom(s, {'\n'}, 0).value
    ensures Count(s[..start], '\n') == 0 && o == 0
    ensures 0 < |Split(s, '\n')| && StartsAt(s, 0, Split(s, '\n')[0]) && start <= |Split(s, '\n')[0]|
  {
    CountBefore(s, start);
    o := 0;
    match FindFrom(s, {'\n'}, 0)
    case None =>
      SplitNone(s);
      assert StartsAt(s, 0, s);
    case Some(f) =>
      SplitStep(s, f);
      assert StartsAt(s, 0, s[..f]);
  }

  /** A prefix of an occurring word occurs. */
  lemma ContainsPrefix(s: string, t: string, n: nat)
    requires Contains(s, t) && n <= |t|
    ensures Contains(s, t[..n])
  {
    var i := ContainsHasWitness(s, t);
    assert s[i..i + n] == t[..n];
    ContainsFromWitness(s, t[..n], i);
  }

  /** The evidence cut from a line that occurs in a text occurs in it. */
  lemma EvidenceOfLineOccurs(content: string, o: nat, w: string)
    requires StartsAt(content, o, w)
    ensures Contains(content, Take(Strip(w), 100))
  {
    var u := Take(Strip(w), 100);
    ContainsPrefix(w, Strip(w), |u|);
    ContainsInSlice(content, o, o + |w|, u);
  }

  /** The evidence reported for a match occurs in the file, on the line
      that holds the match. */
  lemma EvidenceOccurs(content: string, start: nat)
    requires start <= |content|
    ensures Contains(content, Take(Strip(LineText(content, LineOf(content, start))), 100))
  {
    var k := Count(content[..start], '\n');
    var o := LineSpansStart(content, start);
    assert LineOf(content, start) == k + 1;
    var w := Split(content, '\n')[k];
    assert LineText(content, k + 1) == w;
    EvidenceOfLineOccurs(content, o, w);
  }
}
