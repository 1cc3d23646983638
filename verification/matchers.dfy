// The span finders behind the rewriters and the analyzers. Each finder decides
// whether a match of one of the scripts' regular expressions starts at the head
// of a string and, if so, where it ends. They are not a regular-expression
// engine: each one states the outcome of Python's backtracking search for its
// own pattern.
//
//   ImgTag          `<img[^>]*/?>` and `<img[^>]*>` (IGNORECASE): `<img` up to
//                   the first `>`.
//   FontFaceBlock   `@font-face\s*\{[^}]*\}` (IGNORECASE): `@font-face`,
//                   whitespace, `{`, up to the first `}`.
//   HeroImg/Image   `(<img[^>]*(?:class|id)=["'][^"']*(?:hero|...)[^"']*["'][^>]*)(/?>)`
//                   and its `<Image` twin (IGNORECASE).
//   ExternalScript  `<script[^>]*src=["']https?://[^"']+["'][^>]*>` (IGNORECASE).
//
// In the last two the leading `[^>]*` is greedy, so Python settles on the
// rightmost attribute position (before the first `>`) from which the rest of
// the pattern completes; the match then ends at the first `>` after that
// attribute's closing quote. A quoted value may itself contain `>`.
module Matchers {
  import opened Text

  datatype Finder = ImgTag | FontFaceBlock | HeroImg | HeroImage | ExternalScript

  /** The substrings of a class or id value that mark a hero image. */
  const HeroKeywords: seq<string> := ["hero", "banner", "featured", "lcp", "main-image"]

  /** `<img` up to the first `>` after it. */
  function ImgTagEnd(s: string): (r: Option<nat>)
    ensures r.Some? ==> StartsWithCI(s, 0, "<img")
    ensures r.None? ==> !StartsWithCI(s, 0, "<img") || forall k :: 4 <= k < |s| ==> s[k] != '>'
    ensures r.Some? ==> 4 <= r.value < |s| && s[r.value] == '>'
    ensures r.Some? ==> forall k :: 4 <= k < r.value ==> s[k] != '>'
  {
    if StartsWithCI(s, 0, "<img") then FindFrom(s, {'>'}, 4) else None
  }

  /** Position of the `{` that opens an `@font-face` block at the head of `s`. */
  function FontFaceBrace(s: string): (r: Option<nat>)
    ensures r.Some? ==> StartsWithCI(s, 0, "@font-face") && 10 <= r.value < |s| && s[r.value] == '{'
    ensures r.Some? ==> forall k :: 10 <= k < r.value ==> IsSpace(s[k])
  {
    if StartsWithCI(s, 0, "@font-face") then
      var k := SkipSpace(s, 10);
      if k < |s| && s[k] == '{' then Some(k) else None
    else None
  }

  /** `@font-face`, optional whitespace, `{`, then up to the first `}`. */
  function FontFaceEnd(s: string): (r: Option<nat>)
    ensures r.Some? ==> FontFaceBrace(s).Some? && FontFaceBrace(s).value < r.value < |s|
    ensures r.Some? ==> s[r.value] == '}' && forall k :: FontFaceBrace(s).value < k < r.value ==> s[k] != '}'
    ensures r.None? ==> FontFaceBrace(s).None? || forall k :: FontFaceBrace(s).value < k < |s| ==> s[k] != '}'
  {
    match FontFaceBrace(s)
    case None => None
    case Some(b) => FindFrom(s, {'}'}, b + 1)
  }

  /** Offset of the opening quote of a `class=` or `id=` attribute at `a`. */
  function AttrValueStart(s: string, a: nat): Option<nat> {
    if StartsWithCI(s, a, "class=") then Some(a + 6)
    else if StartsWithCI(s, a, "id=") then Some(a + 3)
    else None
  }

  /** An `id=` attribute's value starts right after it. */
  lemma IdValueStart(s: string, a: nat)
    requires StartsWithCI(s, a, "id=")
    ensures AttrValueStart(s, a) == Some(a + 3)
  {
    assert LowerChar(s[a + 0]) == "id="[0] && "class="[0] == 'c';
    assert !StartsWithCI(s, a, "class=");
  }

  /** The end of the hero pattern when its `(?:class|id)=` part is placed at
      `a`: the quoted value (up to the next quote of either kind) must contain
      a hero keyword, and the match closes at the next `>`. */
  function HeroCandidateEnd(s: string, a: nat): (r: Option<nat>)
    ensures r.Some? ==> a < r.value < |s| && s[r.value] == '>'
  {
    match AttrValueStart(s, a)
    case None => None
    case Some(v) =>
      if v < |s| && s[v] in Quotes then
        match FindFrom(s, Quotes, v + 1)
        case None => None
        case Some(q) =>
          if ContainsAny(Lower(s[v + 1..q]), HeroKeywords) then FindFrom(s, {'>'}, q + 1) else None
      else None
  }

  /** The end of the script pattern when its `src=` part is placed at `q`:
      a quote, `http`, an optional `s`, `://`, a non-empty run without quotes,
      a quote, and then the next `>`. */
  function ScriptCandidateEnd(s: string, q: nat): (r: Option<nat>)
    ensures r.Some? ==> q < r.value < |s| && s[r.value] == '>'
  {
    if StartsWithCI(s, q, "src=") && q + 4 < |s| && s[q + 4] in Quotes && StartsWithCI(s, q + 5, "http") then
      var p :=
        if q + 9 < |s| && LowerChar(s[q + 9]) == 's' then (if StartsAt(s, q + 10, "://") then q + 13 else 0)
        else if StartsAt(s, q + 9, "://") then q + 12 else 0;
      if p == 0 then None
      else
        match FindFrom(s, Quotes, p)
        case None => None
        case Some(c) => if c > p then FindFrom(s, {'>'}, c + 1) else None
    else None
  }

  function CandidateEnd(f: Finder, s: string, a: nat): (r: Option<nat>)
    ensures r.Some? ==> a < r.value < |s| && s[r.value] == '>'
  {
    if f == ExternalScript then ScriptCandidateEnd(s, a) else HeroCandidateEnd(s, a)
  }

  /** Greedy `[^>]*` before the attribute: the rightmost position in
      `[lo, hi)` from which the rest of the pattern completes. */
  function Rightmost(completes: nat -> bool, lo: nat, hi: nat): (r: Option<nat>)
    ensures r.Some? ==> lo <= r.value < hi && completes(r.value)
    ensures r.Some? ==> forall b :: r.value < b < hi ==> !completes(b)
    ensures r.None? ==> forall a :: lo <= a < hi ==> !completes(a)
    decreases hi
  {
    if hi <= lo then None
    else if completes(hi - 1) then Some(hi - 1)
    else Rightmost(completes, lo, hi - 1)
  }

  function Opener(f: Finder): string {
    match f
    case ImgTag => "<img"
    case FontFaceBlock => "@font-face"
    case HeroImg => "<img"
    case HeroImage => "<image"
    case ExternalScript => "<script"
  }

  /** The positions from which the rest of an attribute pattern completes. */
  function Completes(f: Finder, s: string): (p: nat -> bool)
    ensures forall a: nat :: p(a) <==> CandidateEnd(f, s, a).Some?
  {
    (a: nat) => CandidateEnd(f, s, a).Some?
  }

  /** The opener, then candidates up to the first `>` after it. */
  function AttrPatternEnd(f: Finder, s: string): (r: Option<nat>)
    requires f.HeroImg? || f.HeroImage? || f.ExternalScript?
    ensures r.Some? ==> StartsWithCI(s, 0, Opener(f)) && |Opener(f)| < r.value < |s| && s[r.value] == '>'
  {
    var n := |Opener(f)|;
    if StartsWithCI(s, 0, Opener(f)) then
      match FindFrom(s, {'>'}, n)
      case None => None
      case Some(g) =>
        match Rightmost(Completes(f, s), n, g)
        case None => None
        case Some(a) => CandidateEnd(f, s, a)
    else None
  }

  /** Where a match of the finder's pattern that starts at the head of `s`
      ends (the index of its last character), if one does. */
  function MatchEnd(f: Finder, s: string): (r: Option<nat>)
    ensures r.Some? ==> StartsWithCI(s, 0, Opener(f)) && |Opener(f)| <= r.value < |s|
    ensures r.Some? ==> s[r.value] == (if f == FontFaceBlock then '}' else '>')
  {
    match f
    case ImgTag => ImgTagEnd(s)
    case FontFaceBlock => FontFaceEnd(s)
    case _ => AttrPatternEnd(f, s)
  }

  /** A matcher tells, for a string, where a match that starts at its head
      ends. The generic scanning below is stated for any matcher that never
      ends a match past the end of its input. */
  type Matcher = string -> Option<nat>

  ghost predicate Advances(m: Matcher) {
    forall s :: m(s).Some? ==> m(s).value < |s|
  }

  /** The matcher of a finder. */
  function Find(f: Finder): (m: Matcher)
    ensures Advances(m)
  {
    s => MatchEnd(f, s)
  }

  /** A string cut into single characters that no match starts at, and
      matched spans. */
  datatype Piece = Plain(c: char) | Span(text: string)

  function Flatten(ps: seq<Piece>): string
    decreases |ps|
  {
    if |ps| == 0 then []
    else (match ps[0] case Plain(c) => [c] case Span(t) => t) + Flatten(ps[1..])
  }

  /** Each piece is what Python's left-to-right search finds at that point:
      no match at a plain character, a match exactly as long as a span. */
  predicate Faithful(m: Matcher, ps: seq<Piece>)
    decreases |ps|
  {
    |ps| == 0 ||
    ((match ps[0]
      case Plain(_) => m(Flatten(ps)).None?
      case Span(t) => |t| > 0 && m(Flatten(ps)) == Some(|t| - 1))
     && Faithful(m, ps[1..]))
  }

  /** The non-overlapping left-to-right matches in `s` (what `re.finditer`
      and `re.sub` visit), with everything between them. */
  function Segment(m: Matcher, s: string): (ps: seq<Piece>)
    requires Advances(m)
    ensures Flatten(ps) == s
    ensures Faithful(m, ps)
    decreases |s|
  {
    if |s| == 0 then []
    else
      match m(s)
      case Some(e) =>
        var ps := [Span(s[..e + 1])] + Segment(m, s[e + 1..]);
        assert ps[1..] == Segment(m, s[e + 1..]);
        assert s == s[..e + 1] + s[e + 1..];
        ps
      case None =>
        var ps := [Plain(s[0])] + Segment(m, s[1..]);
        assert ps[1..] == Segment(m, s[1..]);
        assert s == [s[0]] + s[1..];
        ps
  }

  /** There is only one faithful segmentation of a string. */
  lemma {:induction false} SegmentUnique(m: Matcher, s: string, ps: seq<Piece>)
    requires Advances(m)
    requires Flatten(ps) == s && Faithful(m, ps)
    ensures ps == Segment(m, s)
    decreases |ps|
  {
    if |ps| > 0 {
      match ps[0]
      case Plain(c) =>
        assert s == [c] + Flatten(ps[1..]);
        assert s[1..] == Flatten(ps[1..]);
        SegmentUnique(m, s[1..], ps[1..]);
      case Span(t) =>
        assert s == t + Flatten(ps[1..]);
        assert s[..|t|] == t && s[|t|..] == Flatten(ps[1..]);
        SegmentUnique(m, s[|t|..], ps[1..]);
    }
  }

  /** Each span of a faithful cut is what the finder matches where the span
      begins. */
  lemma {:induction false} SpanIsMatch(m: Matcher, ps: seq<Piece>, i: nat)
    requires Faithful(m, ps) && i < |ps| && ps[i].Span?
    ensures |ps[i].text| > 0 && m(Flatten(ps[i..])) == Some(|ps[i].text| - 1)
    ensures Flatten(ps[i..])[..|ps[i].text|] == ps[i].text
    decreases i
  {
    if i > 0 {
      assert ps[1..][i - 1..] == ps[i..];
      SpanIsMatch(m, ps[1..], i - 1);
    } else {
      assert ps[0..] == ps;
      assert Flatten(ps) == ps[0].text + Flatten(ps[1..]);
    }
  }

  /** A match: its start offset and its text. */
  datatype Occurrence = Occurrence(start: nat, text: string)

  function Collect(ps: seq<Piece>, base: nat): seq<Occurrence>
    decreases |ps|
  {
    if |ps| == 0 then []
    else
      match ps[0]
      case Plain(_) => Collect(ps[1..], base + 1)
      case Span(t) => [Occurrence(base, t)] + Collect(ps[1..], base + |t|)
  }

  /** `re.finditer`: every match, left to right, with where it starts. */
  function Occurrences(m: Matcher, s: string): (os: seq<Occurrence>)
    requires Advances(m)
    ensures forall i :: 0 <= i < |os| ==>
              StartsAt(s, os[i].start, os[i].text) && m(s[os[i].start..]) == Some(|os[i].text| - 1)
  {
    CollectSound(m, Segment(m, s), s, 0);
    Collect(Segment(m, s), 0)
  }

  lemma {:induction false} CollectSound(m: Matcher, ps: seq<Piece>, s: string, base: nat)
    requires Faithful(m, ps) && base <= |s| && s[base..] == Flatten(ps)
    ensures forall i :: 0 <= i < |Collect(ps, base)| ==>
              StartsAt(s, Collect(ps, base)[i].start, Collect(ps, base)[i].text)
              && m(s[Collect(ps, base)[i].start..]) == Some(|Collect(ps, base)[i].text| - 1)
    decreases |ps|
  {
    if |ps| > 0 {
      match ps[0]
      case Plain(c) =>
        assert Flatten(ps) == [c] + Flatten(ps[1..]);
        assert s[base + 1..] == Flatten(ps)[1..];
        CollectSound(m, ps[1..], s, base + 1);
      case Span(t) =>
        assert Flatten(ps) == t + Flatten(ps[1..]);
        assert s[base + |t|..] == Flatten(ps)[|t|..];
        assert s[base..base + |t|] == Flatten(ps)[..|t|];
        CollectSound(m, ps[1..], s, base + |t|);
    }
  }

  // ----- hero matches from their pieces ------------------------------------------

  /** A text with no two quote characters. */
  predicate AtMostOneQuote(s: string) {
    forall i, j :: 0 <= i < j < |s| && s[i] in Quotes ==> s[j] !in Quotes
  }

  /** A hero match needs an opening and a closing quote. */
  lemma OneQuoteNoHero(f: Finder, s: string)
    requires f.HeroImg? || f.HeroImage?
    requires AtMostOneQuote(s)
    ensures MatchEnd(f, s).None?
  {
    forall a: nat
      ensures HeroCandidateEnd(s, a).None?
    {
      NoClosingQuote(s, a);
    }
  }

  lemma NoClosingQuote(s: string, a: nat)
    requires AtMostOneQuote(s)
    ensures HeroCandidateEnd(s, a).None?
  {
    match AttrValueStart(s, a)
    case None =>
    case Some(v) =>
      if v < |s| && s[v] in Quotes {
        assert forall k :: v + 1 <= k < |s| ==> s[k] !in Quotes;
        assert FindFrom(s, Quotes, v + 1).None?;
      }
  }

  /** The hero pattern completes from `a` when its pieces are found. */
  lemma {:induction false} HeroCandidateFrom(s: string, a: nat, v: nat, q: nat, g: nat)
    requires AttrValueStart(s, a) == Some(v) && v < |s| && s[v] in Quotes
    requires FindFrom(s, Quotes, v + 1) == Some(q)
    requires ContainsAny(Lower(s[v + 1..q]), HeroKeywords)
    requires FindFrom(s, {'>'}, q + 1) == Some(g)
    ensures HeroCandidateEnd(s, a) == Some(g)
  {
    match AttrValueStart(s, a)
    case Some(v') =>
      assert v' == v;
      match FindFrom(s, Quotes, v + 1)
      case Some(q') =>
        assert q' == q;
  }

  /** The hero pattern matches at the head when it completes from some
      attribute position before the first `>`; with a single `>` the match
      ends there. */
  lemma {:induction false} HeroMatchFrom(s: string, a: nat, g: nat)
    requires StartsWithCI(s, 0, "<img") && FindFrom(s, {'>'}, 4) == Some(g)
    requires 4 <= a < g && HeroCandidateEnd(s, a).Some?
    requires g == |s| - 1
    ensures MatchEnd(HeroImg, s) == Some(g) && Find(HeroImg)(s) == Some(g)
  {
    var p := Completes(HeroImg, s);
    assert p(a);
    var r := Rightmost(p, 4, g);
    var b := r.value;
    var x := CandidateEnd(HeroImg, s, b);
    assert x.Some? && b < x.value < |s| && s[x.value] == '>';
    assert x.value == g;
    assert AttrPatternEnd(HeroImg, s) == x by {
      assert Opener(HeroImg) == "<img";
      match FindFrom(s, {'>'}, 4)
      case Some(g') =>
        assert g' == g;
        match Rightmost(p, 4, g)
        case Some(b') =>
          assert b' == b;
    }
  }
}
