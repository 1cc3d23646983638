/**
 The five text rewriters of apply_optimizations.py. Each is a `re.sub` whose
 callback leaves a matched span alone when it already carries the rule's
 marker, and otherwise inserts an attribute or declaration just before the
 span's closing character and logs one change message.
 */
module Rewriters {
  import opened Text
  import opened Matchers

  datatype Rule =
    | FetchPriorityImg     // hero `<img` pattern of add_fetchpriority_to_hero_images
    | FetchPriorityImage   // hero `<Image` pattern of the same function
    | LazyLoading          // add_loading_lazy_to_images
    | AsyncDecoding        // add_decoding_async_to_images
    | FontDisplaySwap      // add_font_display_swap
    | DeferScript          // add_defer_to_external_scripts

  function FinderOf(rule: Rule): Finder {
    match rule
    case FetchPriorityImg => HeroImg
    case FetchPriorityImage => HeroImage
    case LazyLoading => ImgTag
    case AsyncDecoding => ImgTag
    case FontDisplaySwap => FontFaceBlock
    case DeferScript => ExternalScript
  }

  /** The change message logged for every edited span. */
  function Message(rule: Rule): string {
    match rule
    case FetchPriorityImg => "Added fetchpriority='high' to hero/banner class"
    case FetchPriorityImage => "Added fetchpriority='high' to Astro Image component"
    case LazyLoading => "Added loading='lazy' to img tag"
    case AsyncDecoding => "Added decoding='async' to img tag"
    case FontDisplaySwap => "Added font-display: swap to @font-face"
    case DeferScript => "Added defer to external script tag"
  }

  /** Substrings of a lower-cased `<img` tag that mark it as a hero image,
      which the lazy-loading rewriter leaves alone. */
  const HeroIndicators: seq<string> := ["hero", "banner", "featured", "lcp", "above-fold", "fetchpriority"]

  /** The callback's "already done" test on the matched text. For the hero
      patterns it looks at group 1, the match without its closing `>`. */
  predicate Marked(rule: Rule, tag: string) {
    match rule
    case FetchPriorityImg => |tag| > 0 && Contains(Lower(tag[..|tag| - 1]), "fetchpriority")
    case FetchPriorityImage => |tag| > 0 && Contains(Lower(tag[..|tag| - 1]), "fetchpriority")
    case LazyLoading => Contains(Lower(tag), "loading=") || ContainsAny(Lower(tag), HeroIndicators)
    case AsyncDecoding => Contains(Lower(tag), "decoding=")
    case FontDisplaySwap => Contains(Lower(tag), "font-display")
    case DeferScript => Contains(Lower(tag), "defer") || Contains(Lower(tag), "async")
  }

  predicate EndsWithSlash(tag: string) {
    |tag| >= 2 && tag[|tag| - 2..] == "/>"
  }

  /** How many leading characters of the match an edit keeps: all but the
      closing `/>` of a self-closing tag for the two `<img` attribute
      rewriters, all but the last character otherwise. */
  function Cut(rule: Rule, tag: string): nat
    requires |tag| > 0
  {
    if (rule.LazyLoading? || rule.AsyncDecoding?) && EndsWithSlash(tag) then |tag| - 2 else |tag| - 1
  }

  /** What an edit writes after the kept characters. The hero patterns put
      the attribute between group 1 and group 2, the closing `>`. */
  function Appended(rule: Rule, tag: string): string
    requires |tag| > 0
  {
    match rule
    case FetchPriorityImg => " fetchpriority=\"high\"" + tag[|tag| - 1..]
    case FetchPriorityImage => " fetchpriority=\"high\"" + tag[|tag| - 1..]
    case LazyLoading => if EndsWithSlash(tag) then " loading=\"lazy\" />" else " loading=\"lazy\">"
    case AsyncDecoding => if EndsWithSlash(tag) then " decoding=\"async\" />" else " decoding=\"async\">"
    case FontDisplaySwap => "\n  font-display: swap;\n}"
    case DeferScript => " defer>"
  }

  /** The replacement each callback builds for a span that is not yet
      marked; `None` where the callback returns the span unchanged anyway
      (an `<img` match that ends in neither `/>` nor `>`). */
  function Edit(rule: Rule, tag: string): (r: Option<string>)
    requires |tag| > 0
    ensures r.Some? ==> |r.value| > |tag|
  {
    if (rule.LazyLoading? || rule.AsyncDecoding?) && !EndsWithSlash(tag) && tag[|tag| - 1] != '>' then None
    else Some(tag[..Cut(rule, tag)] + Appended(rule, tag))
  }

  /** Every edit writes the rule's own marker. */
  lemma EditMarks(rule: Rule, tag: string)
    requires |tag| > 0 && Edit(rule, tag).Some?
    ensures Marked(rule, Edit(rule, tag).value)
  {
    match rule
    case FetchPriorityImg | FetchPriorityImage => HeroEditMarks(rule, tag);
    case LazyLoading => AttrEditMarks(rule, tag, "loading=");
    case AsyncDecoding => AttrEditMarks(rule, tag, "decoding=");
    case FontDisplaySwap => FontEditMarks(tag);
    case DeferScript => DeferEditMarks(tag);
  }

  lemma HeroEditMarks(rule: Rule, tag: string)
    requires rule.FetchPriorityImg? || rule.FetchPriorityImage?
    requires |tag| > 0
    ensures var r := Edit(rule, tag).value; Contains(Lower(r[..|r| - 1]), "fetchpriority")
  {
    var r := Edit(rule, tag).value;
    var a := tag[..|tag| - 1];
    assert " fetchpriority=\"high\""[1..14] == "fetchpriority";
    FoundInserted(a, " fetchpriority=\"high\"", "fetchpriority", 1);
    assert r[..|r| - 1] == a + " fetchpriority=\"high\"";
  }

  lemma AttrEditMarks(rule: Rule, tag: string, w: string)
    requires (rule.LazyLoading? && w == "loading=") || (rule.AsyncDecoding? && w == "decoding=")
    requires |tag| > 0 && Edit(rule, tag).Some?
    ensures Contains(Lower(Edit(rule, tag).value), w)
  {
    var lit := Appended(rule, tag);
    assert lit[1..1 + |w|] == w;
    FoundInserted(tag[..Cut(rule, tag)], lit, w, 1);
  }

  lemma FontEditMarks(tag: string)
    requires |tag| > 0
    ensures Contains(Lower(Edit(FontDisplaySwap, tag).value), "font-display")
  {
    var lit := "\n  font-display: swap;\n}";
    assert lit[3..15] == "font-display";
    FoundInserted(tag[..|tag| - 1], lit, "font-display", 3);
  }

  lemma DeferEditMarks(tag: string)
    requires |tag| > 0
    ensures Contains(Lower(Edit(DeferScript, tag).value), "defer")
  {
    assert " defer>" == " " + "defer" + ">";
    LiteralAt(" ", "defer", ">");
    FoundInserted(tag[..|tag| - 1], " defer>", "defer", 1);
  }

  /** The `re.sub` callback of each rewriter: `None` when it returns the
      match unchanged (and logs nothing), the replacement otherwise. A
      replacement carries the marker, so the callback never edits its own
      output again. */
  function Callback(rule: Rule, tag: string): (r: Option<string>)
    requires |tag| > 0
    ensures Marked(rule, tag) ==> r.None?
    ensures !Marked(rule, tag) ==> r == Edit(rule, tag)
    ensures r.Some? ==> |r.value| > |tag| && Marked(rule, r.value)
  {
    if Marked(rule, tag) then None
    else if Edit(rule, tag).Some? then
      EditMarks(rule, tag);
      Edit(rule, tag)
    else None
  }

  /** add_priority: an unmarked hero match gets ` fetchpriority="high"`
      between group 1 and group 2, its closing `>`. */
  lemma HeroCallbackText(rule: Rule, tag: string)
    requires rule.FetchPriorityImg? || rule.FetchPriorityImage?
    requires |tag| > 0 && !Marked(rule, tag)
    ensures Callback(rule, tag) == Some(tag[..|tag| - 1] + " fetchpriority=\"high\"" + [tag[|tag| - 1]])
  {
    var lit := " fetchpriority=\"high\"";
    assert Appended(rule, tag) == lit + [tag[|tag| - 1]];
    assert Edit(rule, tag) == Some(tag[..|tag| - 1] + (lit + [tag[|tag| - 1]]));
    assert tag[..|tag| - 1] + (lit + [tag[|tag| - 1]]) == tag[..|tag| - 1] + lit + [tag[|tag| - 1]];
    assert Callback(rule, tag) == Edit(rule, tag);
  }

  /** add_lazy: an unmarked `<img` tag gets ` loading="lazy"` before its
      closing `/>` or `>`, and is returned as it is when it ends in neither. */
  lemma LazyCallbackText(tag: string)
    requires |tag| > 0 && !Marked(LazyLoading, tag)
    ensures EndsWithSlash(tag) ==> Callback(LazyLoading, tag) == Some(tag[..|tag| - 2] + " loading=\"lazy\" />")
    ensures !EndsWithSlash(tag) && tag[|tag| - 1] == '>' ==>
      Callback(LazyLoading, tag) == Some(tag[..|tag| - 1] + " loading=\"lazy\">")
    ensures !EndsWithSlash(tag) && tag[|tag| - 1] != '>' ==> Callback(LazyLoading, tag) == None
  {
  }

  /** add_decoding: the same with ` decoding="async"`. */
  lemma DecodingCallbackText(tag: string)
    requires |tag| > 0 && !Marked(AsyncDecoding, tag)
    ensures EndsWithSlash(tag) ==> Callback(AsyncDecoding, tag) == Some(tag[..|tag| - 2] + " decoding=\"async\" />")
    ensures !EndsWithSlash(tag) && tag[|tag| - 1] == '>' ==>
      Callback(AsyncDecoding, tag) == Some(tag[..|tag| - 1] + " decoding=\"async\">")
    ensures !EndsWithSlash(tag) && tag[|tag| - 1] != '>' ==> Callback(AsyncDecoding, tag) == None
  {
  }

  /** add_display: an unmarked block loses its closing `}` to
      `\n  font-display: swap;\n}`. */
  lemma FontCallbackText(tag: string)
    requires |tag| > 0 && !Marked(FontDisplaySwap, tag)
    ensures Callback(FontDisplaySwap, tag) == Some(tag[..|tag| - 1] + "\n  font-display: swap;\n}")
  {
  }

  /** add_defer: an unmarked script tag loses its closing `>` to ` defer>`. */
  lemma DeferCallbackText(tag: string)
    requires |tag| > 0 && !Marked(DeferScript, tag)
    ensures Callback(DeferScript, tag) == Some(tag[..|tag| - 1] + " defer>")
  {
  }

  /** A word placed between two texts starts where the first one ends. */
  lemma LiteralAt(pre: string, w: string, post: string)
    ensures StartsAt(pre + w + post, |pre|, w)
  {
    assert (pre + w + post)[|pre|..|pre| + |w|] == w;
  }

  /** A lower-case word spelled out in an inserted literal is found by the
      callback's lower-cased `in` test. */
  lemma FoundInserted(a: string, ins: string, w: string, i: nat)
    requires IsLowerText(w) && StartsAt(ins, i, w)
    ensures Contains(Lower(a + ins), w)
  {
    ContainsFromWitness(ins, w, i);
    ContainsInMiddle(a, ins, [], w);
    assert a + ins + [] == a + ins;
    ContainsLowered(a + ins, w);
  }

  /** A `re.sub` callback as a value: the replacement for a matched span,
      or `None` where it returns the span unchanged and logs nothing. */
  type Hook = string -> Option<string>

  /** Every replacement is longer than the span it replaces. */
  ghost predicate Grows(cb: Hook) {
    forall tag :: cb(tag).Some? ==> |cb(tag).value| > |tag|
  }

  /** Every replacement keeps all but the last two characters of the span. */
  ghost predicate EditsNearEnd(cb: Hook) {
    forall tag :: cb(tag).Some? && |tag| >= 2 ==> tag[..|tag| - 2] <= cb(tag).value
  }

  /** The callback of a rule, in the form the scan calls it. */
  function CallbackOf(rule: Rule): (cb: Hook)
    ensures Grows(cb)
  {
    tag => if |tag| == 0 then None else Callback(rule, tag)
  }

  /** Every edit is made within two characters of the span's end: the hero,
      font and defer edits keep all but the last character, the `<img`
      attribute edits all but a closing `/>`. */
  lemma CallbackEditsNearEnd(rule: Rule)
    ensures EditsNearEnd(CallbackOf(rule))
  {
    var cb := CallbackOf(rule);
    forall tag | cb(tag).Some? && |tag| >= 2
      ensures tag[..|tag| - 2] <= cb(tag).value
    {
      var t := Edit(rule, tag).value;
      assert cb(tag).value == t;
      assert t == tag[..Cut(rule, tag)] + Appended(rule, tag);
      assert tag[..|tag| - 2] <= tag[..Cut(rule, tag)];
    }
  }

  /** The span as the callback returns it. */
  function Replaced(cb: Hook, tag: string): string {
    match cb(tag)
    case None => tag
    case Some(t) => t
  }

  /** What a rule's callback returns: the span itself, or the span cut at
      `Cut` with the rule's text appended. */
  lemma ReplaceCases(rule: Rule, tag: string)
    requires |tag| > 0
    ensures var t := Replaced(CallbackOf(rule), tag);
      t == tag || t == tag[..Cut(rule, tag)] + Appended(rule, tag)
  {
  }

  /** Every rule's callback grows, edits near the end and settles. */
  lemma CallbackWellBehaved(rule: Rule)
    ensures Grows(CallbackOf(rule)) && EditsNearEnd(CallbackOf(rule)) && Settles(CallbackOf(rule))
  {
    CallbackEditsNearEnd(rule);
    CallbackSettles(rule);
  }

  /** A callback that leaves its own results alone. */
  ghost predicate Settles(cb: Hook) {
    forall tag :: cb(Replaced(cb, tag)).None?
  }

  /** The callback leaves its own result alone: a span it returns is not
      edited by a second call. */
  lemma CallbackSettles(rule: Rule)
    ensures Settles(CallbackOf(rule))
  {
    var cb := CallbackOf(rule);
    forall tag
      ensures cb(Replaced(cb, tag)).None?
    {
      if cb(tag).Some? {
        assert Marked(rule, Callback(rule, tag).value);
      }
    }
  }

  datatype Rewrite = Rewrite(text: string, changes: seq<string>)

  /** `re.sub(pattern, callback, s)`: scan left to right; at a match, emit
      the callback's result and resume after the match; elsewhere copy one
      character. A change message is logged for every span the callback
      replaces, in scan order. */
  function Sub(m: Matcher, cb: Hook, msg: string, s: string): (r: Rewrite)
    requires Advances(m) && Grows(cb)
    ensures forall i :: 0 <= i < |r.changes| ==> r.changes[i] == msg
    ensures |r.text| >= |s| + |r.changes|
    ensures r.changes == [] ==> r.text == s
    decreases |s|
  {
    if |s| == 0 then Rewrite([], [])
    else
      match m(s)
      case Some(e) =>
        var rest := Sub(m, cb, msg, s[e + 1..]);
        assert s == s[..e + 1] + s[e + 1..];
        (match cb(s[..e + 1])
         case None => Rewrite(s[..e + 1] + rest.text, rest.changes)
         case Some(t) => Rewrite(t + rest.text, [msg] + rest.changes))
      case None =>
        var rest := Sub(m, cb, msg, s[1..]);
        assert s == [s[0]] + s[1..];
        Rewrite([s[0]] + rest.text, rest.changes)
  }

  /** One rewriter on the whole text. */
  function Apply(rule: Rule, s: string): Rewrite {
    Sub(Find(FinderOf(rule)), CallbackOf(rule), Message(rule), s)
  }

  /** The output of a rewriter, piece by piece: plain characters are copied and
      each matched span is replaced by what the callback returns. */
  function Render(cb: Hook, ps: seq<Piece>): string
    decreases |ps|
  {
    if |ps| == 0 then []
    else
      (match ps[0]
       case Plain(c) => [c]
       case Span(t) => Replaced(cb, t))
      + Render(cb, ps[1..])
  }

  /** How many spans the callback changes. */
  function EditedSpans(cb: Hook, ps: seq<Piece>): nat
    decreases |ps|
  {
    if |ps| == 0 then 0
    else
      (match ps[0]
       case Plain(_) => 0
       case Span(t) => if cb(t).Some? then 1 else 0)
      + EditedSpans(cb, ps[1..])
  }

  /** The two steps of the scan, as equations. */
  lemma SubOnMiss(m: Matcher, cb: Hook, msg: string, y: string)
    requires Advances(m) && Grows(cb) && |y| > 0 && m(y).None?
    ensures Sub(m, cb, msg, y) == Rewrite([y[0]] + Sub(m, cb, msg, y[1..]).text, Sub(m, cb, msg, y[1..]).changes)
  {
  }

  lemma SubOnMatch(m: Matcher, cb: Hook, msg: string, y: string)
    requires Advances(m) && Grows(cb) && |y| > 0 && m(y).Some?
    ensures var e := m(y).value;
      var rest := Sub(m, cb, msg, y[e + 1..]);
      Sub(m, cb, msg, y) == Rewrite(Replaced(cb, y[..e + 1]) + rest.text,
        (if cb(y[..e + 1]).Some? then [msg] else []) + rest.changes)
  {
  }

  /** Locality: the rewritten text is the input with each matched span
      replaced in place and nothing else touched, and there is exactly one
      change message per span the callback changed. */
  lemma {:induction false} SubIsLocal(m: Matcher, cb: Hook, msg: string, s: string)
    requires Advances(m) && Grows(cb)
    ensures Sub(m, cb, msg, s).text == Render(cb, Segment(m, s))
    ensures |Sub(m, cb, msg, s).changes| == EditedSpans(cb, Segment(m, s))
    decreases |s|
  {
    if |s| > 0 {
      var ps := Segment(m, s);
      match m(s)
      case Some(e) =>
        SubOnMatch(m, cb, msg, s);
        assert ps == [Span(s[..e + 1])] + Segment(m, s[e + 1..]);
        SubIsLocal(m, cb, msg, s[e + 1..]);
      case None =>
        SubOnMiss(m, cb, msg, s);
        assert ps == [Plain(s[0])] + Segment(m, s[1..]);
        SubIsLocal(m, cb, msg, s[1..]);
    }
  }

  /** A rule's output written from its edits: each span that is not yet
      marked and that the rule can edit is replaced by the edit, and
      everything else is copied. */
  function RuleRender(rule: Rule, ps: seq<Piece>): string
    decreases |ps|
  {
    if |ps| == 0 then []
    else
      (match ps[0]
       case Plain(c) => [c]
       case Span(t) => if |t| > 0 && !Marked(rule, t) && Edit(rule, t).Some? then Edit(rule, t).value else t)
      + RuleRender(rule, ps[1..])
  }

  /** How many spans a rule edits: those not yet marked that it can edit. */
  function UnmarkedSpans(rule: Rule, ps: seq<Piece>): nat
    decreases |ps|
  {
    if |ps| == 0 then 0
    else
      (match ps[0]
       case Plain(_) => 0
       case Span(t) => if |t| > 0 && !Marked(rule, t) && Edit(rule, t).Some? then 1 else 0)
      + UnmarkedSpans(rule, ps[1..])
  }

  /** One span, as the scan's callback and as the rule's edit. */
  lemma ReplacedByRule(rule: Rule, t: string)
    ensures Replaced(CallbackOf(rule), t)
      == if |t| > 0 && !Marked(rule, t) && Edit(rule, t).Some? then Edit(rule, t).value else t
    ensures CallbackOf(rule)(t).Some? <==> |t| > 0 && !Marked(rule, t) && Edit(rule, t).Some?
  {
  }

  lemma {:induction false} RenderByRule(rule: Rule, ps: seq<Piece>)
    ensures Render(CallbackOf(rule), ps) == RuleRender(rule, ps)
    ensures EditedSpans(CallbackOf(rule), ps) == UnmarkedSpans(rule, ps)
    decreases |ps|
  {
    if |ps| > 0 {
      RenderByRule(rule, ps[1..]);
      match ps[0]
      case Plain(c) =>
      case Span(t) => ReplacedByRule(rule, t);
    }
  }

  /** A rewriter edits every matched span that is not yet marked, with the
      rule's literal edit, copies everything else, and logs one change per
      edited span. */
  lemma ApplyEditsUnmarked(rule: Rule, s: string)
    ensures var ps := Segment(Find(FinderOf(rule)), s);
      Apply(rule, s).text == RuleRender(rule, ps) && |Apply(rule, s).changes| == UnmarkedSpans(rule, ps)
  {
    SubIsLocal(Find(FinderOf(rule)), CallbackOf(rule), Message(rule), s);
    RenderByRule(rule, Segment(Find(FinderOf(rule)), s));
  }

  /** With no span left to edit, every non-empty span is marked or one the
      rule cannot edit. */
  lemma {:induction false} NoUnmarkedSpans(rule: Rule, ps: seq<Piece>)
    requires UnmarkedSpans(rule, ps) == 0
    ensures forall i :: 0 <= i < |ps| && ps[i].Span? && |ps[i].text| > 0 ==>
      Marked(rule, ps[i].text) || Edit(rule, ps[i].text).None?
    decreases |ps|
  {
    if |ps| > 0 {
      NoUnmarkedSpans(rule, ps[1..]);
      assert forall i :: 1 <= i < |ps| ==> ps[i] == ps[1..][i - 1];
    }
  }

  /** A span the scan meets again whole, whatever follows it. */
  ghost predicate Rematches(m: Matcher, t: string) {
    |t| > 0 && forall rest :: m(t + rest) == Some(|t| - 1)
  }

  /** What a second pass needs where the first one met a match: the span the
      callback returned is met again whole and left alone. */
  ghost predicate EditsRematch(m: Matcher, cb: Hook)
    requires Advances(m)
  {
    forall s :: m(s).Some? ==>
      var t := Replaced(cb, s[..m(s).value + 1]);
      Rematches(m, t) && cb(t).None?
  }

  /** What a second pass needs where the first one copied a character: no
      match starts there in the first pass's output either. */
  ghost predicate MissesStay(m: Matcher, cb: Hook)
    requires Advances(m) && Grows(cb)
  {
    forall s :: |s| > 0 && m(s).None? ==> m([s[0]] + Sub(m, cb, [], s[1..]).text).None?
  }

  /** The text a scan produces does not depend on the message it logs. */
  lemma {:induction false} TextIgnoresMessage(m: Matcher, cb: Hook, msg: string, s: string)
    requires Advances(m) && Grows(cb)
    ensures Sub(m, cb, msg, s).text == Sub(m, cb, [], s).text
    decreases |s|
  {
    if |s| > 0 {
      match m(s)
      case Some(e) =>
        TextIgnoresMessage(m, cb, msg, s[e + 1..]);
        SubOnMatch(m, cb, msg, s);
        SubOnMatch(m, cb, [], s);
      case None =>
        TextIgnoresMessage(m, cb, msg, s[1..]);
        SubOnMiss(m, cb, msg, s);
        SubOnMiss(m, cb, [], s);
    }
  }

  /** A second pass over a span that matches whole and is left alone, then
      over text the second pass leaves alone, changes nothing. */
  lemma SecondPassAtMatch(m: Matcher, cb: Hook, msg: string, t: string, rest: string)
    requires Advances(m) && Grows(cb) && |t| > 0
    requires m(t + rest) == Some(|t| - 1) && cb(t).None?
    requires Sub(m, cb, msg, rest) == Rewrite(rest, [])
    ensures Sub(m, cb, msg, t + rest) == Rewrite(t + rest, [])
  {
    var out := t + rest;
    assert out[..|t|] == t && out[|t|..] == rest;
    SubOnMatch(m, cb, msg, out);
  }

  /** A second pass that finds no match at the head, then leaves the rest
      alone, changes nothing. */
  lemma SecondPassAtMiss(m: Matcher, cb: Hook, msg: string, c: char, rest: string)
    requires Advances(m) && Grows(cb)
    requires m([c] + rest).None?
    requires Sub(m, cb, msg, rest) == Rewrite(rest, [])
    ensures Sub(m, cb, msg, [c] + rest) == Rewrite([c] + rest, [])
  {
    var out := [c] + rest;
    assert out[1..] == rest;
    SubOnMiss(m, cb, msg, out);
  }

  /** A rewriter whose edits rematch and whose misses stay misses is
      idempotent: its second pass returns the text unchanged and logs
      nothing. */
  lemma {:induction false} IdempotentIfStable(m: Matcher, cb: Hook, msg: string, s: string)
    requires Advances(m) && Grows(cb)
    requires EditsRematch(m, cb) && MissesStay(m, cb)
    ensures Sub(m, cb, msg, Sub(m, cb, msg, s).text) == Rewrite(Sub(m, cb, msg, s).text, [])
    decreases |s|
  {
    if |s| > 0 {
      match m(s)
      case Some(e) =>
        IdempotentIfStable(m, cb, msg, s[e + 1..]);
        IdempotentAtMatch(m, cb, msg, s);
      case None =>
        IdempotentIfStable(m, cb, msg, s[1..]);
        IdempotentAtMiss(m, cb, msg, s);
    }
  }

  /** The step of IdempotentIfStable where a match starts at the head. */
  lemma IdempotentAtMatch(m: Matcher, cb: Hook, msg: string, s: string)
    requires Advances(m) && Grows(cb) && EditsRematch(m, cb)
    requires |s| > 0 && m(s).Some?
    requires var y := Sub(m, cb, msg, s[m(s).value + 1..]).text; Sub(m, cb, msg, y) == Rewrite(y, [])
    ensures Sub(m, cb, msg, Sub(m, cb, msg, s).text) == Rewrite(Sub(m, cb, msg, s).text, [])
  {
    var e := m(s).value;
    var rest := Sub(m, cb, msg, s[e + 1..]).text;
    var t := Replaced(cb, s[..e + 1]);
    assert Rematches(m, t) && cb(t).None?;
    assert m(t + rest) == Some(|t| - 1);
    SubOnMatch(m, cb, msg, s);
    SecondPassAtMatch(m, cb, msg, t, rest);
  }

  /** The step of IdempotentIfStable where no match starts at the head. */
  lemma IdempotentAtMiss(m: Matcher, cb: Hook, msg: string, s: string)
    requires Advances(m) && Grows(cb) && MissesStay(m, cb)
    requires |s| > 0 && m(s).None?
    requires var y := Sub(m, cb, msg, s[1..]).text; Sub(m, cb, msg, y) == Rewrite(y, [])
    ensures Sub(m, cb, msg, Sub(m, cb, msg, s).text) == Rewrite(Sub(m, cb, msg, s).text, [])
  {
    var rest := Sub(m, cb, msg, s[1..]).text;
    SubOnMiss(m, cb, msg, s);
    TextIgnoresMessage(m, cb, msg, s[1..]);
    assert m([s[0]] + rest).None?;
    SecondPassAtMiss(m, cb, msg, s[0], rest);
  }

  /** Where no match starts, a rewriter returns its input unchanged. */
  lemma {:induction false} NoMatchIdentity(m: Matcher, cb: Hook, msg: string, y: string)
    requires Advances(m) && Grows(cb)
    requires forall p :: 0 <= p < |y| ==> m(y[p..]).None?
    ensures Sub(m, cb, msg, y) == Rewrite(y, [])
    decreases |y|
  {
    if |y| > 0 {
      assert y[0..] == y;
      forall p | 0 <= p < |y| - 1
        ensures m(y[1..][p..]).None?
      {
        assert y[1..][p..] == y[p + 1..];
      }
      NoMatchIdentity(m, cb, msg, y[1..]);
      SubOnMiss(m, cb, msg, y);
    }
  }

  /** When a match starts at the head, the output begins with the callback's
      result, which keeps all but the last two characters of the match. */
  lemma HeadKeptAtMatch(m: Matcher, cb: Hook, msg: string, y: string)
    requires Advances(m) && Grows(cb) && EditsNearEnd(cb) && |y| > 0 && m(y).Some?
    ensures forall k :: 0 <= k && k + 1 < m(y).value ==> Sub(m, cb, msg, y).text[k] == y[k]
  {
    var e := m(y).value;
    var tag := y[..e + 1];
    var t := Replaced(cb, tag);
    var out := Sub(m, cb, msg, y).text;
    SubOnMatch(m, cb, msg, y);
    assert out[..|t|] == t;
    if e >= 1 {
      assert tag[..e - 1] <= t;
      assert forall k :: 0 <= k && k + 1 < e ==> out[k] == t[k] == tag[k];
    }
  }

  /** A rewriter whose matches are all longer than `keep + 1` characters
      leaves the first `n + keep` characters alone when no match starts in the
      first `n` positions. */
  lemma {:induction false} SubKeepsHead(m: Matcher, cb: Hook, msg: string, y: string, n: nat, keep: nat)
    requires Advances(m) && Grows(cb) && EditsNearEnd(cb)
    requires forall z :: m(z).Some? ==> keep < m(z).value
    requires forall p :: 0 <= p < n && p < |y| ==> m(y[p..]).None?
    ensures forall k :: 0 <= k < n + keep && k < |y| ==> Sub(m, cb, msg, y).text[k] == y[k]
    decreases |y|
  {
    if |y| > 0 {
      var out := Sub(m, cb, msg, y).text;
      if n == 0 && m(y).Some? {
        HeadKeptAtMatch(m, cb, msg, y);
      } else {
        if n > 0 {
          assert y[0..] == y;
        }
        var n' := if n > 0 then n - 1 else 0;
        forall p | 0 <= p < n' && p < |y| - 1
          ensures m(y[1..][p..]).None?
        {
          assert y[1..][p..] == y[p + 1..];
        }
        SubKeepsHead(m, cb, msg, y[1..], n', keep);
        var rest := Sub(m, cb, msg, y[1..]).text;
        SubOnMiss(m, cb, msg, y);
        ConsKeeps(y, rest, n + keep);
      }
    }
  }

  /** Putting back the head character in front of a text that keeps the
      rest of `y` keeps `y`. */
  lemma ConsKeeps(y: string, rest: string, len: nat)
    requires |y| > 0 && |rest| >= |y| - 1
    requires forall k :: 0 <= k && k + 1 < len && k < |y| - 1 ==> rest[k] == y[1..][k]
    ensures forall k :: 0 <= k < len && k < |y| ==> ([y[0]] + rest)[k] == y[k]
  {
    forall k | 0 <= k < len && k < |y|
      ensures ([y[0]] + rest)[k] == y[k]
    {
      if k > 0 {
        assert ([y[0]] + rest)[k] == rest[k - 1] == y[1..][k - 1];
      }
    }
  }

  /** No match starts after the head of `s`. */
  ghost predicate NoMatchAfter(m: Matcher, s: string)
    requires |s| > 0
  {
    forall p :: 0 <= p < |s| - 1 ==> m(s[1..][p..]).None?
  }

  /** `out` agrees with `y` on its first `len` characters (as far as `y`
      goes). */
  predicate KeepsHead(out: string, y: string, len: nat) {
    |out| >= |y| && forall k :: 0 <= k < len && k < |y| ==> out[k] == y[k]
  }

  /** A miss at the head of `s` that the first `n + keep` characters after
      the head decide: no match starts in the first `n` positions after the
      head, and any text that keeps those characters still misses. */
  ghost predicate MissDecided(m: Matcher, s: string, n: nat, keep: nat)
    requires |s| > 0
  {
    (forall p :: 0 <= p < n && p < |s| - 1 ==> m(s[1..][p..]).None?)
    && (forall out :: KeepsHead(out, s[1..], n + keep) ==> m([s[0]] + out).None?)
  }

  /** Misses stay misses when every miss is either followed by no match at
      all, or decided by characters the first pass keeps. */
  lemma MissesStayFrom(m: Matcher, cb: Hook, keep: nat)
    requires Advances(m) && Grows(cb) && EditsNearEnd(cb)
    requires forall z :: m(z).Some? ==> keep < m(z).value
    requires forall s :: |s| > 0 && m(s).None? ==>
      NoMatchAfter(m, s) || exists n: nat :: MissDecided(m, s, n, keep)
    ensures MissesStay(m, cb)
  {
    forall s | |s| > 0 && m(s).None?
      ensures m([s[0]] + Sub(m, cb, [], s[1..]).text).None?
    {
      var y := s[1..];
      if NoMatchAfter(m, s) {
        NoMatchIdentity(m, cb, [], y);
        assert [s[0]] + y == s;
      } else {
        var n: nat :| MissDecided(m, s, n, keep);
        SubKeepsHead(m, cb, [], y, n, keep);
      }
    }
  }

  /** Edits rematch when every match has a shape the callback keeps and
      every span of that shape is met again whole. */
  lemma EditsRematchFrom(m: Matcher, cb: Hook, shaped: string -> bool)
    requires Advances(m) && Settles(cb)
    requires forall s :: m(s).Some? ==> shaped(s[..m(s).value + 1])
    requires forall t :: shaped(t) ==> shaped(Replaced(cb, t))
    requires forall t :: shaped(t) ==> Rematches(m, t)
    ensures EditsRematch(m, cb)
  {
  }

  /** A text too short to hold a match after its head. */
  lemma ShortMisses(m: Matcher, len: nat, s: string)
    requires forall z :: m(z).Some? ==> len <= m(z).value < |z|
    requires 0 < |s| <= len + 1
    ensures NoMatchAfter(m, s)
  {
    forall p | 0 <= p < |s| - 1
      ensures m(s[1..][p..]).None?
    {
      assert |s[1..][p..]| <= len;
    }
  }
}
