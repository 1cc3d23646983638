/**
 The whole `.astro` pass of optimize_file (hero `fetchpriority`, lazy
 loading, async decoding, in that order) is not idempotent, unlike each
 `<img` attribute rewriter on its own: a hero `id` whose value has no
 closing quote is not a hero match, but the quote that async decoding
 inserts closes it, so a second pass adds `fetchpriority`.
 */
module AstroPass {
  import opened Text
  import opened Matchers
  import opened Rewriters
  import opened Optimizer
  import Idempotence

  /** An `<img` tag with an unclosed hero `id`. */
  const Before: string := "<img id='hero x>"

  /** The same tag after the first pass. */
  const After: string := "<img id='hero x decoding=\"async\">"

  /** A hero finder matches nowhere in a text with at most one quote. */
  lemma OneQuoteNoHeroAnywhere(rule: Rule, s: string)
    requires rule.FetchPriorityImg? || rule.FetchPriorityImage?
    requires AtMostOneQuote(s)
    ensures Apply(rule, s) == Rewrite(s, [])
  {
    var m := Find(FinderOf(rule));
    forall p | 0 <= p < |s|
      ensures m(s[p..]).None?
    {
      assert AtMostOneQuote(s[p..]) by {
        forall i, j | 0 <= i < j < |s[p..]| && s[p..][i] in Quotes
          ensures s[p..][j] !in Quotes
        {
          assert s[p..][i] == s[p + i] && s[p..][j] == s[p + j];
        }
      }
      OneQuoteNoHero(FinderOf(rule), s[p..]);
    }
    NoMatchIdentity(m, CallbackOf(rule), Message(rule), s);
  }

  /** A word holds each of its characters. */
  lemma ContainsHoldsChars(s: string, w: string, k: nat)
    requires Contains(s, w) && k < |w|
    ensures w[k] in s
  {
    var i := ContainsHasWitness(s, w);
    assert s[i + k] == s[i..i + |w|][k];
  }

  // ----- the first pass ---------------------------------------------------------

  lemma BeforeQuotes()
    ensures AtMostOneQuote(Before)
  {
    assert forall k :: 0 <= k < |Before| && k != 8 ==> Before[k] !in Quotes;
  }

  lemma BeforeLower()
    ensures Lower(Before) == Before
  {
    assert forall k :: 0 <= k < |Before| ==> LowerChar(Before[k]) == Before[k];
  }

  lemma BeforeShaped()
    ensures |Before| == 16 && Idempotence.ImgShaped(Before)
    ensures Find(ImgTag)(Before) == Some(15)
  {
    assert forall k :: 4 <= k < 15 ==> Before[k] != '>';
    assert Idempotence.ClosedFrom(Before, 4, '>');
    Idempotence.ImgRematch(Before, []);
    assert Before + [] == Before;
  }

  lemma HeroStagesMiss()
    ensures Apply(FetchPriorityImg, Before) == Rewrite(Before, [])
    ensures Apply(FetchPriorityImage, Before) == Rewrite(Before, [])
  {
    BeforeQuotes();
    OneQuoteNoHeroAnywhere(FetchPriorityImg, Before);
    OneQuoteNoHeroAnywhere(FetchPriorityImage, Before);
  }

  /** A scan of a text that the matcher matches whole: the callback's
      verdict on the whole text decides the result. */
  lemma SubWhole(m: Matcher, cb: Hook, msg: string, t: string)
    requires Advances(m) && Grows(cb) && |t| > 0 && m(t) == Some(|t| - 1)
    ensures Sub(m, cb, msg, t) == Rewrite(Replaced(cb, t), if cb(t).Some? then [msg] else [])
  {
    SubOnMatch(m, cb, msg, t);
    assert t[..|t|] == t && t[|t|..] == [];
    assert Sub(m, cb, msg, t[|t|..]) == Rewrite([], []);
  }

  /** The same for a rewriter whose marker is already in the text. */
  lemma ApplyWholeKeeps(rule: Rule, t: string)
    requires |t| > 0 && Find(FinderOf(rule))(t) == Some(|t| - 1)
    requires Marked(rule, t)
    ensures Apply(rule, t) == Rewrite(t, [])
  {
    var cb := CallbackOf(rule);
    SubWhole(Find(FinderOf(rule)), cb, Message(rule), t);
    assert cb(t) == Callback(rule, t);
  }

  /** The same for a rewriter whose marker is missing: its edit is made. */
  lemma ApplyWholeEdits(rule: Rule, t: string, e: string)
    requires |t| > 0 && Find(FinderOf(rule))(t) == Some(|t| - 1)
    requires !Marked(rule, t) && Edit(rule, t) == Some(e)
    ensures Apply(rule, t) == Rewrite(e, [Message(rule)])
  {
    var cb := CallbackOf(rule);
    SubWhole(Find(FinderOf(rule)), cb, Message(rule), t);
    assert cb(t) == Callback(rule, t);
  }

  /** Lazy loading and async decoding scan for `<img` tags. */
  lemma ImgFinder(rule: Rule, t: string)
    requires rule.LazyLoading? || rule.AsyncDecoding?
    ensures Find(FinderOf(rule))(t) == Find(ImgTag)(t)
  {
  }

  lemma BeforeIsHero()
    ensures Marked(LazyLoading, Before)
  {
    BeforeLower();
    assert Before[9..13] == "hero";
    ContainsFromWitness(Before, "hero", 9);
    assert HeroIndicators[0] == "hero";
  }

  /** The lazy-loading rewriter leaves a hero tag alone. */
  lemma LazyStageKeeps()
    ensures Apply(LazyLoading, Before) == Rewrite(Before, [])
  {
    BeforeShaped();
    ImgFinder(LazyLoading, Before);
    BeforeIsHero();
    ApplyWholeKeeps(LazyLoading, Before);
  }

  lemma BeforeNotDecoded()
    ensures !Marked(AsyncDecoding, Before)
  {
    BeforeLower();
    assert 'c' !in Before;
    if Contains(Lower(Before), "decoding=") {
      ContainsHoldsChars(Lower(Before), "decoding=", 2);
    }
  }

  lemma BeforeDecoded()
    ensures Edit(AsyncDecoding, Before) == Some(After)
  {
    assert !EndsWithSlash(Before) by {
      assert Before[14..] != "/>";
    }
    var open := "<img id='hero x";
    assert Before == open + ">" && After == open + " decoding=\"async\">";
    assert Before[..15] == open;
  }

  /** Async decoding writes its attribute, whose quote closes the `id`. */
  lemma AsyncStageEdits()
    ensures Apply(AsyncDecoding, Before) == Rewrite(After, [Message(AsyncDecoding)])
  {
    BeforeShaped();
    ImgFinder(AsyncDecoding, Before);
    BeforeNotDecoded();
    BeforeDecoded();
    ApplyWholeEdits(AsyncDecoding, Before, After);
  }

  // ----- the second pass --------------------------------------------------------

  lemma AfterAngles()
    ensures |After| == 33 && After[32] == '>'
    ensures forall k :: 0 <= k < 32 ==> After[k] != '>'
  {
  }

  lemma AfterId()
    ensures AttrValueStart(After, 5) == Some(8) && After[8] in Quotes
  {
    assert After[5] == 'i' && After[6] == 'd' && After[7] == '=' && After[8] == '\'';
    assert forall k :: 0 <= k < 3 ==> LowerChar(After[5 + k]) == "id="[k];
    IdValueStart(After, 5);
  }

  lemma AfterQuotes()
    ensures FindFrom(After, Quotes, 9) == Some(25)
  {
    assert forall k :: 9 <= k < 25 ==> After[k] !in Quotes;
    FindFromIs(After, Quotes, 9, 25);
  }

  lemma AfterValueIsHero()
    ensures ContainsAny(Lower(After[9..25]), HeroKeywords)
  {
    var x := Lower(After[9..25]);
    assert After[9] == 'h' && After[10] == 'e' && After[11] == 'r' && After[12] == 'o';
    assert x[0] == 'h' && x[1] == 'e' && x[2] == 'r' && x[3] == 'o';
    assert x[0..4] == "hero";
    ContainsFromWitness(x, "hero", 0);
    assert HeroKeywords[0] == "hero";
  }

  lemma AfterIsHero()
    ensures HeroCandidateEnd(After, 5) == Some(32)
  {
    AfterId();
    AfterQuotes();
    AfterValueIsHero();
    AfterAngles();
    FindFromIs(After, {'>'}, 26, 32);
    HeroCandidateFrom(After, 5, 8, 25, 32);
  }

  lemma AfterHeroMatch()
    ensures Find(HeroImg)(After) == Some(32)
  {
    AfterAngles();
    AfterIsHero();
    assert StartsWithCI(After, 0, "<img") by {
      assert After == "<img" + After[4..];
    }
    FindFromIs(After, {'>'}, 4, 32);
    HeroMatchFrom(After, 5, 32);
  }

  lemma AfterNotPrioritized()
    ensures !Marked(FetchPriorityImg, After)
  {
    var h := After[..32];
    assert forall k :: 0 <= k < |h| ==> LowerChar(h[k]) != 'f';
    if Contains(Lower(h), "fetchpriority") {
      ContainsHoldsChars(Lower(h), "fetchpriority", 0);
    }
  }

  /** The hero finder now matches the whole tag, which has no
      `fetchpriority` yet, so a change is logged. */
  lemma SecondPassHero()
    ensures Apply(FetchPriorityImg, After).changes != []
  {
    AfterHeroMatch();
    AfterNotPrioritized();
    ApplyWholeEdits(FetchPriorityImg, After, Edit(FetchPriorityImg, After).value);
  }

  // ----- the whole pass ---------------------------------------------------------

  lemma {:induction false} ChainStep(st: Stage, rules: seq<Rule>, s: string)
    requires Logs(st) && |rules| > 0
    ensures Chain(st, rules, s).text == Chain(st, rules[1..], st(rules[0], s).text).text
    ensures st(rules[0], s).changes != [] ==> Chain(st, rules, s).text != s
  {
  }

  /** The `.astro` rewriters in the order optimize_file runs them. */
  const AstroRules: seq<Rule> := [FetchPriorityImg, FetchPriorityImage, LazyLoading, AsyncDecoding]

  /** A chain whose first three stages keep the text gives what the last
      one gives. */
  lemma {:induction false} ChainLastEdits(st: Stage, s: string)
    requires Logs(st)
    requires st(FetchPriorityImg, s).text == s && st(FetchPriorityImage, s).text == s && st(LazyLoading, s).text == s
    ensures Chain(st, AstroRules, s).text == Chain(st, [AsyncDecoding], s).text
  {
    var rs := AstroRules;
    assert rs[0] == FetchPriorityImg;
    ChainStep(st, rs, s);
    assert rs[1..] == [FetchPriorityImage, LazyLoading, AsyncDecoding] && rs[1..][0] == FetchPriorityImage;
    ChainStep(st, rs[1..], s);
    assert rs[1..][1..] == [LazyLoading, AsyncDecoding] && rs[1..][1..][0] == LazyLoading;
    ChainStep(st, rs[1..][1..], s);
    assert rs[1..][1..][1..] == [AsyncDecoding];
  }

  lemma {:induction false} ChainOne(st: Stage, rule: Rule, s: string)
    requires Logs(st)
    ensures Chain(st, [rule], s).text == st(rule, s).text
  {
    ChainStep(st, [rule], s);
    assert [rule][1..] == [];
  }

  lemma AstroRulesInOrder()
    ensures RulesFor(AstroFile, false) == AstroRules
  {
  }

  /** The first pass turns `Before` into `After`. */
  lemma FirstPass()
    ensures Chain(Rewriting(), AstroRules, Before).text == After
  {
    var st := Rewriting();
    HeroStagesMiss();
    LazyStageKeeps();
    AsyncStageEdits();
    assert st(AsyncDecoding, Before).text == After;
    ChainLastEdits(st, Before);
    ChainOne(st, AsyncDecoding, Before);
  }

  /** A second pass changes `After` again. */
  lemma SecondPass()
    ensures Chain(Rewriting(), AstroRules, After).text != After
  {
    var st := Rewriting();
    SecondPassHero();
    assert st(AstroRules[0], After).changes != [];
    ChainStep(st, AstroRules, After);
  }

  /** The first pass turns `Before` into `After`; a second pass changes
      `After` again. */
  lemma AstroPassNotIdempotent()
    ensures Chain(Rewriting(), RulesFor(AstroFile, false), Before).text == After
    ensures Chain(Rewriting(), RulesFor(AstroFile, false), After).text != After
  {
    AstroRulesInOrder();
    FirstPass();
    SecondPass();
  }
}
