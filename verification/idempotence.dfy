/**
 Running the `<img` rewriters (lazy loading, async decoding) or the
 `@font-face` rewriter a second time changes nothing: an edited span is
 matched again, whole, and now carries the marker, and no edit creates a
 match in front of it.
 */
module Idempotence {
  import opened Text
  import opened Matchers
  import opened Rewriters

  /** `t` ends with `c` and has no other `c` from index `from` on. */
  predicate ClosedFrom(t: string, from: nat, c: char) {
    from < |t| && t[|t| - 1] == c && forall k :: from <= k < |t| - 1 ==> t[k] != c
  }

  /** Appending a literal that holds `c` only at its end closes the text. */
  lemma AppendClosed(a: string, lit: string, from: nat, c: char)
    requires from <= |a| && forall k :: from <= k < |a| ==> a[k] != c
    requires |lit| > 0 && lit[|lit| - 1] == c && forall j :: 0 <= j < |lit| - 1 ==> lit[j] != c
    ensures ClosedFrom(a + lit, from, c)
  {
    var t := a + lit;
    forall k | from <= k < |t| - 1
      ensures t[k] != c
    {
      if k >= |a| {
        assert t[k] == lit[k - |a|];
      }
    }
  }

  /** Whether a text starts with a word is decided by its first characters:
      if the first pass kept them, the answer is the same as before. */
  lemma HeadDecides(s: string, out: string, w: string)
    requires 0 < |w| <= |s| && |out| >= |s| - 1
    requires forall k :: 0 <= k < |w| - 1 && k < |s| - 1 ==> out[k] == s[1..][k]
    requires !StartsWithCI(s, 0, w)
    ensures !StartsWithCI([s[0]] + out, 0, w)
  {
    var x := [s[0]] + out;
    assert forall k :: 0 <= k < |w| ==> x[k] == s[k];
  }

  /** Every match of a finder is longer than its opener. */
  lemma MatchesAreLong(f: Finder)
    ensures forall z :: Find(f)(z).Some? ==> |Opener(f)| <= Find(f)(z).value < |z|
  {
  }

  // ----- `<img` tags ---------------------------------------------------------

  /** The shape of a matched `<img` tag. */
  predicate ImgShaped(t: string) {
    StartsWithCI(t, 0, "<img") && ClosedFrom(t, 4, '>')
  }

  /** A callback that returns a tag of that shape for every tag of it. */
  ghost predicate KeepsImgShape(cb: Hook) {
    forall t :: ImgShaped(t) ==> ImgShaped(Replaced(cb, t))
  }

  /** A tag of that shape is matched whole, whatever follows it. */
  lemma ImgRematch(t: string, x: string)
    requires ImgShaped(t)
    ensures MatchEnd(ImgTag, t + x) == Some(|t| - 1)
  {
    var s := t + x;
    assert StartsWithCI(s, 0, "<img");
    assert FindFrom(t, {'>'}, 4) == Some(|t| - 1);
    assert t[..|t|] == s[..|t|];
    FindFromAgrees(t, s, {'>'}, 4, |t|);
  }

  /** What the `<img` attribute rewriters append closes the tag once. */
  lemma ImgAppendedCloses(rule: Rule, tag: string)
    requires rule.LazyLoading? || rule.AsyncDecoding?
    requires |tag| > 0
    ensures var lit := Appended(rule, tag);
      |lit| > 0 && lit[|lit| - 1] == '>' && forall j :: 0 <= j < |lit| - 1 ==> lit[j] != '>'
  {
  }

  /** Cutting a shaped tag after its opener and appending text that closes
      it once gives a shaped tag. */
  lemma ImgShapedAfterAppend(tag: string, cut: nat, lit: string)
    requires ImgShaped(tag) && 4 <= cut < |tag|
    requires |lit| > 0 && lit[|lit| - 1] == '>' && forall j :: 0 <= j < |lit| - 1 ==> lit[j] != '>'
    ensures ImgShaped(tag[..cut] + lit)
  {
    var a := tag[..cut];
    AppendClosed(a, lit, 4, '>');
    assert forall k :: 0 <= k < 4 ==> (a + lit)[k] == tag[k];
  }

  /** The lazy-loading and async-decoding callbacks keep the tag's shape. */
  lemma ImgReplaceShaped(rule: Rule, tag: string)
    requires rule.LazyLoading? || rule.AsyncDecoding?
    requires ImgShaped(tag)
    ensures ImgShaped(Replaced(CallbackOf(rule), tag))
  {
    var t := Replaced(CallbackOf(rule), tag);
    ReplaceCases(rule, tag);
    if t != tag {
      ImgCutInside(rule, tag);
      ImgAppendedCloses(rule, tag);
      ImgShapedAfterAppend(tag, Cut(rule, tag), Appended(rule, tag));
    }
  }

  /** A shaped tag is cut after its opener: a closing `/>` cannot overlap
      the `g` of `<img`. */
  lemma ImgCutInside(rule: Rule, tag: string)
    requires ImgShaped(tag)
    ensures 4 <= Cut(rule, tag) < |tag|
  {
    assert "<img"[3] == 'g' && LowerChar(tag[0 + 3]) == "<img"[3];
  }

  /** Every `<img` match is a shaped tag. */
  lemma ImgMatchesShaped()
    ensures forall s :: Find(ImgTag)(s).Some? ==> ImgShaped(s[..Find(ImgTag)(s).value + 1])
  {
    forall s | Find(ImgTag)(s).Some?
      ensures ImgShaped(s[..Find(ImgTag)(s).value + 1])
    {
      ImgMatchShaped(s);
    }
  }

  /** A match is a tag of that shape. */
  lemma ImgMatchShaped(s: string)
    requires Find(ImgTag)(s).Some?
    ensures ImgShaped(s[..Find(ImgTag)(s).value + 1])
  {
    assert Find(ImgTag)(s) == ImgTagEnd(s);
    ImgEndShaped(s);
  }

  lemma ImgEndShaped(s: string)
    requires ImgTagEnd(s).Some?
    ensures ImgShaped(s[..ImgTagEnd(s).value + 1])
  {
    var e := ImgTagEnd(s).value;
    var t := s[..e + 1];
    assert StartsWithCI(t, 0, "<img") by {
      forall k | 0 <= k < 4
        ensures LowerChar(t[k]) == "<img"[k]
      {
        assert t[k] == s[k];
      }
    }
    assert ClosedFrom(t, 4, '>') by {
      forall k | 4 <= k < |t| - 1
        ensures t[k] != '>'
      {
        assert t[k] == s[k];
      }
      assert t[|t| - 1] == s[e];
    }
  }

  /** Every shaped tag is met again whole, whatever follows it. */
  lemma ImgShapedRematches()
    ensures forall t :: ImgShaped(t) ==> Rematches(Find(ImgTag), t)
  {
    forall t | ImgShaped(t)
      ensures Rematches(Find(ImgTag), t)
    {
      forall rest
        ensures Find(ImgTag)(t + rest) == Some(|t| - 1)
      {
        ImgRematch(t, rest);
      }
    }
  }

  lemma ImgCallbackKeepsShape(rule: Rule)
    requires rule.LazyLoading? || rule.AsyncDecoding?
    ensures KeepsImgShape(CallbackOf(rule))
  {
    forall t | ImgShaped(t)
      ensures ImgShaped(Replaced(CallbackOf(rule), t))
    {
      ImgReplaceShaped(rule, t);
    }
  }

  /** An `<img` tag with no `>` after its opener: no match starts after its
      head either. */
  lemma ImgUnclosed(s: string)
    requires |s| > 0 && StartsWithCI(s, 0, "<img") && MatchEnd(ImgTag, s).None?
    ensures NoMatchAfter(Find(ImgTag), s)
  {
    var y := s[1..];
    assert forall k :: 4 <= k < |s| ==> s[k] != '>';
    forall p | 0 <= p < |y|
      ensures MatchEnd(ImgTag, y[p..]).None?
    {
      var z := y[p..];
      if MatchEnd(ImgTag, z).Some? {
        assert false;
      }
    }
  }

  /** A text that does not start with `<img`: its first four characters
      decide the miss. */
  lemma ImgHeadDecided(s: string)
    requires |s| > 4 && !StartsWithCI(s, 0, "<img")
    ensures MissDecided(Find(ImgTag), s, 0, 3)
  {
    forall out | KeepsHead(out, s[1..], 3)
      ensures Find(ImgTag)([s[0]] + out).None?
    {
      ImgHeadKept(s, out);
    }
  }

  lemma ImgHeadKept(s: string, out: string)
    requires |s| > 4 && !StartsWithCI(s, 0, "<img") && KeepsHead(out, s[1..], 3)
    ensures MatchEnd(ImgTag, [s[0]] + out).None?
  {
    HeadDecides(s, out, "<img");
  }

  /** Where no `<img` tag starts, either nothing matches after the head, or
      the first three characters after it decide the miss. */
  lemma ImgMissDecided(s: string)
    requires |s| > 0 && Find(ImgTag)(s).None?
    ensures NoMatchAfter(Find(ImgTag), s) || MissDecided(Find(ImgTag), s, 0, 3)
  {
    if |s| <= 5 {
      MatchesAreLong(ImgTag);
      ShortMisses(Find(ImgTag), 4, s);
    } else if !StartsWithCI(s, 0, "<img") {
      ImgHeadDecided(s);
    } else {
      ImgUnclosed(s);
    }
  }

  lemma ImgEditsRematch(cb: Hook)
    requires Settles(cb)
    requires KeepsImgShape(cb)
    ensures EditsRematch(Find(ImgTag), cb)
  {
    ImgMatchesShaped();
    ImgShapedRematches();
    EditsRematchFrom(Find(ImgTag), cb, t => ImgShaped(t));
  }

  lemma ImgMissesStay(cb: Hook)
    requires Grows(cb) && EditsNearEnd(cb)
    ensures MissesStay(Find(ImgTag), cb)
  {
    MatchesAreLong(ImgTag);
    forall s | |s| > 0 && Find(ImgTag)(s).None?
      ensures NoMatchAfter(Find(ImgTag), s) || exists n: nat :: MissDecided(Find(ImgTag), s, n, 3)
    {
      ImgMissDecided(s);
    }
    MissesStayFrom(Find(ImgTag), cb, 3);
  }

  // ----- `@font-face` blocks ------------------------------------------------

  /** The shape of a matched `@font-face` block whose `{` is at `b`. */
  predicate FontShaped(t: string, b: nat) {
    StartsWithCI(t, 0, "@font-face") && 10 <= b < |t| && t[b] == '{'
    && (forall k :: 10 <= k < b ==> IsSpace(t[k]))
    && ClosedFrom(t, b + 1, '}')
  }

  /** A matched `@font-face` block, with its `{` where the pattern finds it. */
  predicate FontBlockShaped(t: string) {
    FontFaceBrace(t).Some? && FontShaped(t, FontFaceBrace(t).value)
  }

  /** A callback that returns a block of that shape for every block of it. */
  ghost predicate KeepsFontShape(cb: Hook) {
    forall t :: FontBlockShaped(t) ==> FontBlockShaped(Replaced(cb, t))
  }

  /** Whitespace skipping stops at the first non-space. */
  lemma SkipSpaceAt(s: string, from: nat, k: nat)
    requires from <= k < |s| && !IsSpace(s[k])
    requires forall j :: from <= j < k ==> IsSpace(s[j])
    ensures SkipSpace(s, from) == k
  {
  }

  /** The brace search of the font pattern reads only up to the `{`. */
  lemma BraceAt(s: string, b: nat)
    requires StartsWithCI(s, 0, "@font-face") && 10 <= b < |s| && s[b] == '{'
    requires forall k :: 10 <= k < b ==> IsSpace(s[k])
    ensures FontFaceBrace(s) == Some(b)
  {
    SkipSpaceAt(s, 10, b);
  }

  /** A block of that shape is matched whole, whatever follows it. */
  lemma FontRematch(t: string, b: nat, x: string)
    requires FontShaped(t, b)
    ensures MatchEnd(FontFaceBlock, t + x) == Some(|t| - 1)
  {
    var s := t + x;
    assert StartsWithCI(s, 0, "@font-face");
    BraceAt(s, b);
    assert FindFrom(t, {'}'}, b + 1) == Some(|t| - 1);
    assert t[..|t|] == s[..|t|];
    FindFromAgrees(t, s, {'}'}, b + 1, |t|);
  }

  /** A match is a block of that shape. */
  lemma FontMatchShaped(s: string)
    requires MatchEnd(FontFaceBlock, s).Some?
    ensures FontBlockShaped(s[..MatchEnd(FontFaceBlock, s).value + 1])
  {
    var t := s[..MatchEnd(FontFaceBlock, s).value + 1];
    var b := FontFaceBrace(s).value;
    assert FontShaped(t, b);
    BraceAt(t, b);
  }

  /** Cutting a block before its `}` and appending text that closes it once
      gives a block of the same shape. */
  lemma FontShapedAfterAppend(tag: string, b: nat, lit: string)
    requires FontShaped(tag, b)
    requires |lit| > 0 && lit[|lit| - 1] == '}' && forall j :: 0 <= j < |lit| - 1 ==> lit[j] != '}'
    ensures FontShaped(tag[..|tag| - 1] + lit, b)
  {
    var a := tag[..|tag| - 1];
    AppendClosed(a, lit, b + 1, '}');
    assert forall k :: 0 <= k <= b ==> (a + lit)[k] == tag[k];
  }

  /** What the font rewriter appends closes the block once. */
  lemma FontAppendedCloses(rule: Rule, tag: string)
    requires rule.FontDisplaySwap? && |tag| > 0
    ensures var lit := Appended(rule, tag);
      |lit| > 0 && lit[|lit| - 1] == '}' && forall j :: 0 <= j < |lit| - 1 ==> lit[j] != '}'
  {
  }

  lemma FontReplaceShaped(rule: Rule, tag: string, b: nat)
    requires rule.FontDisplaySwap?
    requires FontShaped(tag, b)
    ensures FontShaped(Replaced(CallbackOf(rule), tag), b)
  {
    ReplaceCases(rule, tag);
    if Replaced(CallbackOf(rule), tag) != tag {
      FontAppendedCloses(rule, tag);
      FontShapedAfterAppend(tag, b, Appended(rule, tag));
    }
  }

  /** Every `@font-face` match is a shaped block. */
  lemma FontMatchesShaped()
    ensures forall s :: Find(FontFaceBlock)(s).Some? ==> FontBlockShaped(s[..Find(FontFaceBlock)(s).value + 1])
  {
    forall s | Find(FontFaceBlock)(s).Some?
      ensures FontBlockShaped(s[..Find(FontFaceBlock)(s).value + 1])
    {
      FontMatchShaped(s);
    }
  }

  /** Every shaped block is met again whole, whatever follows it. */
  lemma FontShapedRematches()
    ensures forall t :: FontBlockShaped(t) ==> Rematches(Find(FontFaceBlock), t)
  {
    forall t | FontBlockShaped(t)
      ensures Rematches(Find(FontFaceBlock), t)
    {
      forall rest
        ensures Find(FontFaceBlock)(t + rest) == Some(|t| - 1)
      {
        FontRematch(t, FontFaceBrace(t).value, rest);
      }
    }
  }

  lemma FontCallbackKeepsShape(rule: Rule)
    requires rule.FontDisplaySwap?
    ensures KeepsFontShape(CallbackOf(rule))
  {
    forall t | FontBlockShaped(t)
      ensures FontBlockShaped(Replaced(CallbackOf(rule), t))
    {
      var b := FontFaceBrace(t).value;
      FontReplaceShaped(rule, t, b);
      BraceAt(Replaced(CallbackOf(rule), t), b);
    }
  }

  /** Every font match starts with `@`. */
  lemma FontMatchAt(z: string)
    ensures MatchEnd(FontFaceBlock, z).Some? ==> z[0] == '@'
  {
    if MatchEnd(FontFaceBlock, z).Some? {
      assert LowerChar(z[0 + 0]) == "@font-face"[0];
    }
  }

  /** After the `@` of `@font-face`, no `@` occurs before the end of the
      whitespace that follows it. */
  lemma NoAtInHead(s: string, k: nat)
    requires StartsWithCI(s, 0, "@font-face") && 10 <= k <= |s|
    requires forall j :: 10 <= j < k ==> IsSpace(s[j])
    ensures forall j :: 1 <= j < k ==> s[j] != '@'
  {
    forall j | 1 <= j < k
      ensures s[j] != '@'
    {
      if j < 10 {
        assert LowerChar(s[0 + j]) == "@font-face"[j];
      }
    }
  }

  /** No font match starts inside `@font-face` or the whitespace after it. */
  lemma NoFontMatchInHead(s: string, k: nat)
    requires StartsWithCI(s, 0, "@font-face") && 10 <= k <= |s|
    requires forall j :: 10 <= j < k ==> IsSpace(s[j])
    ensures forall p :: 0 <= p < k - 1 ==> Find(FontFaceBlock)(s[1..][p..]).None?
  {
    NoAtInHead(s, k);
    forall p | 0 <= p < k - 1
      ensures MatchEnd(FontFaceBlock, s[1..][p..]).None?
    {
      var z := s[1..][p..];
      assert z[0] == s[p + 1];
      FontMatchAt(z);
    }
  }

  /** If a text keeps everything up to the first non-space after
      `@font-face`, and that is not `{`, the pattern still fails there. */
  lemma NoBraceKept(s: string, out: string)
    requires StartsWithCI(s, 0, "@font-face") && FontFaceBrace(s).None?
    requires SkipSpace(s, 10) < |s| && |out| >= |s| - 1
    requires forall j :: 0 <= j < SkipSpace(s, 10) && j < |s| - 1 ==> out[j] == s[1..][j]
    ensures FontFaceBrace([s[0]] + out).None?
  {
    var k := SkipSpace(s, 10);
    var x := [s[0]] + out;
    assert forall j :: 1 <= j <= k ==> x[j] == out[j - 1] == s[1..][j - 1] == s[j];
    assert StartsWithCI(x, 0, "@font-face");
    SkipSpaceAt(x, 10, k);
  }

  /** `@font-face` then a non-space that is not `{`: the characters up to it
      decide the miss, and no match starts among them. */
  lemma FontOpenDecided(s: string)
    requires |s| > 11 && StartsWithCI(s, 0, "@font-face") && FontFaceBrace(s).None?
    ensures NoMatchAfter(Find(FontFaceBlock), s) || MissDecided(Find(FontFaceBlock), s, SkipSpace(s, 10) - 1, 9)
  {
    var k := SkipSpace(s, 10);
    NoFontMatchInHead(s, k);
    if k < |s| {
      FontOpenKept(s);
    }
  }

  lemma FontOpenKept(s: string)
    requires StartsWithCI(s, 0, "@font-face") && FontFaceBrace(s).None?
    requires SkipSpace(s, 10) < |s|
    ensures forall out :: KeepsHead(out, s[1..], SkipSpace(s, 10) + 8) ==> Find(FontFaceBlock)([s[0]] + out).None?
  {
    forall out | KeepsHead(out, s[1..], SkipSpace(s, 10) + 8)
      ensures Find(FontFaceBlock)([s[0]] + out).None?
    {
      FontOpenKeptAt(s, out);
    }
  }

  lemma FontOpenKeptAt(s: string, out: string)
    requires StartsWithCI(s, 0, "@font-face") && FontFaceBrace(s).None?
    requires SkipSpace(s, 10) < |s|
    requires KeepsHead(out, s[1..], SkipSpace(s, 10) + 8)
    ensures MatchEnd(FontFaceBlock, [s[0]] + out).None?
  {
    NoBraceKept(s, out);
  }

  /** `@font-face {` with no `}` after it: no match starts after its head
      either. */
  lemma FontUnclosed(s: string)
    requires |s| > 0 && FontFaceBrace(s).Some? && FontFaceEnd(s).None?
    ensures NoMatchAfter(Find(FontFaceBlock), s)
  {
    var y := s[1..];
    var b := FontFaceBrace(s).value;
    NoAtInHead(s, b);
    forall p | 0 <= p < |y|
      ensures MatchEnd(FontFaceBlock, y[p..]).None?
    {
      var z := y[p..];
      FontMatchAt(z);
      assert z[0] == s[p + 1];
    }
  }

  /** A text that does not start with `@font-face`: its first ten
      characters decide the miss. */
  lemma FontHeadDecided(s: string)
    requires |s| > 10 && !StartsWithCI(s, 0, "@font-face")
    ensures MissDecided(Find(FontFaceBlock), s, 0, 9)
  {
    forall out | KeepsHead(out, s[1..], 9)
      ensures Find(FontFaceBlock)([s[0]] + out).None?
    {
      FontHeadKept(s, out);
    }
  }

  lemma FontHeadKept(s: string, out: string)
    requires |s| > 10 && !StartsWithCI(s, 0, "@font-face") && KeepsHead(out, s[1..], 9)
    ensures MatchEnd(FontFaceBlock, [s[0]] + out).None?
  {
    HeadDecides(s, out, "@font-face");
  }

  /** Where no `@font-face` block starts, either nothing matches after the
      head, or characters the first pass keeps decide the miss. */
  lemma FontMissDecided(s: string)
    requires |s| > 0 && Find(FontFaceBlock)(s).None?
    ensures NoMatchAfter(Find(FontFaceBlock), s) || exists n: nat :: MissDecided(Find(FontFaceBlock), s, n, 9)
  {
    if |s| <= 11 {
      MatchesAreLong(FontFaceBlock);
      ShortMisses(Find(FontFaceBlock), 10, s);
    } else if !StartsWithCI(s, 0, "@font-face") {
      FontHeadDecided(s);
    } else if FontFaceBrace(s).None? {
      FontOpenDecided(s);
    } else {
      FontUnclosed(s);
    }
  }

  lemma FontEditsRematch(cb: Hook)
    requires Settles(cb)
    requires KeepsFontShape(cb)
    ensures EditsRematch(Find(FontFaceBlock), cb)
  {
    FontMatchesShaped();
    FontShapedRematches();
    EditsRematchFrom(Find(FontFaceBlock), cb, t => FontBlockShaped(t));
  }

  lemma FontMissesStay(cb: Hook)
    requires Grows(cb) && EditsNearEnd(cb)
    ensures MissesStay(Find(FontFaceBlock), cb)
  {
    MatchesAreLong(FontFaceBlock);
    forall s | |s| > 0 && Find(FontFaceBlock)(s).None?
      ensures NoMatchAfter(Find(FontFaceBlock), s) || exists n: nat :: MissDecided(Find(FontFaceBlock), s, n, 9)
    {
      FontMissDecided(s);
    }
    MissesStayFrom(Find(FontFaceBlock), cb, 9);
  }

  // ----- the theorem ----------------------------------------------------------

  /** What the idempotence of an `<img` scan needs of its callback. */
  ghost predicate ImgHook(cb: Hook) {
    Grows(cb) && EditsNearEnd(cb) && Settles(cb)
    && KeepsImgShape(cb)
  }

  /** What the idempotence of a `@font-face` scan needs of its callback. */
  ghost predicate FontHook(cb: Hook) {
    Grows(cb) && EditsNearEnd(cb) && Settles(cb)
    && KeepsFontShape(cb)
  }

  lemma ImgRuleHook(rule: Rule)
    requires rule.LazyLoading? || rule.AsyncDecoding?
    ensures ImgHook(CallbackOf(rule))
  {
    var cb := CallbackOf(rule);
    assert Grows(cb) && EditsNearEnd(cb) && Settles(cb) by {
      CallbackWellBehaved(rule);
    }
    ImgCallbackKeepsShape(rule);
  }

  lemma FontRuleHook(rule: Rule)
    requires rule.FontDisplaySwap?
    ensures FontHook(CallbackOf(rule))
  {
    CallbackWellBehaved(rule);
    FontCallbackKeepsShape(rule);
  }

  /** A scan for `<img` tags with a callback that keeps their shape and
      settles is idempotent. */
  lemma ImgScanIdempotent(cb: Hook, msg: string, s: string)
    requires ImgHook(cb)
    ensures var out := Sub(Find(ImgTag), cb, msg, s).text;
      Sub(Find(ImgTag), cb, msg, out) == Rewrite(out, [])
  {
    ImgEditsRematch(cb);
    ImgMissesStay(cb);
    IdempotentIfStable(Find(ImgTag), cb, msg, s);
  }

  /** A scan for `@font-face` blocks with a callback that keeps their shape
      and settles is idempotent. */
  lemma FontScanIdempotent(cb: Hook, msg: string, s: string)
    requires FontHook(cb)
    ensures var out := Sub(Find(FontFaceBlock), cb, msg, s).text;
      Sub(Find(FontFaceBlock), cb, msg, out) == Rewrite(out, [])
  {
    FontEditsRematch(cb);
    FontMissesStay(cb);
    IdempotentIfStable(Find(FontFaceBlock), cb, msg, s);
  }

  lemma ImgRewriteIdempotent(rule: Rule, s: string)
    requires rule.LazyLoading? || rule.AsyncDecoding?
    ensures var out := Sub(Find(ImgTag), CallbackOf(rule), Message(rule), s).text;
      Sub(Find(ImgTag), CallbackOf(rule), Message(rule), out) == Rewrite(out, [])
  {
    ImgRuleHook(rule);
    ImgScanIdempotent(CallbackOf(rule), Message(rule), s);
  }

  lemma FontRewriteIdempotent(rule: Rule, s: string)
    requires rule.FontDisplaySwap?
    ensures var out := Sub(Find(FontFaceBlock), CallbackOf(rule), Message(rule), s).text;
      Sub(Find(FontFaceBlock), CallbackOf(rule), Message(rule), out) == Rewrite(out, [])
  {
    FontRuleHook(rule);
    FontScanIdempotent(CallbackOf(rule), Message(rule), s);
  }

  /** add_loading_lazy_to_images, add_decoding_async_to_images and
      add_font_display_swap are idempotent: a second run returns its input
      and logs no change. */
  lemma RewriteIdempotent(rule: Rule, s: string)
    requires rule.LazyLoading? || rule.AsyncDecoding? || rule.FontDisplaySwap?
    ensures Apply(rule, Apply(rule, s).text) == Rewrite(Apply(rule, s).text, [])
  {
    if rule.FontDisplaySwap? {
      FontRewriteIdempotent(rule, s);
    } else {
      ImgRewriteIdempotent(rule, s);
    }
  }

  /** A matched `<img` tag ends in `>`, so the attribute rewriters can
      always edit it. */
  lemma ImgMatchEditable(rule: Rule, z: string, t: string)
    requires rule.LazyLoading? || rule.AsyncDecoding?
    requires |t| > 0 && Find(ImgTag)(z) == Some(|t| - 1) && z[..|t|] == t
    ensures Edit(rule, t).Some?
  {
    ImgMatchShaped(z);
    assert ImgShaped(t);
    assert t[|t| - 1] == '>';
  }

  /** A span the rule found but left alone is marked: a matched `<img` tag
      ends in `>`, and a block can always be edited. */
  lemma LeftAloneIsMarked(rule: Rule, ps: seq<Piece>, i: nat)
    requires rule.LazyLoading? || rule.AsyncDecoding? || rule.FontDisplaySwap?
    requires Faithful(Find(FinderOf(rule)), ps) && i < |ps| && ps[i].Span?
    requires |ps[i].text| > 0 ==> Marked(rule, ps[i].text) || Edit(rule, ps[i].text).None?
    ensures Marked(rule, ps[i].text)
  {
    var t := ps[i].text;
    SpanIsMatch(Find(FinderOf(rule)), ps, i);
    if rule.FontDisplaySwap? {
      assert Edit(rule, t).Some?;
    } else {
      var z := Flatten(ps[i..]);
      assert FinderOf(rule) == ImgTag;
      assert Find(ImgTag)(z) == Some(|t| - 1) && z[..|t|] == t;
      ImgMatchEditable(rule, z, t);
    }
  }

  /** A run that logs nothing leaves no span unmarked. */
  lemma MarkedWhenNothingLogged(rule: Rule, out: string)
    requires rule.LazyLoading? || rule.AsyncDecoding? || rule.FontDisplaySwap?
    requires Apply(rule, out).changes == []
    ensures var ps := Segment(Find(FinderOf(rule)), out);
      forall i :: 0 <= i < |ps| && ps[i].Span? ==> Marked(rule, ps[i].text)
  {
    ApplyEditsUnmarked(rule, out);
    var ps := Segment(Find(FinderOf(rule)), out);
    NoUnmarkedSpans(rule, ps);
    forall i | 0 <= i < |ps| && ps[i].Span?
      ensures Marked(rule, ps[i].text)
    {
      LeftAloneIsMarked(rule, ps, i);
    }
  }

  /** After one run of the lazy-loading, async-decoding or font-display
      rewriter, every span it matches in its own output carries the rule's
      marker: each `<img` tag holds `loading=` (or a hero word), or
      `decoding=`, and each `@font-face` block holds `font-display`. */
  lemma MarkedAfterRewrite(rule: Rule, s: string)
    requires rule.LazyLoading? || rule.AsyncDecoding? || rule.FontDisplaySwap?
    ensures var ps := Segment(Find(FinderOf(rule)), Apply(rule, s).text);
      forall i :: 0 <= i < |ps| && ps[i].Span? ==> Marked(rule, ps[i].text)
  {
    RewriteIdempotent(rule, s);
    MarkedWhenNothingLogged(rule, Apply(rule, s).text);
  }
}
