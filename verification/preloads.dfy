/**
 generate_preloads.py: preload directives for the fonts and the critical
 background images the style sheets declare, hero images per page, and the
 `<link rel="preload">` tags for the layout and for pages.

 The `@font-face` blocks are found with the same finder as the rewriters.
 The patterns inside a block (`url(...)` with a font extension), the CSS
 rule pattern for background images and the page hero-image pattern are
 not modelled: what they find is an input. Resolving a relative font path
 against the file system is an input too.
 */
module Preloads {
  import opened Text
  import opened Matchers
  import opened Report
  import Firsts

  datatype AsType = Font | Image
  datatype Scope = Layout | Page

  /** A `PreloadDirective`, without its human-readable `reason`. */
  datatype Directive = Directive(href: string, asType: AsType, typeAttr: Option<string>, crossorigin: bool, scope: Scope, source: string)

  // ----- fonts -----------------------------------------------------------------

  /** The MIME type of a font URL, tested in this order on its lower-case
      form: `.woff2`, `.woff`, `.ttf`. */
  function FontMime(url: string): (r: Option<string>)
    ensures r == Some("font/woff2") <==> Contains(Lower(url), ".woff2")
    ensures r == Some("font/woff") <==> !Contains(Lower(url), ".woff2") && Contains(Lower(url), ".woff")
    ensures r == Some("font/ttf") <==> !Contains(Lower(url), ".woff") && Contains(Lower(url), ".ttf")
    ensures r.None? <==> !Contains(Lower(url), ".woff") && !Contains(Lower(url), ".ttf")
  {
    var u := Lower(url);
    if Contains(u, ".woff2") then
      Woff2HoldsWoff(u);
      Some("font/woff2")
    else if Contains(u, ".woff") then
      Some("font/woff")
    else if Contains(u, ".ttf") then Some("font/ttf")
    else None
  }

  /** `.woff2` holds `.woff`, so `.woff` must be tested second. */
  lemma Woff2HoldsWoff(u: string)
    requires Contains(u, ".woff2")
    ensures Contains(u, ".woff")
  {
    var i := ContainsHasWitness(u, ".woff2");
    assert u[i..i + 6] == ".woff2";
    assert u[i..i + 5] == u[i..i + 6][..5] == ".woff";
    ContainsFromWitness(u, ".woff", i);
  }

  /** Resolving a relative font path from the style sheet that names it:
      `/` plus the path below `public/` or `src/`, or the URL itself. */
  type Resolver = (string, string) -> string

  /** The href of a font URL: absolute paths and `http` URLs as they are,
      relative paths resolved. */
  function FontHref(url: string, cssRel: string, resolve: Resolver): (href: string)
    ensures StartsAt(url, 0, "/") || StartsAt(url, 0, "http") ==> href == url
    ensures !StartsAt(url, 0, "/") && !StartsAt(url, 0, "http") ==> href == resolve(cssRel, url)
  {
    if StartsAt(url, 0, "/") then url
    else if StartsAt(url, 0, "http") then url
    else resolve(cssRel, url)
  }

  /** A block the `@font-face` finder matched at `o.start` in `css`. */
  predicate IsFace(css: string, o: Occurrence) {
    StartsAt(css, o.start, o.text) && FontFaceEnd(css[o.start..]) == Some(|o.text| - 1)
  }

  /** The `@font-face` blocks of a style sheet, in order. */
  function Faces(css: string): (os: seq<Occurrence>)
    ensures forall i :: 0 <= i < |os| ==> IsFace(css, os[i])
  {
    var os := Occurrences(Find(FontFaceBlock), css);
    forall i | 0 <= i < |os|
      ensures IsFace(css, os[i])
    {
      FindFace(css[os[i].start..]);
    }
    os
  }

  /** Group 1 of `@font-face\s*\{([^}]*)\}`: the text between the opening
      brace and the closing one, which it does not hold. */
  function FaceBody(css: string, o: Occurrence): (body: string)
    requires IsFace(css, o)
    ensures '}' !in body && |body| + 2 <= |o.text|
    ensures o.text[|o.text| - |body| - 2] == '{' && o.text[|o.text| - |body| - 1..] == body + "}"
  {
    var b := FaceBrace(css, o);
    o.text[b + 1..|o.text| - 1]
  }

  lemma FindFace(s: string)
    ensures Find(FontFaceBlock)(s) == FontFaceEnd(s)
  {
  }

  /** Where the opening brace of a matched block lies in its text. */
  function FaceBrace(css: string, o: Occurrence): (b: nat)
    requires IsFace(css, o)
    ensures b + 1 < |o.text| && o.text[b] == '{' && o.text[|o.text| - 1] == '}'
    ensures forall k :: b < k < |o.text| - 1 ==> o.text[k] != '}'
  {
    var s := css[o.start..];
    assert o.text == s[..|o.text|];
    FontFaceBrace(s).value
  }

  /** The font URLs the `url(...)` pattern finds in a block body. */
  type UrlsIn = string -> seq<string>

  function FontDirective(url: string, cssRel: string, resolve: Resolver): (d: Directive)
    ensures d.asType == Font && d.crossorigin && d.scope == Layout && d.source == cssRel
    ensures d.typeAttr == FontMime(url)
  {
    Directive(FontHref(url, cssRel, resolve), Font, FontMime(url), true, Layout, cssRel)
  }

  /** `f` applied to each element, in order. */
  function MapSeq<A, B>(xs: seq<A>, f: A -> B): (ys: seq<B>)
    ensures |ys| == |xs| && forall i :: 0 <= i < |xs| ==> ys[i] == f(xs[i])
  {
    seq(|xs|, i requires 0 <= i < |xs| => f(xs[i]))
  }

  lemma MapSeqConcat<A, B>(a: seq<A>, b: seq<A>, f: A -> B)
    ensures MapSeq(a + b, f) == MapSeq(a, f) + MapSeq(b, f)
  {
    var l := MapSeq(a + b, f);
    var r := MapSeq(a, f) + MapSeq(b, f);
    forall i | 0 <= i < |l|
      ensures l[i] == r[i]
    {
      if i >= |a| {
        assert (a + b)[i] == b[i - |a|];
      } else {
        assert (a + b)[i] == a[i];
      }
    }
  }

  /** The directive of a font URL of one style sheet, as a value. */
  function FontDirectiveOf(cssRel: string, resolve: Resolver): (f: string -> Directive)
    ensures forall url :: f(url) == FontDirective(url, cssRel, resolve)
  {
    url => FontDirective(url, cssRel, resolve)
  }

  function FontDirectives(urls: seq<string>, cssRel: string, resolve: Resolver): (ds: seq<Directive>)
    ensures |ds| == |urls|
    ensures forall i :: 0 <= i < |ds| ==> ds[i] == FontDirective(urls[i], cssRel, resolve)
  {
    MapSeq(urls, FontDirectiveOf(cssRel, resolve))
  }

  /** The font URLs of a list of blocks: those of the first block, then
      those of the next, and so on. */
  function FaceUrls(css: string, faces: seq<Occurrence>, urlsIn: UrlsIn): (urls: seq<string>)
    requires forall i :: 0 <= i < |faces| ==> IsFace(css, faces[i])
    decreases |faces|
  {
    if |faces| == 0 then [] else urlsIn(FaceBody(css, faces[0])) + FaceUrls(css, faces[1..], urlsIn)
  }

  /** extract_fonts_from_css: one font directive per font URL of each
      `@font-face` block, blocks in order and URLs in order within a
      block. */
  function FontsFromCss(css: string, cssRel: string, urlsIn: UrlsIn, resolve: Resolver): (ds: seq<Directive>)
    ensures forall i :: 0 <= i < |ds| ==> ds[i].asType == Font && ds[i].crossorigin && ds[i].scope == Layout && ds[i].source == cssRel
    ensures |ds| == |FaceUrls(css, Faces(css), urlsIn)|
    ensures forall i :: 0 <= i < |ds| ==> ds[i] == FontDirective(FaceUrls(css, Faces(css), urlsIn)[i], cssRel, resolve)
  {
    FacesToDirectives(css, Faces(css), cssRel, urlsIn, resolve)
  }

  lemma FontDirectivesConcat(a: seq<string>, b: seq<string>, cssRel: string, resolve: Resolver)
    ensures FontDirectives(a + b, cssRel, resolve) == FontDirectives(a, cssRel, resolve) + FontDirectives(b, cssRel, resolve)
  {
    MapSeqConcat(a, b, FontDirectiveOf(cssRel, resolve));
  }

  function FacesToDirectives(css: string, faces: seq<Occurrence>, cssRel: string, urlsIn: UrlsIn, resolve: Resolver): (ds: seq<Directive>)
    requires forall i :: 0 <= i < |faces| ==> IsFace(css, faces[i])
    ensures forall i :: 0 <= i < |ds| ==> ds[i].asType == Font && ds[i].crossorigin && ds[i].scope == Layout && ds[i].source == cssRel
    ensures ds == FontDirectives(FaceUrls(css, faces, urlsIn), cssRel, resolve)
    decreases |faces|
  {
    if |faces| == 0 then []
    else
      var urls := urlsIn(FaceBody(css, faces[0]));
      var head := FontDirectives(urls, cssRel, resolve);
      var rest := FacesToDirectives(css, faces[1..], cssRel, urlsIn, resolve);
      KindsConcat(head, rest, cssRel);
      FontDirectivesConcat(urls, FaceUrls(css, faces[1..], urlsIn), cssRel, resolve);
      head + rest
  }

  lemma KindsConcat(a: seq<Directive>, b: seq<Directive>, cssRel: string)
    requires forall i :: 0 <= i < |a| ==> a[i].asType == Font && a[i].crossorigin && a[i].scope == Layout && a[i].source == cssRel
    requires forall i :: 0 <= i < |b| ==> b[i].asType == Font && b[i].crossorigin && b[i].scope == Layout && b[i].source == cssRel
    ensures forall i :: 0 <= i < |a + b| ==>
      (a + b)[i].asType == Font && (a + b)[i].crossorigin && (a + b)[i].scope == Layout && (a + b)[i].source == cssRel
  {
    forall i | 0 <= i < |a + b|
      ensures (a + b)[i].asType == Font && (a + b)[i].crossorigin && (a + b)[i].scope == Layout && (a + b)[i].source == cssRel
    {
      if i >= |a| {
        assert (a + b)[i] == b[i - |a|];
      }
    }
  }

  // ----- critical background images -----------------------------------------------

  const CriticalSelectors: seq<string> := ["hero", "banner", "header", "masthead", "jumbotron", "above-fold", "splash"]

  /** A CSS rule with a background image: its selector and the image URL. */
  datatype BackgroundRule = BackgroundRule(selector: string, url: string)

  /** The rules the background-image pattern finds in a style sheet. */
  type RulesIn = string -> seq<BackgroundRule>

  /** The href of a background image: absolute paths and `http` URLs as
      they are, anything else made root-relative. */
  function ImageHref(url: string): (href: string)
    ensures StartsAt(url, 0, "/") || StartsAt(url, 0, "http") ==> href == url
    ensures !StartsAt(url, 0, "/") && !StartsAt(url, 0, "http") ==> href == "/" + url
    ensures |href| > 0 && (href[0] == '/' || StartsAt(href, 0, "http"))
  {
    if StartsAt(url, 0, "/") then url
    else if StartsAt(url, 0, "http") then url
    else "/" + url
  }

  /** A rule is preloaded when its lowered selector names a critical
      section and its URL is not a `data:` URL. */
  predicate IsCritical(rule: BackgroundRule) {
    ContainsAny(Lower(rule.selector), CriticalSelectors) && !StartsAt(rule.url, 0, "data:")
  }

  function ImageDirective(rule: BackgroundRule, cssRel: string): (d: Directive)
    ensures d.asType == Image && !d.crossorigin && d.typeAttr.None? && d.source == cssRel
    ensures d.scope == Layout <==> Contains(Lower(rule.selector), "header")
  {
    Directive(ImageHref(rule.url), Image, None, false,
      if Contains(Lower(rule.selector), "header") then Layout else Page, cssRel)
  }

  /** extract_critical_images_from_css */
  function ImagesFromCss(rules: seq<BackgroundRule>, cssRel: string): (ds: seq<Directive>)
    ensures |ds| <= |rules|
    ensures forall i :: 0 <= i < |ds| ==> ds[i].asType == Image && !ds[i].crossorigin && ds[i].typeAttr.None?
    decreases |rules|
  {
    if |rules| == 0 then []
    else (if IsCritical(rules[0]) then [ImageDirective(rules[0], cssRel)] else []) + ImagesFromCss(rules[1..], cssRel)
  }

  /** Exactly the critical rules become directives, in order. */
  lemma {:induction false} ImagesAreCriticalRules(rules: seq<BackgroundRule>, cssRel: string)
    ensures |ImagesFromCss(rules, cssRel)| == |CriticalOf(rules)|
    ensures forall i :: 0 <= i < |CriticalOf(rules)| ==>
      ImagesFromCss(rules, cssRel)[i] == ImageDirective(CriticalOf(rules)[i], cssRel)
    decreases |rules|
  {
    if |rules| > 0 {
      ImagesAreCriticalRules(rules[1..], cssRel);
    }
  }

  /** The critical rules of a list, in order. */
  function CriticalOf(rules: seq<BackgroundRule>): (r: seq<BackgroundRule>)
    ensures forall i :: 0 <= i < |r| ==> IsCritical(r[i]) && r[i] in rules
    ensures forall i :: 0 <= i < |rules| && IsCritical(rules[i]) ==> rules[i] in r
    decreases |rules|
  {
    if |rules| == 0 then []
    else if IsCritical(rules[0]) then [rules[0]] + CriticalOf(rules[1..])
    else CriticalOf(rules[1..])
  }

  // ----- page hero images ------------------------------------------------------

  /** The href written for a page hero image, as the source builds it: the
      `src` when it starts with `/`, otherwise `/` prepended. */
  function PageHrefAsWritten(src: string): string {
    if StartsAt(src, 0, "/") then src else "/" + src
  }

  /** Every absolute URL is turned into a path that no server has. */
  lemma PageHrefBreaksUrls(src: string)
    requires StartsAt(src, 0, "http")
    ensures PageHrefAsWritten(src) == "/" + src
  {
    assert src[0] == 'h';
  }

  /** One such URL. */
  lemma PageHrefBreaksUrl()
    ensures PageHrefAsWritten("https://a.io/h.jpg") == "/https://a.io/h.jpg"
  {
    PageHrefBreaksUrls("https://a.io/h.jpg");
  }

  /** The href a page hero image should get: the same rule as for
      background images, which leaves `http` URLs alone. */
  function PageHref(src: string): (href: string)
    ensures StartsAt(src, 0, "http") ==> href == src
    ensures href == src || href == "/" + src
    ensures |href| > 0 && (href[0] == '/' || StartsAt(href, 0, "http"))
  {
    ImageHref(src)
  }

  /** The two agree on everything but `http` URLs. */
  lemma PageHrefAgrees(src: string)
    requires !StartsAt(src, 0, "http") || StartsAt(src, 0, "/")
    ensures PageHref(src) == PageHrefAsWritten(src)
  {
  }

  /** Which of the two href rules a page hero image gets: the source's,
      or the corrected one. */
  datatype HrefRule = AsWritten | Corrected

  function HeroHref(rule: HrefRule, src: string): (href: string)
    ensures rule == AsWritten ==> href == PageHrefAsWritten(src)
    ensures rule == Corrected ==> href == PageHref(src)
  {
    match rule
    case AsWritten => PageHrefAsWritten(src)
    case Corrected => PageHref(src)
  }

  /** The `src` values the hero pattern finds in a page. */
  type SrcsIn = string -> seq<string>

  /** analyze_page_specific_resources: one page-scope image directive per
      hero `src` that is not a `data:` URL, its href built by `rule`. */
  function PageDirectives(srcs: seq<string>, pageRel: string, rule: HrefRule): (ds: seq<Directive>)
    ensures |ds| <= |srcs|
    ensures forall i :: 0 <= i < |ds| ==> ds[i].asType == Image && ds[i].scope == Page && !ds[i].crossorigin && ds[i].typeAttr.None? && ds[i].source == pageRel
    decreases |srcs|
  {
    if |srcs| == 0 then []
    else
      (if !StartsAt(srcs[0], 0, "data:") then [Directive(HeroHref(rule, srcs[0]), Image, None, false, Page, pageRel)] else [])
      + PageDirectives(srcs[1..], pageRel, rule)
  }

  /** As the source builds them, the directives of a page with an `http`
      hero image name a path that no server has. */
  lemma PageDirectivesBreakUrl(pageRel: string)
    ensures PageDirectives(["https://a.io/h.jpg"], pageRel, AsWritten) == [Directive("/https://a.io/h.jpg", Image, None, false, Page, pageRel)]
    ensures PageDirectives(["https://a.io/h.jpg"], pageRel, Corrected) == [Directive("https://a.io/h.jpg", Image, None, false, Page, pageRel)]
  {
    var src := "https://a.io/h.jpg";
    assert !StartsAt(src, 0, "data:") by {
      assert src[0] != "data:"[0];
    }
    PageHrefBreaksUrls(src);
    assert "/" + src == "/https://a.io/h.jpg";
    assert HeroHref(AsWritten, src) == "/https://a.io/h.jpg";
    assert [src][0] == src && [src][1..] == [];
    assert PageDirectives([src][1..], pageRel, AsWritten) == [];
  }

  /** The hero sources that are not `data:` URLs, in order. */
  function HeroSources(srcs: seq<string>): (r: seq<string>)
    ensures forall i :: 0 <= i < |r| ==> !StartsAt(r[i], 0, "data:") && r[i] in srcs
    ensures forall i :: 0 <= i < |srcs| && !StartsAt(srcs[i], 0, "data:") ==> srcs[i] in r
    decreases |srcs|
  {
    if |srcs| == 0 then []
    else if !StartsAt(srcs[0], 0, "data:") then [srcs[0]] + HeroSources(srcs[1..])
    else HeroSources(srcs[1..])
  }

  /** Exactly the sources that are not `data:` URLs become directives, in
      order, each with the href its rule builds. */
  lemma {:induction false} PageDirectivesOfSources(srcs: seq<string>, pageRel: string, rule: HrefRule)
    ensures |PageDirectives(srcs, pageRel, rule)| == |HeroSources(srcs)|
    ensures forall i :: 0 <= i < |HeroSources(srcs)| ==>
      PageDirectives(srcs, pageRel, rule)[i].href == HeroHref(rule, HeroSources(srcs)[i])
    decreases |srcs|
  {
    if |srcs| > 0 {
      PageDirectivesOfSources(srcs[1..], pageRel, rule);
      var rest := PageDirectives(srcs[1..], pageRel, rule);
      var hs := HeroSources(srcs[1..]);
      if !StartsAt(srcs[0], 0, "data:") {
        var d := Directive(HeroHref(rule, srcs[0]), Image, None, false, Page, pageRel);
        assert PageDirectives(srcs, pageRel, rule) == [d] + rest;
        assert HeroSources(srcs) == [srcs[0]] + hs;
        HrefsCons(d, rest, srcs[0], hs, rule);
      } else {
        assert PageDirectives(srcs, pageRel, rule) == rest;
        assert HeroSources(srcs) == hs;
      }
    }
  }

  lemma HrefsCons(d: Directive, ds: seq<Directive>, src: string, srcs: seq<string>, rule: HrefRule)
    requires d.href == HeroHref(rule, src) && |ds| == |srcs|
    requires forall i :: 0 <= i < |srcs| ==> ds[i].href == HeroHref(rule, srcs[i])
    ensures forall i :: 0 <= i < |[src] + srcs| ==> ([d] + ds)[i].href == HeroHref(rule, ([src] + srcs)[i])
  {
    forall i | 0 < i < |[src] + srcs|
      ensures ([d] + ds)[i].href == HeroHref(rule, ([src] + srcs)[i])
    {
      assert ([d] + ds)[i] == ds[i - 1] && ([src] + srcs)[i] == srcs[i - 1];
    }
  }

  // ----- tags ------------------------------------------------------------------

  function AsName(t: AsType): string {
    match t
    case Font => "font"
    case Image => "image"
  }

  /** A directive whose tag carries a `type` attribute: the source tests
      `if p.type_attr`, so an empty type is left out as well. */
  predicate HasType(d: Directive) {
    d.typeAttr.Some? && |d.typeAttr.value| > 0
  }

  /** The attributes of a directive's tag, in order: `rel`, `href`, `as`,
      then `type` exactly when the directive has a non-empty type, then
      `crossorigin` exactly when it is set. */
  function Attrs(d: Directive): (attrs: seq<string>)
    ensures |attrs| == 3 + (if HasType(d) then 1 else 0) + (if d.crossorigin then 1 else 0)
    ensures attrs[0] == "rel=\"preload\"" && attrs[1] == "href=\"" + d.href + "\""
    ensures attrs[2] == "as=\"" + AsName(d.asType) + "\""
    ensures HasType(d) ==> attrs[3] == "type=\"" + d.typeAttr.value + "\""
    ensures d.crossorigin ==> attrs[|attrs| - 1] == "crossorigin"
    ensures d.crossorigin <==> "crossorigin" in attrs[1..]
  {
    var named := ["rel=\"preload\"", "href=\"" + d.href + "\"", "as=\"" + AsName(d.asType) + "\""]
      + (if HasType(d) then ["type=\"" + d.typeAttr.value + "\""] else []);
    assert forall k :: 0 <= k < |named| ==> named[k][0] != 'c';
    named + (if d.crossorigin then ["crossorigin"] else [])
  }

  /** `<link rel="preload" href="..." as="..." [type="..."] [crossorigin]>` */
  function Tag(d: Directive): (tag: string)
  {
    "<link " + Join(Attrs(d), ' ') + ">"
  }

  /** `<link rel="preload" href="` */
  const TagHead: string := "<link " + "rel=\"preload\"" + " " + "href=\""

  /** The href a tag names: what stands between `href="` and the next
      quote. */
  function TagHref(tag: string): Option<string> {
    if StartsAt(tag, 0, TagHead) then
      match FindFrom(tag, {'"'}, |TagHead|)
      case None => None
      case Some(q) => Some(tag[|TagHead|..q])
    else None
  }

  /** A tag is its head, the href, and a tail that starts with the closing
      quote. */
  lemma TagShape(d: Directive) returns (tail: string)
    ensures Tag(d) == TagHead + d.href + tail && |tail| > 0 && tail[0] == '"'
  {
    var attrs := Attrs(d);
    var rest := Join(attrs[2..], ' ');
    JoinStep(attrs, ' ');
    JoinStep(attrs[1..], ' ');
    assert attrs[1..][1..] == attrs[2..];
    assert Join(attrs, ' ') == "rel=\"preload\"" + " " + (("href=\"" + d.href + "\"") + " " + rest);
    Regroup("<link ", "rel=\"preload\"", " ", "href=\"", d.href, "\"", rest, ">");
    tail := "\"" + " " + rest + ">";
  }

  lemma Regroup(a: string, b: string, sp: string, c: string, x: string, q: string, rest: string, z: string)
    ensures a + (b + sp + ((c + x + q) + sp + rest)) + z == (a + b + sp + c) + x + (q + sp + rest + z)
  {
  }

  lemma JoinStep(xs: seq<string>, sep: char)
    requires |xs| >= 2
    ensures Join(xs, sep) == xs[0] + [sep] + Join(xs[1..], sep)
  {
  }

  /** The href can be read back from a tag when it holds no quote. */
  lemma TagHrefRoundTrip(d: Directive)
    requires '"' !in d.href
    ensures TagHref(Tag(d)) == Some(d.href)
  {
    var tail := TagShape(d);
    var tag := Tag(d);
    var q := |TagHead| + |d.href|;
    assert tag[q] == '"';
    assert forall k :: |TagHead| <= k < q ==> tag[k] == d.href[k - |TagHead|];
    assert FindFrom(tag, {'"'}, |TagHead|) == Some(q);
    assert tag[..|TagHead|] == TagHead;
    assert tag[|TagHead|..q] == d.href;
  }

  /** Directives with different quote-free hrefs give different tags. */
  lemma TagsDistinct(d: Directive, e: Directive)
    requires '"' !in d.href && '"' !in e.href && d.href != e.href
    ensures Tag(d) != Tag(e)
  {
    TagHrefRoundTrip(d);
    TagHrefRoundTrip(e);
  }

  // ----- generate_preload_html ---------------------------------------------------

  /** Directives are deduplicated on their href, the first one kept. */
  function HrefOf(d: Directive): string {
    d.href
  }

  /** The tags of the directives of one scope, in order. */
  function ScopeTags(ds: seq<Directive>, scope: Scope): (tags: seq<string>)
    ensures |tags| == CountScope(ds, scope)
    ensures forall i :: 0 <= i < |ds| && ds[i].scope == scope ==> Tag(ds[i]) in tags
    ensures forall t :: t in tags ==> exists i :: 0 <= i < |ds| && ds[i].scope == scope && t == Tag(ds[i])
    decreases |ds|
  {
    if |ds| == 0 then []
    else (if ds[0].scope == scope then [Tag(ds[0])] else []) + ScopeTags(ds[1..], scope)
  }

  datatype Html = Html(layout: string, page: string)

  /** The two HTML blocks: each block is empty exactly when no kept
      directive has its scope, and holds the tag of every kept directive
      of its scope. */
  function GenerateHtml(ds: seq<Directive>): (h: Html)
    ensures var kept := Firsts.Dedup(ds, HrefOf);
      (h.layout == [] <==> CountScope(kept, Layout) == 0)
      && (h.page == [] <==> CountScope(kept, Page) == 0)
    ensures var kept := Firsts.Dedup(ds, HrefOf);
      forall i :: 0 <= i < |kept| && kept[i].scope == Layout ==> Contains(h.layout, Tag(kept[i]))
    ensures var kept := Firsts.Dedup(ds, HrefOf);
      forall i :: 0 <= i < |kept| && kept[i].scope == Page ==> Contains(h.page, Tag(kept[i]))
  {
    var kept := Firsts.Dedup(ds, HrefOf);
    ScopeBlock(kept, Layout);
    ScopeBlock(kept, Page);
    Html(Join(ScopeTags(kept, Layout), '\n'), Join(ScopeTags(kept, Page), '\n'))
  }

  /** One scope's block: empty exactly when no directive has that scope,
      and holding the tag of each directive that has it. */
  lemma ScopeBlock(ds: seq<Directive>, scope: Scope)
    ensures Join(ScopeTags(ds, scope), '\n') == [] <==> CountScope(ds, scope) == 0
    ensures forall i :: 0 <= i < |ds| && ds[i].scope == scope ==>
      Contains(Join(ScopeTags(ds, scope), '\n'), Tag(ds[i]))
  {
    var tags := ScopeTags(ds, scope);
    var b := Join(tags, '\n');
    JoinHoldsParts(tags, '\n');
    if |tags| > 0 {
      var t := tags[0];
      assert t in tags;
      var i :| 0 <= i < |ds| && ds[i].scope == scope && t == Tag(ds[i]);
      assert |t| > 0;
      assert Contains(b, t);
    }
    forall i | 0 <= i < |ds| && ds[i].scope == scope
      ensures Contains(b, Tag(ds[i]))
    {
      assert Tag(ds[i]) in tags;
      var k :| 0 <= k < |tags| && tags[k] == Tag(ds[i]);
    }
  }

  /** Every directive goes to exactly one of the two groups. */
  lemma ScopesSplit(ds: seq<Directive>)
    ensures |ScopeTags(ds, Layout)| + |ScopeTags(ds, Page)| == |ds|
  {
    CountsSplit(ds);
  }

  /** The tags of one scope keep the directives' order: those of a list
      are those of its first part, then those of the rest. */
  lemma {:induction false} ScopeTagsAppend(a: seq<Directive>, b: seq<Directive>, scope: Scope)
    ensures ScopeTags(a + b, scope) == ScopeTags(a, scope) + ScopeTags(b, scope)
    decreases |a|
  {
    if |a| == 0 {
      assert a + b == b;
    } else {
      assert (a + b)[0] == a[0];
      assert (a + b)[1..] == a[1..] + b;
      ScopeTagsAppend(a[1..], b, scope);
    }
  }

  /** A single directive's tag goes to its own group and to no other. */
  lemma ScopeTagsOne(d: Directive, scope: Scope)
    ensures ScopeTags([d], scope) == if d.scope == scope then [Tag(d)] else []
  {
    assert [d][1..] == [];
  }

  /** A tag holds no newline when its directive's strings hold none. */
  predicate NoNewline(d: Directive) {
    '\n' !in d.href && (d.typeAttr.Some? ==> '\n' !in d.typeAttr.value)
  }

  lemma TagHasNoNewline(d: Directive)
    requires NoNewline(d)
    ensures '\n' !in Tag(d)
  {
    var attrs := Attrs(d);
    forall i | 0 <= i < |attrs| ensures '\n' !in attrs[i] {
    }
    JoinAvoids(attrs, ' ', '\n');
  }

  /** Joining strings that lack a character with a different separator
      gives a string that lacks it. */
  lemma {:induction false} JoinAvoids(xs: seq<string>, sep: char, c: char)
    requires sep != c && forall i :: 0 <= i < |xs| ==> c !in xs[i]
    ensures c !in Join(xs, sep)
    decreases |xs|
  {
    if |xs| > 1 {
      JoinAvoids(xs[1..], sep, c);
    }
  }

  /** The layout group splits back, on newlines, into one tag per kept
      layout directive. */
  lemma {:induction false} ScopeTagsSplitBack(ds: seq<Directive>, scope: Scope)
    requires forall i :: 0 <= i < |ds| ==> NoNewline(ds[i])
    requires |ScopeTags(ds, scope)| > 0
    ensures Split(Join(ScopeTags(ds, scope), '\n'), '\n') == ScopeTags(ds, scope)
  {
    NoNewlineTags(ds, scope);
    SplitJoin(ScopeTags(ds, scope), '\n');
  }

  lemma {:induction false} NoNewlineTags(ds: seq<Directive>, scope: Scope)
    requires forall i :: 0 <= i < |ds| ==> NoNewline(ds[i])
    ensures forall i :: 0 <= i < |ScopeTags(ds, scope)| ==> '\n' !in ScopeTags(ds, scope)[i]
    decreases |ds|
  {
    if |ds| > 0 {
      NoNewlineTags(ds[1..], scope);
      TagHasNoNewline(ds[0]);
      var head := if ds[0].scope == scope then [Tag(ds[0])] else [];
      assert ScopeTags(ds, scope) == head + ScopeTags(ds[1..], scope);
    }
  }

  // ----- analyze_project --------------------------------------------------------

  /** The inputs of one run: style sheets and pages in walk order, and what
      the unmodelled patterns and the path resolution give. */
  datatype Inputs = Inputs(
    styles: seq<SourceFile>,   // src/**/*.css, then src/**/*.scss
    pages: seq<SourceFile>,    // src/pages/**/*.astro (empty when src/pages does not exist)
    urlsIn: UrlsIn, resolve: Resolver, rulesIn: RulesIn, srcsIn: SrcsIn)

  /** The directives of one style sheet; one that cannot be read gives
      none. */
  function Sheet(f: SourceFile, urlsIn: UrlsIn, resolve: Resolver, rulesIn: RulesIn): (ds: seq<Directive>)
    ensures f.content.None? ==> ds == []
    ensures FontsAreLayout(ds)
  {
    match f.content
    case None => []
    case Some(css) =>
      var fonts := FontsFromCss(css, f.rel, urlsIn, resolve);
      var images := ImagesFromCss(rulesIn(css), f.rel);
      FontsAreLayoutConcat(fonts, images);
      fonts + images
  }

  /** What each file of a list gives, one file after the other. */
  function Gather<T>(files: seq<SourceFile>, per: SourceFile -> seq<T>): seq<T>
    decreases |files|
  {
    if |files| == 0 then [] else per(files[0]) + Gather(files[1..], per)
  }

  lemma {:induction false} GatherAppend<T>(a: seq<SourceFile>, b: seq<SourceFile>, per: SourceFile -> seq<T>)
    ensures Gather(a + b, per) == Gather(a, per) + Gather(b, per)
    decreases |a|
  {
    if |a| == 0 {
      assert a + b == b;
    } else {
      assert (a + b)[0] == a[0];
      assert (a + b)[1..] == a[1..] + b;
      GatherAppend(a[1..], b, per);
    }
  }

  /** A file that gives nothing can be left out. */
  lemma GatherSkips<T>(a: seq<SourceFile>, f: SourceFile, b: seq<SourceFile>, per: SourceFile -> seq<T>)
    requires per(f) == []
    ensures Gather(a + [f] + b, per) == Gather(a + b, per)
  {
    assert [f][1..] == [];
    assert Gather([f], per) == [];
    GatherAppend(a + [f], b, per);
    GatherAppend(a, [f], per);
    GatherAppend(a, b, per);
  }

  function SheetOf(urlsIn: UrlsIn, resolve: Resolver, rulesIn: RulesIn): (per: SourceFile -> seq<Directive>)
    ensures forall f :: per(f) == Sheet(f, urlsIn, resolve, rulesIn)
  {
    f => Sheet(f, urlsIn, resolve, rulesIn)
  }

  /** The directives of the style sheets, sheet by sheet. */
  function CssDirectives(styles: seq<SourceFile>, urlsIn: UrlsIn, resolve: Resolver, rulesIn: RulesIn): seq<Directive>
  {
    Gather(styles, SheetOf(urlsIn, resolve, rulesIn))
  }

  /** A style sheet that cannot be read contributes nothing and stops
      nothing: the others give what they give without it. */
  lemma CssSkipsUnreadable(a: seq<SourceFile>, f: SourceFile, b: seq<SourceFile>, urlsIn: UrlsIn, resolve: Resolver, rulesIn: RulesIn)
    requires f.content.None?
    ensures CssDirectives(a + [f] + b, urlsIn, resolve, rulesIn) == CssDirectives(a + b, urlsIn, resolve, rulesIn)
  {
    GatherSkips(a, f, b, SheetOf(urlsIn, resolve, rulesIn));
  }

  /** Font directives are layout-wide and carry `crossorigin`. */
  predicate FontsAreLayout(ds: seq<Directive>) {
    forall i :: 0 <= i < |ds| && ds[i].asType == Font ==> ds[i].scope == Layout && ds[i].crossorigin
  }

  lemma FontsAreLayoutConcat(a: seq<Directive>, b: seq<Directive>)
    requires FontsAreLayout(a) && FontsAreLayout(b)
    ensures FontsAreLayout(a + b)
  {
    forall i | 0 <= i < |a + b| && (a + b)[i].asType == Font
      ensures (a + b)[i].scope == Layout && (a + b)[i].crossorigin
    {
      if i >= |a| {
        assert (a + b)[i] == b[i - |a|];
      }
    }
  }

  lemma CssFontsAreLayout(styles: seq<SourceFile>, urlsIn: UrlsIn, resolve: Resolver, rulesIn: RulesIn)
    ensures FontsAreLayout(CssDirectives(styles, urlsIn, resolve, rulesIn))
  {
    GatherFontsAreLayout(styles, SheetOf(urlsIn, resolve, rulesIn));
  }

  lemma {:induction false} GatherFontsAreLayout(files: seq<SourceFile>, per: SourceFile -> seq<Directive>)
    requires forall f :: FontsAreLayout(per(f))
    ensures FontsAreLayout(Gather(files, per))
    decreases |files|
  {
    if |files| > 0 {
      GatherFontsAreLayout(files[1..], per);
      FontsAreLayoutConcat(per(files[0]), Gather(files[1..], per));
    }
  }

  /** When every font is layout-wide, there are no more fonts than layout
      directives. */
  lemma {:induction false} FontsWithinLayout(ds: seq<Directive>)
    requires FontsAreLayout(ds)
    ensures CountAs(ds, Font) <= CountScope(ds, Layout)
    decreases |ds|
  {
    if |ds| > 0 {
      assert FontsAreLayout(ds[1..]) by {
        forall i | 0 <= i < |ds[1..]| && ds[1..][i].asType == Font
          ensures ds[1..][i].scope == Layout && ds[1..][i].crossorigin
        {
          assert ds[1..][i] == ds[i + 1];
        }
      }
      FontsWithinLayout(ds[1..]);
    }
  }

  /** The entry a page gets in `page_specific`, if any: its path and its
      directives, when it can be read and has at least one hero image. */
  function PageEntry(page: SourceFile, srcsIn: SrcsIn, rule: HrefRule): Option<(string, seq<Directive>)> {
    match page.content
    case None => None
    case Some(c) =>
      var ds := PageDirectives(srcsIn(c), page.rel, rule);
      if |ds| > 0 then Some((page.rel, ds)) else None
  }

  /** `page_specific`: each readable page with at least one hero image,
      with its directives, pages in order. */
  function PageSpecific(pages: seq<SourceFile>, srcsIn: SrcsIn, rule: HrefRule): (r: seq<(string, seq<Directive>)>)
    ensures forall i :: 0 <= i < |r| ==> |r[i].1| > 0
    ensures |r| <= |pages|
    ensures forall i :: 0 <= i < |r| ==> exists j :: 0 <= j < |pages| && PageEntry(pages[j], srcsIn, rule) == Some(r[i])
    ensures forall j :: 0 <= j < |pages| && PageEntry(pages[j], srcsIn, rule).Some? ==> PageEntry(pages[j], srcsIn, rule).value in r
    decreases |pages|
  {
    if |pages| == 0 then []
    else
      var rest := PageSpecific(pages[1..], srcsIn, rule);
      var head := match PageEntry(pages[0], srcsIn, rule) case None => [] case Some(e) => [e];
      PageSpecificStep(pages, srcsIn, rule, head, rest);
      head + rest
  }

  lemma PageSpecificStep(pages: seq<SourceFile>, srcsIn: SrcsIn, rule: HrefRule, head: seq<(string, seq<Directive>)>, rest: seq<(string, seq<Directive>)>)
    requires |pages| > 0
    requires head == match PageEntry(pages[0], srcsIn, rule) case None => [] case Some(e) => [e]
    requires forall i :: 0 <= i < |rest| ==> exists j :: 0 <= j < |pages[1..]| && PageEntry(pages[1..][j], srcsIn, rule) == Some(rest[i])
    requires forall j :: 0 <= j < |pages[1..]| && PageEntry(pages[1..][j], srcsIn, rule).Some? ==> PageEntry(pages[1..][j], srcsIn, rule).value in rest
    ensures forall i :: 0 <= i < |head + rest| ==> exists j :: 0 <= j < |pages| && PageEntry(pages[j], srcsIn, rule) == Some((head + rest)[i])
    ensures forall j :: 0 <= j < |pages| && PageEntry(pages[j], srcsIn, rule).Some? ==> PageEntry(pages[j], srcsIn, rule).value in head + rest
  {
    forall i | 0 <= i < |head + rest|
      ensures exists j :: 0 <= j < |pages| && PageEntry(pages[j], srcsIn, rule) == Some((head + rest)[i])
    {
      if i < |head| {
        assert PageEntry(pages[0], srcsIn, rule) == Some((head + rest)[i]);
      } else {
        assert (head + rest)[i] == rest[i - |head|];
        var j :| 0 <= j < |pages[1..]| && PageEntry(pages[1..][j], srcsIn, rule) == Some(rest[i - |head|]);
        assert pages[1..][j] == pages[j + 1];
      }
    }
    forall j | 0 <= j < |pages| && PageEntry(pages[j], srcsIn, rule).Some?
      ensures PageEntry(pages[j], srcsIn, rule).value in head + rest
    {
      if j > 0 {
        assert pages[1..][j - 1] == pages[j];
      }
    }
  }

  datatype Summary = Summary(total: nat, layoutScope: nat, pageScope: nat, fonts: nat, images: nat)

  function CountScope(ds: seq<Directive>, s: Scope): (n: nat)
    ensures n <= |ds|
    decreases |ds|
  {
    if |ds| == 0 then 0 else (if ds[0].scope == s then 1 else 0) + CountScope(ds[1..], s)
  }

  function CountAs(ds: seq<Directive>, t: AsType): (n: nat)
    ensures n <= |ds|
    decreases |ds|
  {
    if |ds| == 0 then 0 else (if ds[0].asType == t then 1 else 0) + CountAs(ds[1..], t)
  }

  /** The positions of the directives of one scope, and of one type: what
      the `len([p for p in all_preloads if ...])` expressions count. */
  function WithScope(ds: seq<Directive>, s: Scope): set<nat> {
    set i: nat | i < |ds| && ds[i].scope == s
  }

  function WithAs(ds: seq<Directive>, t: AsType): set<nat> {
    set i: nat | i < |ds| && ds[i].asType == t
  }

  lemma {:induction false} CountScopeSnoc(ds: seq<Directive>, d: Directive, s: Scope)
    ensures CountScope(ds + [d], s) == CountScope(ds, s) + (if d.scope == s then 1 else 0)
    decreases |ds|
  {
    if |ds| > 0 {
      assert (ds + [d])[1..] == ds[1..] + [d];
      CountScopeSnoc(ds[1..], d, s);
    } else {
      assert ds + [d] == [d];
    }
  }

  lemma {:induction false} CountAsSnoc(ds: seq<Directive>, d: Directive, t: AsType)
    ensures CountAs(ds + [d], t) == CountAs(ds, t) + (if d.asType == t then 1 else 0)
    decreases |ds|
  {
    if |ds| > 0 {
      assert (ds + [d])[1..] == ds[1..] + [d];
      CountAsSnoc(ds[1..], d, t);
    } else {
      assert ds + [d] == [d];
    }
  }

  /** Each scope count is the number of directives of that scope. */
  lemma {:induction false} CountScopeIsCard(ds: seq<Directive>, s: Scope)
    ensures CountScope(ds, s) == |WithScope(ds, s)|
    decreases |ds|
  {
    if |ds| > 0 {
      var n := |ds| - 1;
      CountScopeIsCard(ds[..n], s);
      CountScopeSnoc(ds[..n], ds[n], s);
      assert ds[..n] + [ds[n]] == ds;
      var a := WithScope(ds[..n], s);
      assert forall i: nat :: i in a <==> i < n && ds[i].scope == s;
      Firsts.CardStep(a, WithScope(ds, s), n, ds[n].scope == s);
    }
  }

  /** Each type count is the number of directives of that type. */
  lemma {:induction false} CountAsIsCard(ds: seq<Directive>, t: AsType)
    ensures CountAs(ds, t) == |WithAs(ds, t)|
    decreases |ds|
  {
    if |ds| > 0 {
      var n := |ds| - 1;
      CountAsIsCard(ds[..n], t);
      CountAsSnoc(ds[..n], ds[n], t);
      assert ds[..n] + [ds[n]] == ds;
      var a := WithAs(ds[..n], t);
      assert forall i: nat :: i in a <==> i < n && ds[i].asType == t;
      Firsts.CardStep(a, WithAs(ds, t), n, ds[n].asType == t);
    }
  }

  lemma {:induction false} CountsSplit(ds: seq<Directive>)
    ensures CountScope(ds, Layout) + CountScope(ds, Page) == |ds|
    ensures CountAs(ds, Font) + CountAs(ds, Image) == |ds|
    decreases |ds|
  {
    if |ds| > 0 {
      CountsSplit(ds[1..]);
    }
  }

  datatype Result = Result(preloads: seq<Directive>, pageSpecific: seq<(string, seq<Directive>)>, html: Html, summary: Summary)

  /** analyze_project. The page hero images get the source's href rule. */
  function AnalyzeProject(inp: Inputs): (r: Result)
    ensures r.preloads == CssDirectives(inp.styles, inp.urlsIn, inp.resolve, inp.rulesIn)
    ensures r.pageSpecific == PageSpecific(inp.pages, inp.srcsIn, AsWritten)
    ensures r.html == GenerateHtml(r.preloads)
    ensures r.summary.total == |r.preloads|
    ensures r.summary.layoutScope == |WithScope(r.preloads, Layout)|
    ensures r.summary.pageScope == |WithScope(r.preloads, Page)|
    ensures r.summary.fonts == |WithAs(r.preloads, Font)|
    ensures r.summary.images == |WithAs(r.preloads, Image)|
    ensures r.summary.layoutScope + r.summary.pageScope == r.summary.total
    ensures r.summary.fonts + r.summary.images == r.summary.total
    ensures r.summary.fonts <= r.summary.layoutScope
    ensures FontsAreLayout(r.preloads)
    ensures var kept := Firsts.Dedup(r.preloads, HrefOf);
      |ScopeTags(kept, Layout)| + |ScopeTags(kept, Page)| <= r.summary.total
  {
    var all := CssDirectives(inp.styles, inp.urlsIn, inp.resolve, inp.rulesIn);
    CountsSplit(all);
    CountScopeIsCard(all, Layout);
    CountScopeIsCard(all, Page);
    CountAsIsCard(all, Font);
    CountAsIsCard(all, Image);
    CssFontsAreLayout(inp.styles, inp.urlsIn, inp.resolve, inp.rulesIn);
    FontsWithinLayout(all);
    HtmlCoversHrefs(all);
    Result(all, PageSpecific(inp.pages, inp.srcsIn, AsWritten), GenerateHtml(all),
      Summary(|all|, CountScope(all, Layout), CountScope(all, Page), CountAs(all, Font), CountAs(all, Image)))
  }

  /** The page hero images never reach the generated tags: the HTML is the
      same whatever the pages hold. */
  lemma HtmlIgnoresPages(inp: Inputs, pages: seq<SourceFile>, srcsIn: SrcsIn)
    ensures AnalyzeProject(inp).html == AnalyzeProject(inp.(pages := pages, srcsIn := srcsIn)).html
  {
  }

  /** The generated tags: one per distinct href among the directives, each
      in the group of its directive's scope. */
  lemma HtmlCoversHrefs(ds: seq<Directive>)
    ensures var kept := Firsts.Dedup(ds, HrefOf);
      |ScopeTags(kept, Layout)| + |ScopeTags(kept, Page)| == |kept| <= |ds|
      && Firsts.Distinct(kept, HrefOf) && Firsts.Keys(kept, HrefOf) == Firsts.Keys(ds, HrefOf)
  {
    ScopesSplit(Firsts.Dedup(ds, HrefOf));
  }
}
