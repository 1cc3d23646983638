/**
 The third-party origin scanner of analyze_preconnect in analyze.py: the
 case-sensitive pattern `https?://[a-zA-Z0-9][a-zA-Z0-9-]*\.[a-zA-Z]{2,}`,
 the localhost filter, and the `split('/')` rebuild of each origin.

 The pattern's label part cannot hold a `.`, so Python's backtracking can
 only settle on the longest run of label characters, and the top-level
 domain is the longest run of letters after the dot.
 */
module Origins {
  import opened Text
  import opened Matchers

  predicate IsLetter(c: char) {
    'a' <= c <= 'z' || 'A' <= c <= 'Z'
  }

  predicate IsAlnum(c: char) {
    IsLetter(c) || '0' <= c <= '9'
  }

  /** `[a-zA-Z0-9-]` */
  predicate IsLabelChar(c: char) {
    IsAlnum(c) || c == '-'
  }

  /** First index at or after `from` that is not a label character. */
  function LabelRunEnd(s: string, from: nat): (r: nat)
    requires from <= |s|
    ensures from <= r <= |s|
    ensures forall k :: from <= k < r ==> IsLabelChar(s[k])
    ensures r < |s| ==> !IsLabelChar(s[r])
    decreases |s| - from
  {
    if from == |s| || !IsLabelChar(s[from]) then from else LabelRunEnd(s, from + 1)
  }

  /** First index at or after `from` that is not a letter. */
  function LetterRunEnd(s: string, from: nat): (r: nat)
    requires from <= |s|
    ensures from <= r <= |s|
    ensures forall k :: from <= k < r ==> IsLetter(s[k])
    ensures r < |s| ==> !IsLetter(s[r])
    decreases |s| - from
  {
    if from == |s| || !IsLetter(s[from]) then from else LetterRunEnd(s, from + 1)
  }

  /** `https?://`: the length of the scheme at the head of `s`. */
  function SchemeLength(s: string): (r: Option<nat>)
    ensures r.Some? ==> (r.value == 8 && StartsAt(s, 0, "https://")) || (r.value == 7 && StartsAt(s, 0, "http://"))
    ensures r.None? ==> !StartsAt(s, 0, "https://") && !StartsAt(s, 0, "http://")
  {
    if StartsAt(s, 0, "https://") then Some(8)
    else if StartsAt(s, 0, "http://") then Some(7)
    else None
  }

  /** Where an origin that starts at the head of `s` ends (its last
      character), if one does. */
  function OriginEnd(s: string): (r: Option<nat>)
    ensures r.Some? ==> r.value < |s|
  {
    match SchemeLength(s)
    case None => None
    case Some(h) =>
      if h < |s| && IsAlnum(s[h]) then
        var d := LabelRunEnd(s, h + 1);
        if d < |s| && s[d] == '.' then
          var e := LetterRunEnd(s, d + 1);
          if e >= d + 3 then Some(e - 1) else None
        else None
      else None
  }

  function FindOrigin(): (m: Matcher)
    ensures Advances(m)
  {
    s => OriginEnd(s)
  }

  // ----- what an origin is ---------------------------------------------------------

  predicate AllLabelChars(w: string) {
    forall k :: 0 <= k < |w| ==> IsLabelChar(w[k])
  }

  predicate AllLetters(w: string) {
    forall k :: 0 <= k < |w| ==> IsLetter(w[k])
  }

  /** A host the pattern accepts: one label that starts with a letter or
      digit, one dot, and a top-level domain of two or more letters. */
  predicate IsHost(h: string) {
    var parts := Split(h, '.');
    |parts| == 2 && |parts[0]| > 0 && IsAlnum(parts[0][0]) && AllLabelChars(parts[0])
    && |parts[1]| >= 2 && AllLetters(parts[1])
  }

  predicate IsOrigin(o: string) {
    (StartsAt(o, 0, "https://") && IsHost(o[8..])) || (StartsAt(o, 0, "http://") && IsHost(o[7..]))
  }

  /** The host of a label and a top-level domain joined by a dot. */
  lemma HostOfParts(name: string, tld: string)
    requires |name| > 0 && IsAlnum(name[0]) && AllLabelChars(name)
    requires |tld| >= 2 && AllLetters(tld)
    ensures IsHost(name + "." + tld)
    ensures '/' !in name + "." + tld
  {
    assert '.' !in name by {
      forall k | 0 <= k < |name| ensures name[k] != '.' {
        assert IsLabelChar(name[k]);
      }
    }
    assert '.' !in tld by {
      forall k | 0 <= k < |tld| ensures tld[k] != '.' {
        assert IsLetter(tld[k]);
      }
    }
    assert Join([name, tld], '.') == name + "." + tld;
    SplitJoin([name, tld], '.');
    var h := name + "." + tld;
    forall k | 0 <= k < |h| ensures h[k] != '/' {
      if k < |name| {
        assert h[k] == name[k] && IsLabelChar(name[k]);
      } else if k > |name| {
        assert h[k] == tld[k - |name| - 1] && IsLetter(tld[k - |name| - 1]);
      }
    }
  }

  /** Every match of the scanner is an origin, and one that cannot be made
      longer: the character after it is not a letter. */
  lemma OriginEndIsOrigin(s: string)
    requires OriginEnd(s).Some?
    ensures IsOrigin(s[..OriginEnd(s).value + 1])
    ensures '/' !in s[SchemeLength(s).value..OriginEnd(s).value + 1]
    ensures OriginEnd(s).value + 1 < |s| ==> !IsLetter(s[OriginEnd(s).value + 1])
  {
    var h, d, e := OriginEndParts(s);
    HostSlice(s, h, d, e);
    SchemeHead(s, h, e);
  }

  /** The scheme length, the dot and the end the scanner settles on. */
  lemma OriginEndParts(s: string) returns (h: nat, d: nat, e: nat)
    requires OriginEnd(s).Some?
    ensures SchemeLength(s) == Some(h) && OriginEnd(s) == Some(e - 1)
    ensures h < d < e <= |s| && d + 3 <= e && IsAlnum(s[h]) && s[d] == '.'
    ensures forall k :: h < k < d ==> IsLabelChar(s[k])
    ensures forall k :: d < k < e ==> IsLetter(s[k])
    ensures e < |s| ==> !IsLetter(s[e])
  {
    h := SchemeLength(s).value;
    d := LabelRunEnd(s, h + 1);
    e := LetterRunEnd(s, d + 1);
  }

  /** The runs the scanner reads make a host. */
  lemma HostSlice(s: string, h: nat, d: nat, e: nat)
    requires h < d < e <= |s| && d + 3 <= e && IsAlnum(s[h]) && s[d] == '.'
    requires forall k :: h < k < d ==> IsLabelChar(s[k])
    requires forall k :: d < k < e ==> IsLetter(s[k])
    ensures IsHost(s[h..e]) && '/' !in s[h..e]
  {
    var name, tld := s[h..d], s[d + 1..e];
    assert forall k :: 0 <= k < |name| ==> name[k] == s[h + k];
    assert forall k :: 0 <= k < |tld| ==> tld[k] == s[d + 1 + k];
    HostOfParts(name, tld);
    assert s[h..e] == name + "." + tld;
  }

  /** A scheme the scanner read, followed by a host, is an origin. */
  lemma SchemeHead(s: string, h: nat, e: nat)
    requires SchemeLength(s) == Some(h) && h < e <= |s| && IsHost(s[h..e])
    ensures IsOrigin(s[..e])
  {
    var o := s[..e];
    assert o[..h] == s[..h];
    assert o[h..] == s[h..e];
  }

  /** The scanner finds an origin exactly where the text starts with one
      that is followed by no further letter. */
  lemma OriginEndComplete(s: string, n: nat)
    requires 0 < n <= |s| && IsOrigin(s[..n]) && (n < |s| ==> !IsLetter(s[n]))
    ensures OriginEnd(s) == Some(n - 1)
  {
    var h := SchemeOfOrigin(s, n);
    var d := HostRuns(s, h, n);
  }

  /** The scheme of an origin at the head of a text is the one the scanner
      reads there. */
  lemma SchemeOfOrigin(s: string, n: nat) returns (h: nat)
    requires 0 < n <= |s| && IsOrigin(s[..n])
    ensures h < n && SchemeLength(s) == Some(h) && IsHost(s[h..n])
  {
    var o := s[..n];
    h := if StartsAt(o, 0, "https://") then 8 else 7;
    assert s[..h] == o[..h];
    assert h == 7 ==> s[4] == o[4] == ':';
    assert o[h..] == s[h..n];
  }

  /** Over a host that is followed by no further letter the label run ends
      at its dot and the letter run at its end. Returns the dot. */
  lemma HostRuns(s: string, h: nat, n: nat) returns (d: nat)
    requires h < n <= |s| && IsHost(s[h..n]) && (n < |s| ==> !IsLetter(s[n]))
    ensures IsAlnum(s[h]) && d < |s| && s[d] == '.' && LabelRunEnd(s, h + 1) == d
    ensures d + 3 <= n && LetterRunEnd(s, d + 1) == n
  {
    var host := s[h..n];
    var parts := Split(host, '.');
    HostShape(host);
    d := h + |parts[0]|;
    assert s[h] == host[0] == parts[0][0];
    assert host[|parts[0]|] == '.';
    forall k | h + 1 <= k < d ensures IsLabelChar(s[k]) {
      assert s[k] == host[k - h] == parts[0][k - h];
    }
    LabelRunEndAt(s, h + 1, d);
    forall k | d + 1 <= k < n ensures IsLetter(s[k]) {
      assert s[k] == host[k - h] == parts[1][k - d - 1];
    }
    LetterRunEndAt(s, d + 1, n);
  }

  /** A host is its label, a dot and its top-level domain. */
  lemma HostShape(host: string)
    requires IsHost(host)
    ensures var parts := Split(host, '.');
      host == parts[0] + "." + parts[1]
  {
    var parts := Split(host, '.');
    var k := FindFrom(host, {'.'}, 0).value;
    var rest := host[k + 1..];
    assert parts == [host[..k]] + Split(rest, '.');
    assert Split(rest, '.') == [rest];
    assert host == host[..k] + "." + rest;
  }

  lemma LabelRunEndAt(s: string, from: nat, d: nat)
    requires from <= d < |s| && !IsLabelChar(s[d])
    requires forall k :: from <= k < d ==> IsLabelChar(s[k])
    ensures LabelRunEnd(s, from) == d
    decreases d - from
  {
    if from < d {
      LabelRunEndAt(s, from + 1, d);
    }
  }

  lemma LetterRunEndAt(s: string, from: nat, e: nat)
    requires from <= e <= |s| && (e < |s| ==> !IsLetter(s[e]))
    requires forall k :: from <= k < e ==> IsLetter(s[k])
    ensures LetterRunEnd(s, from) == e
    decreases e - from
  {
    if from < e {
      LetterRunEndAt(s, from + 1, e);
    }
  }

  // ----- the filter and the rebuild -----------------------------------------------

  /** `origin.split('/')[0] + '//' + origin.split('/')[2]` */
  function Rebuild(o: string): (r: string)
  {
    var parts := Split(o, '/');
    if |parts| >= 3 then parts[0] + "//" + parts[2] else []
  }

  /** The rebuild gives every origin back unchanged. */
  lemma RebuildKeepsOrigin(o: string)
    requires IsOrigin(o)
    ensures Rebuild(o) == o
  {
    var scheme, host := SchemeOf(o);
    HostHasNoSlash(host);
    RebuildOf(scheme, host);
  }

  /** An origin is `https:` or `http:`, `//`, and a host. */
  lemma SchemeOf(o: string) returns (scheme: string, host: string)
    requires IsOrigin(o)
    ensures scheme == "https:" || scheme == "http:"
    ensures o == scheme + "//" + host && IsHost(host)
  {
    var h := if StartsAt(o, 0, "https://") then 8 else 7;
    scheme, host := o[..h - 2], o[h..];
    assert o[..h] == scheme + "//";
    assert o == o[..h] + o[h..];
  }

  lemma HostHasNoSlash(host: string)
    requires IsHost(host)
    ensures '/' !in host
  {
    HostShape(host);
    var parts := Split(host, '.');
    HostOfParts(parts[0], parts[1]);
  }

  /** `split('/')` of a slash-free scheme, `//` and a slash-free host gives
      the scheme, an empty part and the host. */
  lemma RebuildOf(scheme: string, host: string)
    requires '/' !in scheme && '/' !in host
    ensures Rebuild(scheme + "//" + host) == scheme + "//" + host
  {
    var o := scheme + "//" + host;
    assert Join([host], '/') == host;
    assert Join(["", host], '/') == "/" + host;
    assert Join([scheme, "", host], '/') == o;
    SplitJoin([scheme, "", host], '/');
  }

  /** A text holding `w` holds at least as many of each character. */
  lemma CountContains(s: string, w: string, c: char)
    requires Contains(s, w)
    ensures Count(s, c) >= Count(w, c)
  {
    var i := ContainsHasWitness(s, w);
    assert s == s[..i] + w + s[i + |w|..];
    CountConcat(s[..i] + w, s[i + |w|..], c);
    CountConcat(s[..i], w, c);
  }

  /** An origin holds exactly one dot. */
  lemma OriginDots(o: string)
    requires IsOrigin(o)
    ensures Count(o, '.') == 1
  {
    var scheme, host := SchemeOf(o);
    HostDots(host);
    SchemeHasNoDot(scheme + "//");
    CountConcat(scheme + "//", host, '.');
  }

  lemma SchemeHasNoDot(head: string)
    requires head == "https://" || head == "http://"
    ensures Count(head, '.') == 0
  {
    CountAbsent(head, '.');
  }

  lemma HostDots(host: string)
    requires IsHost(host)
    ensures Count(host, '.') == 1
  {
    var parts := Split(host, '.');
    assert |parts| == 2;
  }

  lemma LoopbackDots()
    ensures Count("127.0.0.1", '.') == 3
  {
    assert "127.0.0.1"[1..] == "27.0.0.1";
    assert "27.0.0.1"[1..] == "7.0.0.1";
    assert "7.0.0.1"[1..] == ".0.0.1";
    assert ".0.0.1"[1..] == "0.0.1";
    assert "0.0.1"[1..] == ".0.1";
    assert ".0.1"[1..] == "0.1";
    assert "0.1"[1..] == ".1";
    assert ".1"[1..] == "1";
    assert "1"[1..] == "";
  }

  /** An origin has one dot, so the loopback address never occurs in one:
      of the two exclusions only `localhost` can drop an origin. */
  lemma NoLoopbackInOrigin(o: string)
    requires IsOrigin(o)
    ensures !Contains(o, "127.0.0.1")
  {
    OriginDots(o);
    LoopbackDots();
    if Contains(o, "127.0.0.1") {
      CountContains(o, "127.0.0.1", '.');
    }
  }

  /** A match of the scanner at `o.start` in `content`. */
  predicate IsMatch(content: string, o: Occurrence) {
    StartsAt(content, o.start, o.text) && OriginEnd(content[o.start..]) == Some(|o.text| - 1)
  }

  /** `re.findall` with the origin pattern: its matches, left to right. */
  function Matches(content: string): (os: seq<Occurrence>)
    ensures forall i :: 0 <= i < |os| ==> IsMatch(content, os[i])
  {
    var m := FindOrigin();
    var os := Occurrences(m, content);
    forall i | 0 <= i < |os|
      ensures IsMatch(content, os[i])
    {
      OccurrenceIsMatch(content, os[i], m);
    }
    os
  }

  lemma OccurrenceIsMatch(content: string, o: Occurrence, m: Matcher)
    requires m == FindOrigin()
    requires StartsAt(content, o.start, o.text) && m(content[o.start..]) == Some(|o.text| - 1)
    ensures IsMatch(content, o)
  {
  }

  /** The origins one file contributes: every match that holds no
      `localhost`, rebuilt. */
  function FileOrigins(content: string): (r: set<string>)
    ensures forall o :: o in r ==> IsOrigin(o) && !Contains(o, "localhost")
  {
    var os := Matches(content);
    MatchesAreOrigins(content);
    set i | 0 <= i < |os| && !Contains(os[i].text, "localhost") && !Contains(os[i].text, "127.0.0.1")
      :: Rebuild(os[i].text)
  }

  /** The rebuild keeps a match as it is, and no match holds `127.0.0.1`,
      so a file's origins are exactly its matched texts without
      `localhost`. */
  lemma FileOriginsExact(content: string)
    ensures forall o :: o in FileOrigins(content) ==>
      exists i :: 0 <= i < |Matches(content)| && Matches(content)[i].text == o
    ensures forall i :: 0 <= i < |Matches(content)| && !Contains(Matches(content)[i].text, "localhost") ==>
      Matches(content)[i].text in FileOrigins(content)
  {
    var os := Matches(content);
    MatchesAreOrigins(content);
    forall i | 0 <= i < |os| && !Contains(os[i].text, "localhost")
      ensures os[i].text in FileOrigins(content)
    {
      NoLoopbackInOrigin(os[i].text);
    }
  }

  lemma MatchesAreOrigins(content: string)
    ensures var os := Matches(content);
      forall i :: 0 <= i < |os| ==> IsOrigin(os[i].text) && Rebuild(os[i].text) == os[i].text
  {
    var os := Matches(content);
    forall i | 0 <= i < |os|
      ensures IsOrigin(os[i].text) && Rebuild(os[i].text) == os[i].text
    {
      MatchIsOrigin(content, os[i]);
    }
  }

  lemma MatchIsOrigin(content: string, occ: Occurrence)
    requires IsMatch(content, occ)
    ensures IsOrigin(occ.text)
    ensures Rebuild(occ.text) == occ.text
  {
    var s := content[occ.start..];
    OriginEndIsOrigin(s);
    assert s[..|occ.text|] == occ.text;
    RebuildKeepsOrigin(occ.text);
  }
}
