/**
 Text primitives shared by the optimizer scripts: Python's `str.lower`,
 `in`, `str.split`, `str.join`, `str.strip`, slicing and counting, restricted
 to ASCII text. Strings are `seq<char>`.
 */
module Text {

  datatype Option<T> = None | Some(value: T)

  /** The two quote characters accepted by the scripts' `["\']` classes. */
  const Quotes: set<char> := {'"', '\''}

  /** ASCII case folding, as `str.lower` on ASCII text. */
  function LowerChar(c: char): char {
    if 'A' <= c <= 'Z' then (c as int + 32) as char else c
  }

  function Lower(s: string): (r: string)
    ensures |r| == |s|
    ensures forall i :: 0 <= i < |s| ==> r[i] == LowerChar(s[i])
  {
    seq(|s|, i requires 0 <= i < |s| => LowerChar(s[i]))
  }

  /** A string whose letters are all lower case. */
  predicate IsLowerText(w: string) {
    forall k :: 0 <= k < |w| ==> LowerChar(w[k]) == w[k]
  }

  /** Python's `\s` and `str.isspace` on ASCII: space, \t \n \v \f \r and the
      four separators \x1c-\x1f. */
  predicate IsSpace(c: char) {
    var n := c as int;
    n == 32 || 9 <= n <= 13 || 28 <= n <= 31
  }

  /** `w` occurs in `s` at offset `i` (case-sensitive). */
  predicate StartsAt(s: string, i: int, w: string) {
    0 <= i && i + |w| <= |s| && s[i..i + |w|] == w
  }

  /** `w` (lower case) occurs in `s` at offset `i`, ignoring ASCII case. */
  predicate StartsWithCI(s: string, i: int, w: string) {
    0 <= i && i + |w| <= |s| && forall k :: 0 <= k < |w| ==> LowerChar(s[i + k]) == w[k]
  }

  /** Python's `w in s`. */
  predicate Contains(s: string, w: string)
    decreases |s|
  {
    StartsAt(s, 0, w) || (|s| > |w| && Contains(s[1..], w))
  }

  lemma {:induction false} ContainsFromWitness(s: string, w: string, i: int)
    requires StartsAt(s, i, w)
    ensures Contains(s, w)
    decreases i
  {
    if i > 0 {
      assert s[1..][i - 1..i - 1 + |w|] == s[i..i + |w|];
      ContainsFromWitness(s[1..], w, i - 1);
    }
  }

  lemma {:induction false} ContainsHasWitness(s: string, w: string) returns (i: nat)
    requires Contains(s, w)
    ensures StartsAt(s, i, w)
    decreases |s|
  {
    if StartsAt(s, 0, w) {
      i := 0;
    } else {
      var j := ContainsHasWitness(s[1..], w);
      assert s[1..][j..j + |w|] == s[j + 1..j + 1 + |w|];
      i := j + 1;
    }
  }

  /** `w in a + m + z` whenever `w in m`. */
  lemma ContainsInMiddle(a: string, m: string, z: string, w: string)
    requires Contains(m, w)
    ensures Contains(a + m + z, w)
  {
    var i := ContainsHasWitness(m, w);
    assert (a + m + z)[|a| + i..|a| + i + |w|] == m[i..i + |w|];
    ContainsFromWitness(a + m + z, w, |a| + i);
  }

  /** Every occurrence in a slice is an occurrence in the whole string. */
  lemma ContainsInSlice(s: string, lo: int, hi: int, w: string)
    requires 0 <= lo <= hi <= |s|
    requires Contains(s[lo..hi], w)
    ensures Contains(s, w)
  {
    var i := ContainsHasWitness(s[lo..hi], w);
    var t := s[lo..hi];
    assert forall k :: 0 <= k < |w| ==> w[k] == t[i + k] == s[lo + i + k];
    assert s[lo + i..lo + i + |w|] == w;
    ContainsFromWitness(s, w, lo + i);
  }

  /** A case-sensitive occurrence of a lower-case word survives lowering. */
  lemma ContainsLowered(s: string, w: string)
    requires IsLowerText(w) && Contains(s, w)
    ensures Contains(Lower(s), w)
  {
    var i := ContainsHasWitness(s, w);
    assert Lower(s)[i..i + |w|] == w;
    ContainsFromWitness(Lower(s), w, i);
  }

  /** Lowering commutes with concatenation. */
  lemma LowerConcat(a: string, b: string)
    ensures Lower(a + b) == Lower(a) + Lower(b)
  {
  }

  /** Lowering is the identity on lower-case text. */
  lemma LowerOfLowerText(w: string)
    requires IsLowerText(w)
    ensures Lower(w) == w
  {
  }

  /** Python's `any(w in s for w in ws)`. */
  predicate ContainsAny(s: string, ws: seq<string>) {
    exists k :: 0 <= k < |ws| && Contains(s, ws[k])
  }

  /** First index at or after `from` whose character is in `cs`. */
  function FindFrom(s: string, cs: set<char>, from: nat): (r: Option<nat>)
    ensures r.Some? ==> from <= r.value < |s| && s[r.value] in cs
    ensures r.Some? ==> forall k :: from <= k < r.value ==> s[k] !in cs
    ensures r.None? ==> forall k :: from <= k < |s| ==> s[k] !in cs
    decreases |s| - from
  {
    if from >= |s| then None
    else if s[from] in cs then Some(from)
    else FindFrom(s, cs, from + 1)
  }

  /** The search only depends on the characters it reads. */
  lemma FindFromAgrees(s: string, t: string, cs: set<char>, from: nat, upto: nat)
    requires upto <= |s| && upto <= |t| && s[..upto] == t[..upto]
    requires FindFrom(s, cs, from).Some? && FindFrom(s, cs, from).value < upto
    ensures FindFrom(t, cs, from) == FindFrom(s, cs, from)
  {
    var e := FindFrom(s, cs, from).value;
    assert forall k :: from <= k <= e ==> t[k] == s[..upto][k];
    var r := FindFrom(t, cs, from);
    if r.None? || r.value != e {
      assert false;
    }
  }

  /** The search result from the characters it passes over. */
  lemma {:induction false} FindFromIs(s: string, cs: set<char>, from: nat, r: nat)
    requires from <= r < |s| && s[r] in cs
    requires forall k :: from <= k < r ==> s[k] !in cs
    ensures FindFrom(s, cs, from) == Some(r)
  {
  }

  /** First index at or after `from` that is not whitespace (or `|s|`). */
  function SkipSpace(s: string, from: nat): (r: nat)
    requires from <= |s|
    ensures from <= r <= |s|
    ensures forall k :: from <= k < r ==> IsSpace(s[k])
    ensures r < |s| ==> !IsSpace(s[r])
    decreases |s| - from
  {
    if from == |s| || !IsSpace(s[from]) then from else SkipSpace(s, from + 1)
  }

  /** Python's `s.count(c)` for one character. */
  function Count(s: string, c: char): (n: nat)
    ensures n <= |s|
    decreases |s|
  {
    if |s| == 0 then 0 else (if s[0] == c then 1 else 0) + Count(s[1..], c)
  }

  lemma {:induction false} CountConcat(a: string, b: string, c: char)
    ensures Count(a + b, c) == Count(a, c) + Count(b, c)
    decreases |a|
  {
    if |a| > 0 {
      assert (a + b)[1..] == a[1..] + b;
      assert (a + b)[0] == a[0];
      CountConcat(a[1..], b, c);
    } else {
      assert a + b == b;
    }
  }

  lemma {:induction false} CountAbsent(s: string, c: char)
    requires forall k :: 0 <= k < |s| ==> s[k] != c
    ensures Count(s, c) == 0
    decreases |s|
  {
    if |s| > 0 {
      CountAbsent(s[1..], c);
    }
  }

  /** Python's `s[:n]` (slicing clips to the length). */
  function Take(s: string, n: nat): (r: string)
    ensures |r| == if n < |s| then n else |s|
    ensures r == s[..|r|]
  {
    if n < |s| then s[..n] else s
  }

  /** Python's `s.split(c)` for a one-character separator. */
  function Split(s: string, c: char): (r: seq<string>)
    ensures |r| == Count(s, c) + 1
    ensures forall i :: 0 <= i < |r| ==> c !in r[i]
    decreases |s|
  {
    match FindFrom(s, {c}, 0)
    case None =>
      CountAbsent(s, c);
      [s]
    case Some(k) =>
      assert s == s[..k] + [c] + s[k + 1..];
      CountConcat(s[..k] + [c], s[k + 1..], c);
      CountConcat(s[..k], [c], c);
      CountAbsent(s[..k], c);
      [s[..k]] + Split(s[k + 1..], c)
  }

  /** Python's `sep.join(xs)` for a one-character separator. */
  function Join(xs: seq<string>, sep: char): (r: string)
    ensures |xs| == 0 ==> r == []
    ensures |xs| > 0 ==> Count(r, sep) >= |xs| - 1
    decreases |xs|
  {
    if |xs| == 0 then []
    else if |xs| == 1 then xs[0]
    else
      var rest := Join(xs[1..], sep);
      CountConcat(xs[0] + [sep], rest, sep);
      CountConcat(xs[0], [sep], sep);
      xs[0] + [sep] + rest
  }

  /** Every part of a join occurs in the joined text. */
  lemma {:induction false} JoinHoldsParts(xs: seq<string>, sep: char)
    ensures forall i :: 0 <= i < |xs| ==> Contains(Join(xs, sep), xs[i])
    decreases |xs|
  {
    if |xs| == 1 {
      ContainsFromWitness(xs[0], xs[0], 0);
    } else if |xs| > 1 {
      var rest := Join(xs[1..], sep);
      var j := Join(xs, sep);
      JoinHoldsParts(xs[1..], sep);
      assert j == xs[0] + [sep] + rest + [];
      forall i | 0 <= i < |xs| ensures Contains(j, xs[i]) {
        if i == 0 {
          assert j[0..|xs[0]|] == xs[0];
          ContainsFromWitness(j, xs[0], 0);
        } else {
          assert xs[1..][i - 1] == xs[i];
          ContainsInMiddle(xs[0] + [sep], rest, [], xs[i]);
        }
      }
    }
  }

  /** Joining with a separator that no part contains, then splitting on it,
      gives the parts back. */
  lemma {:induction false} SplitJoin(xs: seq<string>, sep: char)
    requires |xs| > 0
    requires forall i :: 0 <= i < |xs| ==> sep !in xs[i]
    ensures Split(Join(xs, sep), sep) == xs
    decreases |xs|
  {
    if |xs| > 1 {
      var j := Join(xs, sep);
      var rest := Join(xs[1..], sep);
      assert j == xs[0] + [sep] + rest;
      assert j[|xs[0]|] == sep;
      assert forall k :: 0 <= k < |xs[0]| ==> j[k] == xs[0][k];
      assert FindFrom(j, {sep}, 0) == Some(|xs[0]|);
      assert j[..|xs[0]|] == xs[0];
      assert j[|xs[0]| + 1..] == rest;
      SplitJoin(xs[1..], sep);
    } else {
      assert FindFrom(xs[0], {sep}, 0).None?;
    }
  }

  /** `r` is `s` with the whitespace before offset `lo` and the whitespace
      after `r` taken away. */
  predicate TrimmedAt(s: string, lo: int, r: string) {
    0 <= lo && lo + |r| <= |s| && s[lo..lo + |r|] == r
    && (forall k :: 0 <= k < lo ==> IsSpace(s[k]))
    && (forall k :: lo + |r| <= k < |s| ==> IsSpace(s[k]))
  }

  /** Python's `s.strip()`: drop leading and trailing whitespace. */
  function Strip(s: string): (r: string)
    ensures |r| <= |s|
    ensures |r| > 0 ==> !IsSpace(r[0]) && !IsSpace(r[|r| - 1])
    ensures exists lo :: TrimmedAt(s, lo, r)
    ensures Contains(s, r)
  {
    var lo := SkipSpace(s, 0);
    var hi := TrimEnd(s, lo, |s|);
    assert StartsAt(s, lo, s[lo..hi]);
    ContainsFromWitness(s, s[lo..hi], lo);
    assert TrimmedAt(s, lo, s[lo..hi]);
    s[lo..hi]
  }

  /** Only one trimming starts and ends with a non-space character (or is
      empty), and it is what `strip()` returns. */
  lemma StripUnique(s: string, lo: int, r: string)
    requires TrimmedAt(s, lo, r)
    requires |r| > 0 ==> !IsSpace(r[0]) && !IsSpace(r[|r| - 1])
    ensures Strip(s) == r
  {
    if |r| > 0 {
      assert s[lo] == r[0];
      SkipSpaceStops(s, 0, lo);
      TrimEndStops(s, lo, |s|, lo + |r|);
    } else {
      SkipSpaceAll(s, 0);
      assert Strip(s) == [];
    }
  }

  lemma SkipSpaceStops(s: string, from: nat, k: nat)
    requires from <= k < |s| && !IsSpace(s[k])
    requires forall j :: from <= j < k ==> IsSpace(s[j])
    ensures SkipSpace(s, from) == k
  {
  }

  lemma SkipSpaceAll(s: string, from: nat)
    requires from <= |s|
    requires forall j :: from <= j < |s| ==> IsSpace(s[j])
    ensures SkipSpace(s, from) == |s|
  {
  }

  lemma {:induction false} TrimEndStops(s: string, lo: nat, hi: nat, x: nat)
    requires lo < x <= hi <= |s| && !IsSpace(s[lo]) && !IsSpace(s[x - 1])
    requires forall k :: x <= k < hi ==> IsSpace(s[k])
    ensures TrimEnd(s, lo, hi) == x
    decreases hi
  {
    if hi > x {
      TrimEndStops(s, lo, hi - 1, x);
    }
  }

  /** Largest `hi' <= hi` such that `s[lo..hi']` does not end in whitespace. */
  function TrimEnd(s: string, lo: nat, hi: nat): (r: nat)
    requires lo <= hi <= |s|
    requires lo < |s| ==> !IsSpace(s[lo])
    ensures lo <= r <= hi
    ensures r > lo ==> !IsSpace(s[r - 1])
    ensures forall k :: r <= k < hi ==> IsSpace(s[k])
    decreases hi
  {
    if hi == lo || !IsSpace(s[hi - 1]) then hi else TrimEnd(s, lo, hi - 1)
  }
}
