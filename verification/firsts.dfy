/**
 Keeping the first element for each key, in order: the `seen`-set loop both
 reports run, one over (pattern, file) pairs of JavaScript findings and one
 over the hrefs of preload directives.
 */
module Firsts {
  /** The keys that occur in a list. */
  function Keys<T, K>(xs: seq<T>, key: T -> K): (ks: set<K>)
    ensures forall i :: 0 <= i < |xs| ==> key(xs[i]) in ks
    ensures forall k :: k in ks ==> exists i :: 0 <= i < |xs| && key(xs[i]) == k
    decreases |xs|
  {
    if |xs| == 0 then {}
    else
      var rest := Keys(xs[1..], key);
      assert forall k :: k in rest ==> exists i :: 0 <= i < |xs| && key(xs[i]) == k by {
        forall k | k in rest
          ensures exists i :: 0 <= i < |xs| && key(xs[i]) == k
        {
          var i :| 0 <= i < |xs[1..]| && key(xs[1..][i]) == k;
          assert xs[1..][i] == xs[i + 1];
        }
      }
      {key(xs[0])} + rest
  }

  /** No two elements share a key. */
  predicate Distinct<T, K(==)>(xs: seq<T>, key: T -> K) {
    forall i, j :: 0 <= i < j < |xs| ==> key(xs[i]) != key(xs[j])
  }

  /** The loop from a given `seen` set: an element whose key was seen is
      dropped, any other is kept and its key added. */
  function DedupFrom<T, K(==)>(xs: seq<T>, key: T -> K, seen: set<K>): (r: seq<T>)
    ensures forall i :: 0 <= i < |r| ==> key(r[i]) !in seen
    ensures Distinct(r, key)
    ensures Keys(r, key) == Keys(xs, key) - seen
    decreases |xs|
  {
    if |xs| == 0 then []
    else if key(xs[0]) in seen then
      DedupFrom(xs[1..], key, seen)
    else
      var rest := DedupFrom(xs[1..], key, seen + {key(xs[0])});
      [xs[0]] + rest
  }

  /** The first element for each key, in the original order. */
  function Dedup<T, K(==)>(xs: seq<T>, key: T -> K): (r: seq<T>)
    ensures Distinct(r, key)
    ensures Keys(r, key) == Keys(xs, key)
    ensures |r| <= |xs|
  {
    DedupLength(xs, key, {});
    DedupFrom(xs, key, {})
  }

  lemma {:induction false} DedupLength<T, K>(xs: seq<T>, key: T -> K, seen: set<K>)
    ensures |DedupFrom(xs, key, seen)| <= |xs|
    decreases |xs|
  {
    if |xs| > 0 {
      DedupLength(xs[1..], key, seen);
      DedupLength(xs[1..], key, seen + {key(xs[0])});
    }
  }

  /** `a` is `b` with some elements left out, order kept. */
  predicate IsSubsequence<T(==)>(a: seq<T>, b: seq<T>)
    decreases |b|
  {
    |a| == 0 || (|b| > 0 && (if a[0] == b[0] then IsSubsequence(a[1..], b[1..]) else IsSubsequence(a, b[1..])))
  }

  lemma {:induction false} DedupIsSubsequence<T, K>(xs: seq<T>, key: T -> K, seen: set<K>)
    ensures IsSubsequence(DedupFrom(xs, key, seen), xs)
    decreases |xs|
  {
    if |xs| > 0 {
      if key(xs[0]) in seen {
        DedupIsSubsequence(xs[1..], key, seen);
      } else {
        DedupIsSubsequence(xs[1..], key, seen + {key(xs[0])});
      }
    }
  }

  /** The first element with each key is the one kept. */
  lemma {:induction false} DedupKeepsFirst<T, K>(xs: seq<T>, key: T -> K, seen: set<K>, i: nat)
    requires i < |xs| && key(xs[i]) !in seen
    requires forall j :: 0 <= j < i ==> key(xs[j]) != key(xs[i])
    ensures xs[i] in DedupFrom(xs, key, seen)
    decreases |xs|
  {
    if i > 0 {
      var s' := if key(xs[0]) in seen then seen else seen + {key(xs[0])};
      assert forall j :: 0 <= j < i - 1 ==> xs[1..][j] == xs[j + 1];
      DedupKeepsFirst(xs[1..], key, s', i - 1);
    }
  }

  /** On a list whose keys are already distinct, the loop changes nothing. */
  lemma {:induction false} DedupOfDistinct<T, K>(xs: seq<T>, key: T -> K, seen: set<K>)
    requires Distinct(xs, key)
    requires forall i :: 0 <= i < |xs| ==> key(xs[i]) !in seen
    ensures DedupFrom(xs, key, seen) == xs
    decreases |xs|
  {
    if |xs| > 0 {
      var s' := seen + {key(xs[0])};
      forall i | 0 <= i < |xs[1..]|
        ensures key(xs[1..][i]) !in s'
      {
        assert xs[1..][i] == xs[i + 1];
      }
      DedupOfDistinct(xs[1..], key, s');
    }
  }

  /** Deduplicating twice is deduplicating once. */
  lemma DedupIdempotent<T, K>(xs: seq<T>, key: T -> K)
    ensures Dedup(Dedup(xs, key), key) == Dedup(xs, key)
  {
    DedupOfDistinct(Dedup(xs, key), key, {});
  }

  /** Counting indices one at a time: the indices below `n + 1` that are
      counted are those below `n`, and `n` itself when it is counted. */
  lemma CardStep(a: set<nat>, w: set<nat>, n: nat, hit: bool)
    requires forall i :: i in a ==> i < n
    requires forall i: nat :: i in w <==> i in a || (hit && i == n)
    ensures |w| == |a| + (if hit then 1 else 0)
  {
    if hit {
      assert w == a + {n};
    } else {
      assert w == a;
    }
  }
}
