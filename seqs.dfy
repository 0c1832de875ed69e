/**
 * Order-preserving list operations the Python code writes as loops or
 * comprehensions: keeping the elements that pass a test, and keeping the
 * first element of each key ("seen" set plus "ordered" list).
 */
module Seqs {
  import opened Wrappers

  /** `xs` is obtained from `ys` by deleting elements, order kept. */
  ghost predicate IsSubsequence<T>(xs: seq<T>, ys: seq<T>)
    decreases |ys|
  {
    |xs| == 0 ||
    (|ys| > 0 &&
     ((xs[|xs| - 1] == ys[|ys| - 1] && IsSubsequence(xs[..|xs| - 1], ys[..|ys| - 1]))
      || IsSubsequence(xs, ys[..|ys| - 1])))
  }

  lemma {:induction false} SubsequenceMembers<T>(xs: seq<T>, ys: seq<T>)
    requires IsSubsequence(xs, ys)
    ensures forall x :: x in xs ==> x in ys
    decreases |ys|
  {
    if |xs| > 0 {
      var xi, yi := xs[..|xs| - 1], ys[..|ys| - 1];
      if xs[|xs| - 1] == ys[|ys| - 1] && IsSubsequence(xi, yi) {
        SubsequenceMembers(xi, yi);
        assert xs == xi + [ys[|ys| - 1]];
        assert ys == yi + [ys[|ys| - 1]];
      } else {
        SubsequenceMembers(xs, yi);
        assert ys == yi + [ys[|ys| - 1]];
      }
    }
  }

  lemma {:induction false} SubsequenceTransitive<T>(a: seq<T>, b: seq<T>, c: seq<T>)
    requires IsSubsequence(a, b) && IsSubsequence(b, c)
    ensures IsSubsequence(a, c)
    decreases |c|
  {
    if |a| > 0 {
      var ai, bi, ci := a[..|a| - 1], b[..|b| - 1], c[..|c| - 1];
      if b[|b| - 1] == c[|c| - 1] && IsSubsequence(bi, ci) {
        if a[|a| - 1] == b[|b| - 1] && IsSubsequence(ai, bi) {
          SubsequenceTransitive(ai, bi, ci);
        } else {
          SubsequenceTransitive(a, bi, ci);
        }
      } else {
        SubsequenceTransitive(a, b, ci);
      }
    }
  }

  lemma {:induction false} SubsequenceReflexive<T>(xs: seq<T>)
    ensures IsSubsequence(xs, xs)
    decreases |xs|
  {
    if |xs| > 0 {
      SubsequenceReflexive(xs[..|xs| - 1]);
    }
  }

  /** The list comprehension `[x for x in xs if p(x)]`. */
  function Filter<T>(xs: seq<T>, p: T -> bool): seq<T>
  {
    if |xs| == 0 then []
    else Filter(xs[..|xs| - 1], p) + (if p(xs[|xs| - 1]) then [xs[|xs| - 1]] else [])
  }

  /** Filtering twice with the same test keeps the same elements. */
  lemma {:induction false} FilterIdempotent<T>(xs: seq<T>, p: T -> bool)
    ensures Filter(Filter(xs, p), p) == Filter(xs, p)
  {
    if |xs| > 0 {
      var init := xs[..|xs| - 1];
      FilterIdempotent(init, p);
      var f := Filter(init, p);
      if p(xs[|xs| - 1]) {
        assert (f + [xs[|xs| - 1]])[..|f|] == f;
      } else {
        assert f + [] == f;
      }
    }
  }

  lemma {:induction false} FilterMembers<T>(xs: seq<T>, p: T -> bool)
    ensures forall x :: x in Filter(xs, p) <==> x in xs && p(x)
  {
    if |xs| > 0 {
      FilterMembers(xs[..|xs| - 1], p);
      assert xs == xs[..|xs| - 1] + [xs[|xs| - 1]];
    }
  }

  lemma {:induction false} FilterSubsequence<T>(xs: seq<T>, p: T -> bool)
    ensures IsSubsequence(Filter(xs, p), xs)
  {
    if |xs| > 0 {
      var init := xs[..|xs| - 1];
      FilterSubsequence(init, p);
      var f := Filter(init, p);
      if p(xs[|xs| - 1]) {
        assert (f + [xs[|xs| - 1]])[..|f|] == f;
      } else {
        assert f + [] == f;
      }
    }
  }

  /** Filtering a concatenation filters each part: relative order is kept. */
  lemma {:induction false} FilterConcat<T>(a: seq<T>, b: seq<T>, p: T -> bool)
    ensures Filter(a + b, p) == Filter(a, p) + Filter(b, p)
    decreases |b|
  {
    if |b| == 0 {
      assert a + b == a;
    } else {
      var bi := b[..|b| - 1];
      assert (a + b)[..|a + b| - 1] == a + bi;
      FilterConcat(a, bi, p);
    }
  }

  /** The keys of the elements of `xs`. */
  function KeySet<T, K(==)>(xs: seq<T>, key: T -> K): set<K> {
    set k | 0 <= k < |xs| :: key(xs[k])
  }

  lemma KeySetAppend<T, K>(xs: seq<T>, x: T, key: T -> K)
    ensures KeySet(xs + [x], key) == KeySet(xs, key) + {key(x)}
  {
    var ys := xs + [x];
    forall k | k in KeySet(ys, key) ensures k in KeySet(xs, key) + {key(x)} {
      var i :| 0 <= i < |ys| && key(ys[i]) == k;
      if i < |xs| { assert key(xs[i]) == k; }
    }
    forall k | k in KeySet(xs, key) ensures k in KeySet(ys, key) {
      var i :| 0 <= i < |xs| && key(xs[i]) == k;
      assert key(ys[i]) == k;
    }
    assert key(ys[|xs|]) == key(x);
  }

  /** Keeps the first element of each key, in order of first appearance: the
      Python loop that skips an element whose key is in a `seen` set and
      otherwise appends it and adds its key. */
  function DedupBy<T, K(==)>(xs: seq<T>, key: T -> K): seq<T>
  {
    if |xs| == 0 then []
    else
      var d := DedupBy(xs[..|xs| - 1], key);
      if key(xs[|xs| - 1]) in KeySet(d, key) then d else d + [xs[|xs| - 1]]
  }

  /** One more element is kept exactly when its key is new. */
  lemma DedupByAppend<T, K>(xs: seq<T>, x: T, key: T -> K)
    ensures DedupBy(xs + [x], key) ==
      if key(x) in KeySet(DedupBy(xs, key), key) then DedupBy(xs, key) else DedupBy(xs, key) + [x]
  {
    assert (xs + [x])[..|xs|] == xs;
  }

  /** Deduplication keeps exactly the keys it was given. */
  lemma {:induction false} DedupByKeys<T, K>(xs: seq<T>, key: T -> K)
    ensures KeySet(DedupBy(xs, key), key) == KeySet(xs, key)
  {
    if |xs| > 0 {
      var init := xs[..|xs| - 1];
      var x := xs[|xs| - 1];
      DedupByKeys(init, key);
      var d := DedupBy(init, key);
      assert xs == init + [x];
      KeySetAppend(init, x, key);
      KeySetAppend(d, x, key);
    }
  }

  /** No two elements of `xs` share a key. */
  ghost predicate DistinctKeys<T, K>(xs: seq<T>, key: T -> K) {
    forall i, j :: 0 <= i < j < |xs| ==> key(xs[i]) != key(xs[j])
  }

  /** No two kept elements share a key. */
  lemma {:induction false} DedupByDistinct<T, K>(xs: seq<T>, key: T -> K)
    ensures DistinctKeys(DedupBy(xs, key), key)
  {
    if |xs| > 0 {
      var init := xs[..|xs| - 1];
      DedupByDistinct(init, key);
      var d := DedupBy(init, key);
      var x := xs[|xs| - 1];
      if key(x) !in KeySet(d, key) {
        var r := DedupBy(xs, key);
        assert r == d + [x];
        forall i, j | 0 <= i < j < |r| ensures key(r[i]) != key(r[j]) {
          assert r[i] == d[i];
          if j == |d| {
            assert key(d[i]) in KeySet(d, key);
          } else {
            assert r[j] == d[j];
            assert key(d[i]) != key(d[j]);
          }
        }
      }
    }
  }

  lemma {:induction false} DedupBySubsequence<T, K>(xs: seq<T>, key: T -> K)
    ensures IsSubsequence(DedupBy(xs, key), xs)
  {
    if |xs| > 0 {
      var init := xs[..|xs| - 1];
      DedupBySubsequence(init, key);
      var d := DedupBy(init, key);
      if key(xs[|xs| - 1]) !in KeySet(d, key) {
        assert (d + [xs[|xs| - 1]])[..|d|] == d;
      }
    }
  }

  /** Every kept element is the first element of `xs` carrying its key. */
  lemma {:induction false} DedupByFirst<T, K>(xs: seq<T>, key: T -> K)
    ensures var r := DedupBy(xs, key);
      forall t :: 0 <= t < |r| ==>
        exists i :: 0 <= i < |xs| && xs[i] == r[t] && forall j :: 0 <= j < i ==> key(xs[j]) != key(r[t])
  {
    if |xs| > 0 {
      var init := xs[..|xs| - 1];
      DedupByFirst(init, key);
      DedupByKeys(init, key);
      var d := DedupBy(init, key);
      var x := xs[|xs| - 1];
      var r := DedupBy(xs, key);
      forall t | 0 <= t < |r|
        ensures exists i :: 0 <= i < |xs| && xs[i] == r[t] && forall j :: 0 <= j < i ==> key(xs[j]) != key(r[t])
      {
        if t < |d| {
          var i :| 0 <= i < |init| && init[i] == d[t] && forall j :: 0 <= j < i ==> key(init[j]) != key(d[t]);
          assert xs[i] == r[t];
          forall j | 0 <= j < i ensures key(xs[j]) != key(r[t]) {
            assert xs[j] == init[j];
          }
        } else {
          assert r[t] == x && key(x) !in KeySet(init, key);
          forall j | 0 <= j < |xs| - 1 ensures key(xs[j]) != key(r[t]) {
            assert xs[j] == init[j];
          }
          assert xs[|xs| - 1] == r[t];
        }
      }
    }
  }

  /** `a` occurs in `xs` before any element with the key of `b`. */
  ghost predicate SeenBefore<T, K>(a: T, b: T, xs: seq<T>, key: T -> K) {
    exists i :: 0 <= i < |xs| && xs[i] == a && forall j :: 0 <= j <= i ==> key(xs[j]) != key(b)
  }

  /** The elements of `r` come in the order in which their keys first appear
      in `xs`: for any two positions `s < t` of `r`, `r[s]` occurs in `xs`
      before any element with the key of `r[t]`. */
  ghost predicate InFirstSeenOrder<T, K>(r: seq<T>, xs: seq<T>, key: T -> K) {
    forall s, t :: 0 <= s < t < |r| ==> SeenBefore(r[s], r[t], xs, key)
  }

  /** Keeping the first element of each key keeps first-seen order. */
  lemma {:induction false} DedupByFirstSeenOrder<T, K>(xs: seq<T>, key: T -> K)
    ensures InFirstSeenOrder(DedupBy(xs, key), xs, key)
  {
    if |xs| > 0 {
      var init := xs[..|xs| - 1];
      var x := xs[|xs| - 1];
      DedupByFirstSeenOrder(init, key);
      DedupByFirst(init, key);
      DedupByKeys(init, key);
      var d := DedupBy(init, key);
      var r := DedupBy(xs, key);
      forall s, t | 0 <= s < t < |r|
        ensures SeenBefore(r[s], r[t], xs, key)
      {
        if t < |d| {
          assert SeenBefore(d[s], d[t], init, key);
          var i :| 0 <= i < |init| && init[i] == d[s] && forall j :: 0 <= j <= i ==> key(init[j]) != key(d[t]);
          assert xs[i] == r[s];
          forall j | 0 <= j <= i ensures key(xs[j]) != key(r[t]) {
            assert xs[j] == init[j];
          }
        } else {
          assert key(x) !in KeySet(d, key) && r == d + [x];
          assert r[t] == x && r[s] == d[s];
          var i :| 0 <= i < |init| && init[i] == d[s] && forall j :: 0 <= j < i ==> key(init[j]) != key(d[s]);
          assert xs[i] == r[s];
          forall j | 0 <= j <= i ensures key(xs[j]) != key(r[t]) {
            assert xs[j] == init[j];
            assert key(init[j]) in KeySet(init, key);
          }
        }
      }
    }
  }

  /** Filtering keeps first-seen order. */
  lemma {:induction false} FilterKeepsFirstSeenOrder<T, K>(r: seq<T>, xs: seq<T>, key: T -> K, p: T -> bool)
    requires InFirstSeenOrder(r, xs, key)
    ensures InFirstSeenOrder(Filter(r, p), xs, key)
  {
    if |r| > 0 {
      var init := r[..|r| - 1];
      var x := r[|r| - 1];
      assert InFirstSeenOrder(init, xs, key) by {
        forall s, t | 0 <= s < t < |init| ensures SeenBefore(init[s], init[t], xs, key) {
          assert init[s] == r[s] && init[t] == r[t];
        }
      }
      FilterKeepsFirstSeenOrder(init, xs, key, p);
      var f := Filter(init, p);
      FilterSubsequence(init, p);
      SubsequenceMembers(f, init);
      if p(x) {
        var g := Filter(r, p);
        assert g == f + [x];
        forall s, t | 0 <= s < t < |g|
          ensures SeenBefore(g[s], g[t], xs, key)
        {
          if t < |f| {
            assert g[s] == f[s] && g[t] == f[t];
          } else {
            assert g[s] == f[s] && f[s] in f && g[t] == r[|r| - 1];
            var u :| 0 <= u < |init| && init[u] == f[s];
            assert r[u] == g[s];
          }
        }
      } else {
        assert Filter(r, p) == f + [];
      }
    }
  }

  /** When every element sharing `x`'s key passes the test, filtering keeps that key. */
  lemma KeyInFilter<T, K>(d: seq<T>, key: T -> K, p: T -> bool, x: T)
    requires forall y :: key(y) == key(x) ==> p(y)
    ensures key(x) in KeySet(Filter(d, p), key) <==> key(x) in KeySet(d, key)
  {
    FilterMembers(d, p);
    var fd := Filter(d, p);
    if key(x) in KeySet(d, key) {
      var i :| 0 <= i < |d| && key(d[i]) == key(x);
      assert d[i] in fd;
      var j :| 0 <= j < |fd| && fd[j] == d[i];
      assert key(fd[j]) == key(x);
    }
    if key(x) in KeySet(fd, key) {
      var j :| 0 <= j < |fd| && key(fd[j]) == key(x);
      assert fd[j] in fd;
      var i :| 0 <= i < |d| && d[i] == fd[j];
      assert key(d[i]) == key(x);
    }
  }

  /** Deduplicating and filtering commute when the test depends only on the key. */
  lemma {:induction false} DedupFilterCommute<T, K>(xs: seq<T>, key: T -> K, p: T -> bool)
    requires forall x, y :: key(x) == key(y) ==> p(x) == p(y)
    ensures DedupBy(Filter(xs, p), key) == Filter(DedupBy(xs, key), p)
  {
    if |xs| > 0 {
      var init := xs[..|xs| - 1];
      var x := xs[|xs| - 1];
      DedupFilterCommute(init, key, p);
      var d := DedupBy(init, key);
      var fd := Filter(d, p);
      if p(x) {
        KeyInFilter(d, key, p, x);
        if key(x) !in KeySet(d, key) {
          assert (d + [x])[..|d|] == d;
        }
      } else {
        assert Filter(init, p) + [] == Filter(init, p);
        if key(x) !in KeySet(d, key) {
          assert DedupBy(xs, key) == d + [x];
          assert (d + [x])[..|d|] == d;
          assert Filter(d + [x], p) == fd + [];
        }
      }
    }
  }

  /** No element before index `i` has the key of `xs[i]`. */
  ghost predicate FirstOfItsKey<T, K>(xs: seq<T>, key: T -> K, i: int) {
    0 <= i < |xs| && forall j :: 0 <= j < i ==> key(xs[j]) != key(xs[i])
  }

  /** Each element of `r` is an element of `xs` that is the first of its key. */
  ghost predicate EachFirstOfItsKey<T, K>(r: seq<T>, xs: seq<T>, key: T -> K) {
    forall t :: 0 <= t < |r| ==> exists i :: FirstOfItsKey(xs, key, i) && xs[i] == r[t]
  }

  /** Filtering by a test that depends only on the key and then keeping the
      first of each key keeps only elements that are the first of their key
      in the unfiltered input. */
  lemma DedupFilterFirst<T, K>(xs: seq<T>, key: T -> K, p: T -> bool)
    requires forall x, y :: key(x) == key(y) ==> p(x) == p(y)
    ensures EachFirstOfItsKey(DedupBy(Filter(xs, p), key), xs, key)
  {
    DedupFilterCommute(xs, key, p);
    var d := DedupBy(xs, key);
    DedupByFirst(xs, key);
    var r := DedupBy(Filter(xs, p), key);
    assert r == Filter(d, p);
    FilterSubsequence(d, p);
    SubsequenceMembers(r, d);
    forall t | 0 <= t < |r|
      ensures exists i :: FirstOfItsKey(xs, key, i) && xs[i] == r[t]
    {
      assert r[t] in r;
      var u :| 0 <= u < |d| && d[u] == r[t];
      var i :| 0 <= i < |xs| && xs[i] == d[u] && forall j :: 0 <= j < i ==> key(xs[j]) != key(d[u]);
      assert FirstOfItsKey(xs, key, i);
    }
  }

  /** Deduplicating after a key-respecting filter keeps first-seen order. */
  lemma DedupFilterFirstSeenOrder<T, K>(xs: seq<T>, key: T -> K, p: T -> bool)
    requires forall x, y :: key(x) == key(y) ==> p(x) == p(y)
    ensures InFirstSeenOrder(DedupBy(Filter(xs, p), key), xs, key)
  {
    DedupFilterCommute(xs, key, p);
    DedupByFirstSeenOrder(xs, key);
    FilterKeepsFirstSeenOrder(DedupBy(xs, key), xs, key, p);
  }

  /** A loop that appends `f(x).value` for each `x` with a value, in order. */
  function Collect<T, U>(xs: seq<T>, f: T -> Option<U>): seq<U>
  {
    if |xs| == 0 then []
    else Collect(xs[..|xs| - 1], f) + (match f(xs[|xs| - 1]) case Some(u) => [u] case None => [])
  }

  /** When `f` gives back every element unchanged, nothing is dropped. */
  lemma {:induction false} CollectKeepsAll<T>(xs: seq<T>, f: T -> Option<T>)
    requires forall i :: 0 <= i < |xs| ==> f(xs[i]) == Some(xs[i])
    ensures Collect(xs, f) == xs
  {
    if |xs| > 0 {
      var init := xs[..|xs| - 1];
      CollectKeepsAll(init, f);
      assert init + [xs[|xs| - 1]] == xs;
    }
  }

  /** A loop that runs `f` on every element in turn and appends the values
      it gives. */
  method CollectAll<T, U>(xs: seq<T>, f: T -> Option<U>) returns (out: seq<U>)
    ensures out == Collect(xs, f)
  {
    out := [];
    for i := 0 to |xs|
      invariant out == Collect(xs[..i], f)
    {
      assert xs[..i + 1][..i] == xs[..i];
      var r := f(xs[i]);
      if r.Some? {
        out := out + [r.value];
      }
    }
    assert xs[..|xs|] == xs;
  }

  /** Collecting over a concatenation collects each part. */
  lemma {:induction false} CollectConcat<T, U>(a: seq<T>, b: seq<T>, f: T -> Option<U>)
    ensures Collect(a + b, f) == Collect(a, f) + Collect(b, f)
    decreases |b|
  {
    if |b| == 0 {
      assert a + b == a;
    } else {
      var bi := b[..|b| - 1];
      assert (a + b)[..|a + b| - 1] == a + bi;
      CollectConcat(a, bi, f);
    }
  }

  /** Collecting one more element appends its value, if it has one. */
  lemma CollectAppend<T, U>(xs: seq<T>, x: T, f: T -> Option<U>)
    ensures Collect(xs + [x], f) == Collect(xs, f) + (match f(x) case Some(u) => [u] case None => [])
  {
    assert (xs + [x])[..|xs|] == xs;
  }

  /** Each collected value comes from an element, and each element with a
      value contributes it. */
  lemma {:induction false} CollectMembers<T, U>(xs: seq<T>, f: T -> Option<U>)
    ensures forall u :: u in Collect(xs, f) <==> exists i :: 0 <= i < |xs| && f(xs[i]) == Some(u)
  {
    if |xs| > 0 {
      var init := xs[..|xs| - 1];
      CollectMembers(init, f);
      forall u
        ensures u in Collect(xs, f) <==> exists i :: 0 <= i < |xs| && f(xs[i]) == Some(u)
      {
        if u in Collect(init, f) {
          var i :| 0 <= i < |init| && f(init[i]) == Some(u);
          assert xs[i] == init[i];
        }
        if exists i :: 0 <= i < |xs| && f(xs[i]) == Some(u) {
          var i :| 0 <= i < |xs| && f(xs[i]) == Some(u);
          if i < |init| {
            assert f(init[i]) == Some(u);
          }
        }
      }
    }
  }

  /** The concatenation of a list of lists (`for ys in xss: out.extend(ys)`). */
  function Flatten<T>(xss: seq<seq<T>>): seq<T>
  {
    if |xss| == 0 then [] else Flatten(xss[..|xss| - 1]) + xss[|xss| - 1]
  }

  lemma FlattenAppend<T>(xss: seq<seq<T>>, ys: seq<T>)
    ensures Flatten(xss + [ys]) == Flatten(xss) + ys
  {
    assert (xss + [ys])[..|xss|] == xss;
  }

  /** `i` is the first index whose candidate is non-empty. */
  ghost predicate FirstNonEmptyIndex<T>(cands: seq<seq<T>>, i: int) {
    0 <= i < |cands| && |cands[i]| > 0 && forall j :: 0 <= j < i ==> |cands[j]| == 0
  }

  /** The first non-empty candidate, else the empty sequence: a loop over
      candidates that returns the first non-empty one. */
  function FirstNonEmpty<T>(cands: seq<seq<T>>): (r: seq<T>)
    ensures |r| == 0 <==> forall i :: 0 <= i < |cands| ==> |cands[i]| == 0
    ensures |r| > 0 ==> exists i :: FirstNonEmptyIndex(cands, i) && r == cands[i]
  {
    if |cands| == 0 then []
    else if |cands[0]| > 0 then
      assert FirstNonEmptyIndex(cands, 0);
      cands[0]
    else
      var r := FirstNonEmpty(cands[1..]);
      assert |r| > 0 ==> exists i :: FirstNonEmptyIndex(cands, i) && r == cands[i] by {
        if |r| > 0 {
          var i :| FirstNonEmptyIndex(cands[1..], i) && r == cands[1..][i];
          assert FirstNonEmptyIndex(cands, i + 1);
        }
      }
      r
  }

  /** The first non-empty candidate is the one at the first index whose
      candidate is non-empty. */
  lemma FirstNonEmptyAt<T>(cands: seq<seq<T>>, i: nat)
    requires FirstNonEmptyIndex(cands, i)
    ensures FirstNonEmpty(cands) == cands[i]
  {
    var r := FirstNonEmpty(cands);
    var k :| FirstNonEmptyIndex(cands, k) && r == cands[k];
    assert k == i;
  }

  /** The candidate each key gives, in key order. */
  function Candidates<T, U>(keys: seq<T>, f: T -> seq<U>): (r: seq<seq<U>>)
    ensures |r| == |keys| && forall i :: 0 <= i < |keys| ==> r[i] == f(keys[i])
  {
    seq(|keys|, i requires 0 <= i < |keys| => f(keys[i]))
  }

  /** A loop over keys that returns the first non-empty candidate, and the
      empty sequence once every key has been tried. */
  method FirstNonEmptyAmong<T, U>(keys: seq<T>, f: T -> seq<U>) returns (r: seq<U>)
    ensures r == FirstNonEmpty(Candidates(keys, f))
  {
    ghost var cands := Candidates(keys, f);
    for i := 0 to |keys|
      invariant forall j :: 0 <= j < i ==> |cands[j]| == 0
    {
      var candidate := f(keys[i]);
      if |candidate| > 0 {
        assert FirstNonEmptyIndex(cands, i);
        FirstNonEmptyAt(cands, i);
        return candidate;
      }
    }
    return [];
  }

  /** A prefix is a subsequence. */
  lemma {:induction false} PrefixIsSubsequence<T>(xs: seq<T>, n: nat)
    requires n <= |xs|
    ensures IsSubsequence(xs[..n], xs)
    decreases |xs|
  {
    if n == |xs| {
      assert xs[..n] == xs;
      SubsequenceReflexive(xs);
    } else {
      var init := xs[..|xs| - 1];
      assert init[..n] == xs[..n];
      PrefixIsSubsequence(init, n);
    }
  }

  /** Collecting over a prefix gives a prefix of the whole collection. */
  lemma CollectPrefix<T, U>(xs: seq<T>, n: nat, f: T -> Option<U>)
    requires n <= |xs|
    ensures |Collect(xs[..n], f)| <= |Collect(xs, f)|
    ensures Collect(xs[..n], f) == Collect(xs, f)[..|Collect(xs[..n], f)|]
  {
    assert xs == xs[..n] + xs[n..];
    CollectConcat(xs[..n], xs[n..], f);
  }
}
