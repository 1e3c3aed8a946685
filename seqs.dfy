/** Order facts about sequences used by the list utilities: one sequence sitting
    inside another in order (a subsequence, witnessed by increasing positions), and
    the first-occurrence de-duplication under a key that `Strings.Distinct` and
    `ExtractUUIDs` perform. */
module Seqs {

  /** `idx` lists, in strictly increasing order, positions of `b` that hold the
      elements of `a`, one position per element. */
  ghost predicate IsEmbedding<T>(idx: seq<int>, a: seq<T>, b: seq<T>)
  {
    && |idx| == |a|
    && (forall k :: 0 <= k < |idx| ==> 0 <= idx[k] < |b| && b[idx[k]] == a[k])
    && (forall k :: 0 < k < |idx| ==> idx[k - 1] < idx[k])
  }

  /** `a` is a subsequence of `b`: its elements occur in `b` in the same order, not
      necessarily next to each other. */
  ghost predicate Subsequence<T>(a: seq<T>, b: seq<T>)
  {
    exists idx :: IsEmbedding(idx, a, b)
  }

  /** The k-th position of an embedding is at least k. */
  lemma {:induction false} EmbeddingAtLeast<T>(idx: seq<int>, a: seq<T>, b: seq<T>, k: nat)
    requires IsEmbedding(idx, a, b)
    requires k < |idx|
    ensures idx[k] >= k
  {
    if k > 0 {
      EmbeddingAtLeast(idx, a, b, k - 1);
    }
  }

  /** A sequence longer than `b` is never a subsequence of `b`. */
  lemma LongerNotSubsequence<T>(a: seq<T>, b: seq<T>)
    requires |a| > |b|
    ensures !Subsequence(a, b)
  {
    if idx :| IsEmbedding(idx, a, b) {
      EmbeddingAtLeast(idx, a, b, |a| - 1);
    }
  }

  /** The keys of `s`, position by position. */
  function Keys<T, K>(s: seq<T>, key: T -> K): (r: seq<K>)
    ensures |r| == |s|
    ensures forall k :: 0 <= k < |s| ==> r[k] == key(s[k])
  {
    seq(|s|, i requires 0 <= i < |s| => key(s[i]))
  }

  /** Position k holds the first element of `s` with its key. */
  ghost predicate IsFirst<T, K>(s: seq<T>, key: T -> K, k: int)
    requires 0 <= k < |s|
  {
    forall m :: 0 <= m < k ==> key(s[m]) != key(s[k])
  }

  /** The elements of `s` whose key has not been seen earlier, in their original
      order. */
  function FirstBy<T, K(==)>(s: seq<T>, key: T -> K): (r: seq<T>)
    ensures |r| <= |s|
  {
    if s == [] then []
    else
      var init := s[..|s| - 1];
      var last := s[|s| - 1];
      if key(last) in Keys(init, key) then FirstBy(init, key)
      else FirstBy(init, key) + [last]
  }

  /** One step of FirstBy: an element is appended exactly when its key is new. */
  lemma FirstBySnoc<T, K>(init: seq<T>, last: T, key: T -> K)
    ensures FirstBy(init + [last], key) ==
              if key(last) in Keys(init, key) then FirstBy(init, key) else FirstBy(init, key) + [last]
  {
    assert (init + [last])[..|init|] == init;
  }

  /** A sequence with no key twice is left as it is. */
  lemma {:induction false} FirstByAllDistinct<T, K>(s: seq<T>, key: T -> K)
    requires forall i, j :: 0 <= i < j < |s| ==> key(s[i]) != key(s[j])
    ensures FirstBy(s, key) == s
  {
    if s != [] {
      var init := s[..|s| - 1];
      var last := s[|s| - 1];
      assert s == init + [last];
      FirstByAllDistinct(init, key);
      FirstBySnoc(init, last, key);
      assert key(last) !in Keys(init, key) by {
        forall k | 0 <= k < |init|
          ensures Keys(init, key)[k] != key(last)
        {
          assert init[k] == s[k];
        }
      }
    }
  }
  /** No key is lost: every key of `s` is the key of an element FirstBy keeps. */
  lemma {:induction false} FirstByKeepsKeys<T, K>(s: seq<T>, key: T -> K, k: int)
    requires 0 <= k < |s|
    ensures key(s[k]) in Keys(FirstBy(s, key), key)
  {
    var n := |s|;
    var init := s[..n - 1];
    var r0 := FirstBy(init, key);
    if k < n - 1 {
      assert s[k] == init[k];
      FirstByKeepsKeys(init, key, k);
      var m :| 0 <= m < |r0| && Keys(r0, key)[m] == key(s[k]);
      if key(s[n - 1]) !in Keys(init, key) {
        assert (r0 + [s[n - 1]])[m] == r0[m];
      }
    } else if key(s[n - 1]) in Keys(init, key) {
      var j :| 0 <= j < n - 1 && Keys(init, key)[j] == key(s[n - 1]);
      FirstByKeepsKeys(init, key, j);
    } else {
      assert FirstBy(s, key)[|r0|] == s[n - 1];
    }
  }

  /** Positions below the end of `init` are first of their key in `init` exactly when
      they are in any extension of it. */
  lemma FirstInPrefix<T, K>(s: seq<T>, key: T -> K, n: int, k: int)
    requires 0 <= k < n <= |s|
    ensures IsFirst(s[..n], key, k) <==> IsFirst(s, key, k)
  {
    assert forall m :: 0 <= m <= k ==> s[..n][m] == s[m];
  }

  /** `idx` lists the positions FirstBy keeps: they embed its result in `s`, each is
      the first of its key, and every first-of-its-key position of `s` is among them. */
  ghost predicate KeptPositions<T, K>(idx: seq<int>, s: seq<T>, key: T -> K)
  {
    && IsEmbedding(idx, FirstBy(s, key), s)
    && (forall i :: 0 <= i < |idx| ==> IsFirst(s, key, idx[i]))
    && (forall k :: 0 <= k < |s| && IsFirst(s, key, k) ==> k in idx)
  }

  /** A last element whose key was seen leaves the kept positions as they were. */
  lemma KeptAfterRepeat<T, K>(s: seq<T>, key: T -> K, p: seq<int>)
    requires |s| > 0 && KeptPositions(p, s[..|s| - 1], key)
    requires key(s[|s| - 1]) in Keys(s[..|s| - 1], key)
    ensures KeptPositions(p, s, key)
  {
    var n := |s|;
    var init := s[..n - 1];
    forall k | 0 <= k < n - 1
      ensures IsFirst(init, key, k) <==> IsFirst(s, key, k)
    {
      FirstInPrefix(s, key, n - 1, k);
    }
    var m :| 0 <= m < n - 1 && Keys(init, key)[m] == key(s[n - 1]);
    assert key(s[m]) == key(s[n - 1]);
    assert !IsFirst(s, key, n - 1);
  }

  /** A last element with a new key adds its own position. */
  lemma KeptAfterNew<T, K>(s: seq<T>, key: T -> K, p: seq<int>)
    requires |s| > 0 && KeptPositions(p, s[..|s| - 1], key)
    requires key(s[|s| - 1]) !in Keys(s[..|s| - 1], key)
    ensures KeptPositions(p + [|s| - 1], s, key)
  {
    var n := |s|;
    var init := s[..n - 1];
    var last := s[n - 1];
    forall k | 0 <= k < n - 1
      ensures IsFirst(init, key, k) <==> IsFirst(s, key, k)
    {
      FirstInPrefix(s, key, n - 1, k);
    }
    assert forall m :: 0 <= m < n - 1 ==> Keys(init, key)[m] == key(s[m]);
    assert IsFirst(s, key, n - 1);
    var idx := p + [n - 1];
    var r0 := FirstBy(init, key);
    var r := r0 + [last];
    assert FirstBy(s, key) == r;
    forall k | 0 <= k < |idx|
      ensures 0 <= idx[k] < n && s[idx[k]] == r[k]
    {
      if k < |p| {
        assert init[p[k]] == r0[k];
      }
    }
  }

  /** The positions FirstBy keeps. */
  lemma {:induction false} FirstPositions<T, K>(s: seq<T>, key: T -> K) returns (idx: seq<int>)
    ensures KeptPositions(idx, s, key)
  {
    if s == [] {
      return [];
    }
    var init := s[..|s| - 1];
    var p := FirstPositions(init, key);
    if key(s[|s| - 1]) in Keys(init, key) {
      KeptAfterRepeat(s, key, p);
      idx := p;
    } else {
      KeptAfterNew(s, key, p);
      idx := p + [|s| - 1];
    }
  }

  /** First-occurrence de-duplication keeps at most one element per key. */
  lemma FirstByDistinctKeys<T, K>(s: seq<T>, key: T -> K, i: int, j: int)
    requires 0 <= i < j < |FirstBy(s, key)|
    ensures key(FirstBy(s, key)[i]) != key(FirstBy(s, key)[j])
  {
    var idx := FirstPositions(s, key);
    var r := FirstBy(s, key);
    assert idx[i] < idx[j] by {
      var k := i + 1;
      while k < j
        invariant i < k <= j
        invariant idx[i] < idx[k]
      {
        k := k + 1;
      }
    }
    assert IsFirst(s, key, idx[j]);
    assert r[i] == s[idx[i]] && r[j] == s[idx[j]];
  }

  /** The full characterisation of FirstBy: an order-preserving selection of first
      occurrences that loses no key. */
  lemma FirstByIsFirstOccurrences<T, K>(s: seq<T>, key: T -> K)
    ensures exists idx :: && IsEmbedding(idx, FirstBy(s, key), s)
                          && (forall i :: 0 <= i < |idx| ==> IsFirst(s, key, idx[i]))
                          && (forall k :: 0 <= k < |s| && IsFirst(s, key, k) ==> k in idx)
  {
    var idx := FirstPositions(s, key);
  }

  /** Shifts every position by `n`. */
  function Shift(idx: seq<int>, n: int): (r: seq<int>)
    ensures |r| == |idx| && forall k :: 0 <= k < |idx| ==> r[k] == idx[k] + n
  {
    seq(|idx|, k requires 0 <= k < |idx| => idx[k] + n)
  }

  /** The greedy test for `a` being a subsequence of `b`: the first element of `a` is
      matched with the first equal element of `b`, and so on. */
  function InOrder<T(==)>(a: seq<T>, b: seq<T>): bool
    decreases |b|
  {
    if a == [] then true
    else if b == [] then false
    else if a[0] == b[0] then InOrder(a[1..], b[1..])
    else InOrder(a, b[1..])
  }

  /** A greedy match yields an embedding. */
  lemma {:induction false} InOrderEmbedding<T>(a: seq<T>, b: seq<T>) returns (idx: seq<int>)
    requires InOrder(a, b)
    ensures IsEmbedding(idx, a, b)
    decreases |b|
  {
    if a == [] {
      return [];
    }
    if a[0] == b[0] {
      var rest := InOrderEmbedding(a[1..], b[1..]);
      idx := EmbedMatch(rest, a, b);
    } else {
      var rest := InOrderEmbedding(a, b[1..]);
      idx := Shift(rest, 1);
      EmbedSkip(rest, a, b);
    }
  }

  /** Matching the two heads extends an embedding of the tails. */
  lemma EmbedMatch<T>(rest: seq<int>, a: seq<T>, b: seq<T>) returns (idx: seq<int>)
    requires a != [] && b != [] && a[0] == b[0]
    requires IsEmbedding(rest, a[1..], b[1..])
    ensures idx == [0] + Shift(rest, 1) && IsEmbedding(idx, a, b)
  {
    idx := [0] + Shift(rest, 1);
    forall k | 0 < k < |idx|
      ensures 0 <= idx[k] < |b| && b[idx[k]] == a[k]
    {
      assert idx[k] == rest[k - 1] + 1;
      assert b[1..][rest[k - 1]] == a[1..][k - 1];
    }
    forall k | 1 < k < |idx|
      ensures idx[k - 1] < idx[k]
    {
      assert idx[k - 1] == rest[k - 2] + 1;
    }
    if |idx| > 1 {
      assert idx[0] < idx[1];
    }
  }

  /** Skipping the head of `b` keeps an embedding into its tail an embedding. */
  lemma EmbedSkip<T>(rest: seq<int>, a: seq<T>, b: seq<T>)
    requires b != [] && IsEmbedding(rest, a, b[1..])
    ensures IsEmbedding(Shift(rest, 1), a, b)
  {
    var idx := Shift(rest, 1);
    forall k | 0 <= k < |idx|
      ensures 0 <= idx[k] < |b| && b[idx[k]] == a[k]
    {
      assert b[1..][rest[k]] == a[k];
    }
  }

  /** Any embedding guarantees that the greedy match succeeds. */
  lemma {:induction false} EmbeddingInOrder<T>(idx: seq<int>, a: seq<T>, b: seq<T>)
    requires IsEmbedding(idx, a, b)
    ensures InOrder(a, b)
    decreases |b|
  {
    if a != [] {
      assert b != [] by {
        assert 0 <= idx[0] < |b|;
      }
      if a[0] == b[0] {
        var rest := Shift(idx[1..], -1);
        forall k | 0 <= k < |rest|
          ensures 0 <= rest[k] < |b| - 1 && b[1..][rest[k]] == a[1..][k]
        {
          MonotoneFromFirst(idx, a, b, k + 1);
          assert idx[k + 1] > idx[0];
        }
        assert IsEmbedding(rest, a[1..], b[1..]);
        EmbeddingInOrder(rest, a[1..], b[1..]);
      } else {
        assert idx[0] != 0;
        var rest := Shift(idx, -1);
        forall k | 0 <= k < |rest|
          ensures 0 <= rest[k] < |b| - 1 && b[1..][rest[k]] == a[k]
        {
          MonotoneFromFirst(idx, a, b, k);
        }
        assert IsEmbedding(rest, a, b[1..]);
        EmbeddingInOrder(rest, a, b[1..]);
      }
    }
  }

  /** Positions of an embedding grow from the first one on. */
  lemma {:induction false} MonotoneFromFirst<T>(idx: seq<int>, a: seq<T>, b: seq<T>, k: int)
    requires IsEmbedding(idx, a, b)
    requires 0 <= k < |idx|
    ensures idx[k] >= idx[0] && (k > 0 ==> idx[k] > idx[0])
  {
    if k > 1 {
      MonotoneFromFirst(idx, a, b, k - 1);
    }
  }

  /** The greedy test decides the subsequence relation. */
  lemma InOrderIsSubsequence<T>(a: seq<T>, b: seq<T>)
    ensures InOrder(a, b) <==> Subsequence(a, b)
  {
    if InOrder(a, b) {
      var idx := InOrderEmbedding(a, b);
    }
    if Subsequence(a, b) {
      var idx :| IsEmbedding(idx, a, b);
      EmbeddingInOrder(idx, a, b);
    }
  }

  /** The elements of `s` that `keep` accepts, in their original order. */
  function Filter<T(!new)>(s: seq<T>, keep: T -> bool): (r: seq<T>)
    ensures |r| <= |s|
    ensures forall k :: 0 <= k < |r| ==> keep(r[k])
  {
    if s == [] then []
    else
      var init := s[..|s| - 1];
      var last := s[|s| - 1];
      var r0 := Filter(init, keep);
      if keep(last) then r0 + [last] else r0
  }

  /** Filter keeps every accepted element as often as it occurs and drops the rest. */
  lemma {:induction false} FilterMultiset<T(!new)>(s: seq<T>, keep: T -> bool, x: T)
    ensures multiset(Filter(s, keep))[x] == if keep(x) then multiset(s)[x] else 0
  {
    if s != [] {
      var init := s[..|s| - 1];
      var last := s[|s| - 1];
      assert s == init + [last];
      FilterMultiset(init, keep, x);
    }
  }

  /** One step of Filter: an element is appended exactly when it is accepted. */
  lemma FilterSnoc<T(!new)>(init: seq<T>, last: T, keep: T -> bool)
    ensures Filter(init + [last], keep) == if keep(last) then Filter(init, keep) + [last] else Filter(init, keep)
  {
    assert (init + [last])[..|init|] == init;
  }

  /** The kept elements are exactly the accepted elements of `s`. */
  lemma FilterMembers<T(!new)>(s: seq<T>, keep: T -> bool, x: T)
    ensures x in Filter(s, keep) <==> x in s && keep(x)
  {
    FilterMultiset(s, keep, x);
    assert x in Filter(s, keep) <==> multiset(Filter(s, keep))[x] > 0;
    assert x in s <==> multiset(s)[x] > 0;
  }

  /** The kept elements keep their order: they form a subsequence of `s`. */
  lemma {:induction false} FilterEmbedding<T(!new)>(s: seq<T>, keep: T -> bool) returns (idx: seq<int>)
    ensures IsEmbedding(idx, Filter(s, keep), s)
  {
    if s == [] {
      return [];
    }
    var init := s[..|s| - 1];
    var last := s[|s| - 1];
    var p := FilterEmbedding(init, keep);
    var r0 := Filter(init, keep);
    forall k | 0 <= k < |p|
      ensures 0 <= p[k] < |s| && s[p[k]] == r0[k]
    {
      assert init[p[k]] == r0[k];
    }
    if keep(last) {
      idx := p + [|s| - 1];
      if |p| > 0 {
        assert p[|p| - 1] < |init|;
      }
      assert Filter(s, keep) == r0 + [last];
    } else {
      idx := p;
    }
  }

  lemma FilterSubsequence<T(!new)>(s: seq<T>, keep: T -> bool)
    ensures Subsequence(Filter(s, keep), s)
  {
    var idx := FilterEmbedding(s, keep);
  }
}
