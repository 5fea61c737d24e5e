/** Cutting a permutation of [0, N) down to [0, n) by walking along its cycles
    (validator/rule_cache/dmhc_rule_cache/compute_hash.cc, `compute_hash`, hashes 4 to 7). */
module CycleWalk {

  predicate Distinct(s: seq<nat>) {
    forall i, j | 0 <= i < j < |s| :: s[i] != s[j]
  }

  predicate Below(s: seq<nat>, n: nat) {
    forall i | 0 <= i < |s| :: s[i] < n
  }

  predicate IsPermutation(p: seq<nat>) {
    Below(p, |p|) && Distinct(p)
  }

  // ---- counting ----

  function Range(n: nat): (r: set<nat>)
    ensures |r| == n && forall x: nat :: x in r <==> x < n
  {
    if n == 0 then {}
    else
      var r := Range(n - 1);
      assert n - 1 !in r;
      r + {n - 1}
  }

  function Values(s: seq<nat>): set<nat> {
    set i | 0 <= i < |s| :: s[i]
  }

  lemma {:induction false} DistinctCount(s: seq<nat>)
    requires Distinct(s)
    ensures |Values(s)| == |s|
  {
    if |s| != 0 {
      var init := s[..|s| - 1];
      DistinctCount(init);
      assert Values(s) == Values(init) + {s[|s| - 1]};
    }
  }

  /** `n` distinct numbers below `n` are all of them; there is no room for more. */
  lemma Pigeonhole(s: seq<nat>, n: nat)
    requires Distinct(s) && Below(s, n)
    ensures |s| <= n
    ensures |s| == n ==> forall x: nat | x < n :: x in s
  {
    DistinctCount(s);
    assert Values(s) <= Range(n);
    SubsetSize(Values(s), Range(n));
    if |s| == n {
      forall x: nat | x < n ensures x in s { assert x in Values(s); }
    }
  }

  lemma SubsetSize(a: set<nat>, b: set<nat>)
    requires a <= b
    ensures |a| <= |b| && (|a| == |b| ==> a == b)
  {
    assert b == a + (b - a);
    if |a| == |b| { assert b - a == {}; }
  }

  // ---- walking ----

  /** `path` starts below `n` and follows `p` through values at or above `n`. */
  predicate Chain(p: seq<nat>, n: nat, path: seq<nat>) {
    && |path| >= 1 && path[0] < n <= |p|
    && Below(path, |p|)
    && (forall k | 1 <= k < |path| - 1 :: path[k] >= n)
    && (forall k | 1 <= k < |path| :: path[k] == p[path[k - 1]])
  }

  /** The walk has come back below `n`. */
  predicate Complete(p: seq<nat>, n: nat, path: seq<nat>) {
    Chain(p, n, path) && |path| >= 2 && path[|path| - 1] < n
  }

  predicate Unfinished(p: seq<nat>, n: nat, path: seq<nat>) {
    Chain(p, n, path) && (|path| >= 2 ==> path[|path| - 1] >= n)
  }

  lemma {:induction false} NoRepeat(p: seq<nat>, n: nat, path: seq<nat>, i: nat, j: nat)
    requires IsPermutation(p) && Unfinished(p, n, path)
    requires i < j < |path|
    ensures path[i] != path[j]
  {
    if i != 0 { NoRepeat(p, n, path, i - 1, j - 1); }
  }

  /** An unfinished walk has not visited everything, so walking terminates. */
  lemma UnfinishedIsShort(p: seq<nat>, n: nat, path: seq<nat>)
    requires IsPermutation(p) && Unfinished(p, n, path)
    ensures |path| <= |p|
  {
    forall i, j | 0 <= i < j < |path| ensures path[i] != path[j] { NoRepeat(p, n, path, i, j); }
    Pigeonhole(path, |p|);
  }

  function WalkPath(p: seq<nat>, n: nat, path: seq<nat>): (r: seq<nat>)
    requires IsPermutation(p) && Chain(p, n, path)
    ensures Complete(p, n, r) && path <= r
    decreases if Unfinished(p, n, path) then |p| + 1 - |path| else 0
  {
    if Complete(p, n, path) then path
    else
      UnfinishedIsShort(p, n, path);
      WalkPath(p, n, path + [p[path[|path| - 1]]])
  }

  /** The first value below `n` after `i` on its cycle. */
  function Walk(p: seq<nat>, n: nat, i: nat): (r: nat)
    requires IsPermutation(p) && i < n <= |p|
    ensures r < n
  {
    var path := WalkPath(p, n, [i]);
    path[|path| - 1]
  }

  /** Two complete walks that end together agree step by step, counted from the end. */
  lemma {:induction false} SameFromEnd(p: seq<nat>, n: nat, a: seq<nat>, b: seq<nat>, k: nat)
    requires IsPermutation(p) && Complete(p, n, a) && Complete(p, n, b)
    requires a[|a| - 1] == b[|b| - 1]
    requires k < |a| && k < |b|
    ensures a[|a| - 1 - k] == b[|b| - 1 - k]
  {
    if k != 0 {
      SameFromEnd(p, n, a, b, k - 1);
      assert p[a[|a| - 1 - k]] == a[|a| - k] && p[b[|b| - 1 - k]] == b[|b| - k];
    }
  }

  lemma CompleteWalksAreEqual(p: seq<nat>, n: nat, a: seq<nat>, b: seq<nat>)
    requires IsPermutation(p) && Complete(p, n, a) && Complete(p, n, b)
    requires a[|a| - 1] == b[|b| - 1]
    ensures a == b
  {
    if |a| < |b| {
      SameFromEnd(p, n, a, b, |a| - 1);
    } else if |b| < |a| {
      SameFromEnd(p, n, a, b, |b| - 1);
    } else {
      forall i | 0 <= i < |a| ensures a[i] == b[i] { SameFromEnd(p, n, a, b, |a| - 1 - i); }
    }
  }

  ghost predicate IsWalkOf(p: seq<nat>, n: nat, r: nat)
    requires IsPermutation(p) && n <= |p|
  {
    exists i: nat :: i < n && Walk(p, n, i) == r
  }

  /** Cycle walking turns a permutation of [0, N) into a permutation of [0, n), for every n <= N. */
  lemma WalkIsBijection(p: seq<nat>, n: nat)
    requires IsPermutation(p) && n <= |p|
    ensures forall i, j | 0 <= i < j < n :: Walk(p, n, i) != Walk(p, n, j)
    ensures forall r: nat | r < n :: IsWalkOf(p, n, r)
  {
    forall i, j | 0 <= i < j < n ensures Walk(p, n, i) != Walk(p, n, j) {
      if Walk(p, n, i) == Walk(p, n, j) {
        CompleteWalksAreEqual(p, n, WalkPath(p, n, [i]), WalkPath(p, n, [j]));
      }
    }
    var all := seq(n, i requires 0 <= i < n => Walk(p, n, i));
    Pigeonhole(all, n);
    forall r: nat | r < n ensures IsWalkOf(p, n, r) {
      assert r in all;
      var i :| 0 <= i < n && all[i] == r;
      assert Walk(p, n, i) == r;
    }
  }

  lemma WalkStep(p: seq<nat>, n: nat, path: seq<nat>)
    requires IsPermutation(p) && Unfinished(p, n, path)
    ensures var next := path + [p[path[|path| - 1]]];
            Chain(p, n, next) && WalkPath(p, n, next) == WalkPath(p, n, path)
    ensures |path| <= |p|
  {
    UnfinishedIsShort(p, n, path);
    assert !Complete(p, n, path);
  }

  /** `tmp = perm[i]; while (tmp >= num_fields) tmp = perm[tmp];` */
  method WalkLoop(p: seq<nat>, n: nat, i: nat) returns (tmp: nat)
    requires IsPermutation(p) && i < n <= |p|
    ensures tmp == Walk(p, n, i)
  {
    tmp := p[i];
    ghost var path := [i] + [tmp];
    WalkStep(p, n, [i]);
    while tmp >= n
      invariant Chain(p, n, path) && |path| >= 2 && path[|path| - 1] == tmp
      invariant WalkPath(p, n, path) == WalkPath(p, n, [i])
      invariant |path| <= |p| + 1
      decreases |p| + 1 - |path|
    {
      WalkStep(p, n, path);
      tmp := p[tmp];
      path := path + [tmp];
    }
    assert Complete(p, n, path);
  }
}
