/** The pandas table operations the data preparation applies, on a table
    seen as a sequence of rows: mapping a function over the rows, keeping the
    rows a mask selects, and `drop_duplicates(keep="first")`. */
module Sequences {
  /** `f` applied to every element, in order. */
  function Map<T, U>(s: seq<T>, f: T -> U): (r: seq<U>)
    ensures |r| == |s|
    ensures forall i :: 0 <= i < |s| ==> r[i] == f(s[i])
  {
    seq(|s|, i requires 0 <= i < |s| => f(s[i]))
  }

  lemma MapAppend<T, U>(s: seq<T>, x: T, f: T -> U)
    ensures Map(s + [x], f) == Map(s, f) + [f(x)]
  {
  }

  /** The elements of `s` that satisfy `keep`, in order. */
  function Filter<T>(s: seq<T>, keep: T -> bool): (r: seq<T>)
    ensures |r| <= |s|
    ensures forall i :: 0 <= i < |r| ==> keep(r[i]) && r[i] in s
  {
    if s == [] then []
    else
      var init := Filter(s[..|s| - 1], keep);
      if keep(s[|s| - 1]) then init + [s[|s| - 1]] else init
  }

  /** Nothing that satisfies `keep` is dropped. */
  lemma {:induction false} FilterKeeps<T>(s: seq<T>, keep: T -> bool, x: T)
    requires x in s && keep(x)
    ensures x in Filter(s, keep)
  {
    if x != s[|s| - 1] {
      assert x in s[..|s| - 1];
      FilterKeeps(s[..|s| - 1], keep, x);
    }
  }

  /** Filtering a concatenation filters each part. */
  lemma {:induction false} FilterAppend<T>(a: seq<T>, b: seq<T>, keep: T -> bool)
    ensures Filter(a + b, keep) == Filter(a, keep) + Filter(b, keep)
    decreases |b|
  {
    if b == [] {
      assert a + b == a;
    } else {
      var c := b[..|b| - 1];
      assert (a + b)[..|a + b| - 1] == a + c;
      FilterAppend(a, c, keep);
    }
  }

  /** `p` is `s` with some elements left out: `idx` says where each element
      of `p` sits in `s`, at strictly increasing positions. */
  ghost predicate InOrder<T>(p: seq<T>, s: seq<T>, idx: seq<int>) {
    && |idx| == |p|
    && (forall k :: 0 <= k < |idx| ==> 0 <= idx[k] < |s| && p[k] == s[idx[k]])
    && (forall k, l :: 0 <= k < l < |idx| ==> idx[k] < idx[l])
  }

  ghost predicate Subsequence<T>(p: seq<T>, s: seq<T>) {
    exists idx :: InOrder(p, s, idx)
  }

  /** A subsequence of `s` stays one of `s + [x]`, with or without `x`
      appended to it. */
  lemma SubsequenceSnoc<T>(p: seq<T>, s: seq<T>, x: T)
    requires Subsequence(p, s)
    ensures Subsequence(p, s + [x])
    ensures Subsequence(p + [x], s + [x])
  {
    var idx :| InOrder(p, s, idx);
    assert InOrder(p, s + [x], idx);
    assert InOrder(p + [x], s + [x], idx + [|s|]);
  }

  /** Filtering keeps the surviving elements in input order. */
  lemma {:induction false} FilterSubsequence<T>(s: seq<T>, keep: T -> bool)
    ensures Subsequence(Filter(s, keep), s)
  {
    if s == [] {
      assert InOrder([], s, []);
    } else {
      var pre := s[..|s| - 1];
      FilterSubsequence(pre, keep);
      SubsequenceSnoc(Filter(pre, keep), pre, s[|s| - 1]);
      assert pre + [s[|s| - 1]] == s;
    }
  }

  /** A subsequence of a subsequence is a subsequence. */
  lemma SubsequenceTrans<T>(a: seq<T>, b: seq<T>, c: seq<T>)
    requires Subsequence(a, b) && Subsequence(b, c)
    ensures Subsequence(a, c)
  {
    var i1 :| InOrder(a, b, i1);
    var i2 :| InOrder(b, c, i2);
    var idx := seq(|i1|, k requires 0 <= k < |i1| => i2[i1[k]]);
    assert InOrder(a, c, idx);
  }

  /** Mapping keeps the order of a subsequence. */
  lemma SubsequenceMap<T, U>(p: seq<T>, s: seq<T>, f: T -> U)
    requires Subsequence(p, s)
    ensures Subsequence(Map(p, f), Map(s, f))
  {
    var idx :| InOrder(p, s, idx);
    assert InOrder(Map(p, f), Map(s, f), idx);
  }

  /** `df = df[mask]`: keep the rows that satisfy `keep`, in order. */
  method KeepWhere<T>(s: seq<T>, keep: T -> bool) returns (r: seq<T>)
    ensures r == Filter(s, keep)
  {
    r := [];
    for i := 0 to |s|
      invariant r == Filter(s[..i], keep)
    {
      assert s[..i + 1][..i] == s[..i];
      if keep(s[i]) {
        r := r + [s[i]];
      }
    }
    assert s[..|s|] == s;
  }

  /** The keys of the elements of `s`. */
  function KeysOf<T, K>(s: seq<T>, key: T -> K): set<K> {
    set i | 0 <= i < |s| :: key(s[i])
  }

  lemma KeysOfAppend<T, K>(s: seq<T>, x: T, key: T -> K)
    ensures KeysOf(s + [x], key) == KeysOf(s, key) + {key(x)}
  {
    var t := s + [x];
    forall k | k in KeysOf(t, key) ensures k in KeysOf(s, key) + {key(x)} {
      var i :| 0 <= i < |t| && key(t[i]) == k;
      if i < |s| {
        assert t[i] == s[i];
      }
    }
    forall k | k in KeysOf(s, key) ensures k in KeysOf(t, key) {
      var i :| 0 <= i < |s| && key(s[i]) == k;
      assert t[i] == s[i];
    }
    assert key(t[|s|]) == key(x);
  }

  /** The element at `i` is the first one with its key. */
  predicate FirstWithKey<T, K(==)>(s: seq<T>, key: T -> K, i: int)
    requires 0 <= i < |s|
  {
    forall j :: 0 <= j < i ==> key(s[j]) != key(s[i])
  }

  /** `drop_duplicates(keep="first")`: scan left to right and keep an element
      unless one with the same key was kept before. */
  function KeepFirst<T, K(==)>(s: seq<T>, key: T -> K): (r: seq<T>)
    ensures |r| <= |s|
  {
    if s == [] then []
    else
      var init := KeepFirst(s[..|s| - 1], key);
      if key(s[|s| - 1]) in KeysOf(init, key) then init else init + [s[|s| - 1]]
  }

  /** The kept elements have pairwise distinct keys. */
  lemma {:induction false} KeepFirstDistinct<T, K>(s: seq<T>, key: T -> K)
    ensures forall i, j :: 0 <= i < j < |KeepFirst(s, key)| ==>
      key(KeepFirst(s, key)[i]) != key(KeepFirst(s, key)[j])
  {
    if s != [] {
      var init := KeepFirst(s[..|s| - 1], key);
      var x := s[|s| - 1];
      KeepFirstDistinct(s[..|s| - 1], key);
      if key(x) !in KeysOf(init, key) {
        assert KeepFirst(s, key) == init + [x];
        assert forall i :: 0 <= i < |init| ==> key(init[i]) in KeysOf(init, key);
      }
    }
  }

  /** Every kept element comes from the input. */
  lemma {:induction false} KeepFirstFrom<T, K>(s: seq<T>, key: T -> K)
    ensures forall i :: 0 <= i < |KeepFirst(s, key)| ==> KeepFirst(s, key)[i] in s
  {
    if s != [] {
      var pre := s[..|s| - 1];
      KeepFirstFrom(pre, key);
      assert forall y :: y in pre ==> y in s;
    }
  }

  /** The kept elements cover every key of the input. */
  lemma {:induction false} KeepFirstCovers<T, K>(s: seq<T>, key: T -> K)
    ensures KeysOf(KeepFirst(s, key), key) == KeysOf(s, key)
  {
    if s != [] {
      var pre := s[..|s| - 1];
      var init := KeepFirst(pre, key);
      var x := s[|s| - 1];
      KeepFirstCovers(pre, key);
      if key(x) !in KeysOf(init, key) {
        assert KeepFirst(s, key) == init + [x];
        KeysOfAppend(init, x, key);
      }
      assert s == pre + [x];
      KeysOfAppend(pre, x, key);
    }
  }

  /** Every element that is the first with its key is kept. */
  lemma {:induction false} KeepFirstKeepsFirsts<T, K>(s: seq<T>, key: T -> K, i: nat)
    requires i < |s| && FirstWithKey(s, key, i)
    ensures s[i] in KeepFirst(s, key)
  {
    var pre := s[..|s| - 1];
    var init := KeepFirst(pre, key);
    if i < |s| - 1 {
      assert FirstWithKey(pre, key, i);
      KeepFirstKeepsFirsts(pre, key, i);
    } else {
      KeepFirstCovers(pre, key);
      assert key(s[i]) !in KeysOf(pre, key);
    }
  }

  /** Scanning a prefix keeps a prefix of what scanning the whole keeps: the
      kept elements stay in input order. */
  lemma {:induction false} KeepFirstPrefix<T, K>(s: seq<T>, key: T -> K, n: nat)
    requires n <= |s|
    ensures IsPrefix(KeepFirst(s[..n], key), KeepFirst(s, key))
    decreases |s|
  {
    if n < |s| {
      var pre := s[..|s| - 1];
      assert s[..n] == pre[..n];
      KeepFirstPrefix(pre, key, n);
    } else {
      assert s[..n] == s;
    }
  }

  /** `drop_duplicates` keeps the surviving elements in input order. */
  lemma {:induction false} KeepFirstSubsequence<T, K>(s: seq<T>, key: T -> K)
    ensures Subsequence(KeepFirst(s, key), s)
  {
    if s == [] {
      assert InOrder([], s, []);
    } else {
      var pre := s[..|s| - 1];
      KeepFirstSubsequence(pre, key);
      SubsequenceSnoc(KeepFirst(pre, key), pre, s[|s| - 1]);
      assert pre + [s[|s| - 1]] == s;
    }
  }

  ghost predicate IsPrefix<T>(p: seq<T>, s: seq<T>) {
    |p| <= |s| && s[..|p|] == p
  }

  /** `df.drop_duplicates(subset=[...])`, as a loop with the set of keys seen
      so far. */
  method DropDuplicates<T, K(==)>(s: seq<T>, key: T -> K) returns (r: seq<T>)
    ensures r == KeepFirst(s, key)
  {
    r := [];
    var seen: set<K> := {};
    for i := 0 to |s|
      invariant r == KeepFirst(s[..i], key)
      invariant seen == KeysOf(r, key)
    {
      assert s[..i + 1][..i] == s[..i];
      if key(s[i]) !in seen {
        r := r + [s[i]];
        seen := seen + {key(s[i])};
        KeysOfAppend(r[..|r| - 1], s[i], key);
        assert r == r[..|r| - 1] + [s[i]];
      }
    }
    assert s[..|s|] == s;
  }
}
