/** Python's `sorted(xs, key=k)` and `xs.sort(key=k, reverse=True)`: a stable
    sort of a sequence by a key, under an ordering of keys given as a
    "comes no later than" relation `le`. An ascending sort uses `a <= b`, a
    `reverse=True` sort uses `a >= b`; in both, elements whose keys compare
    equal keep their original relative order, as Python guarantees. */
module Sorting {

  ghost predicate TotalPreorder<K(!new)>(le: (K, K) -> bool) {
    && (forall a, b :: le(a, b) || le(b, a))
    && (forall a, b, c :: le(a, b) && le(b, c) ==> le(a, c))
  }

  /** Every element comes no later than every element after it. */
  ghost predicate SortedBy<T, K>(s: seq<T>, key: T -> K, le: (K, K) -> bool) {
    forall i, j :: 0 <= i < j < |s| ==> le(key(s[i]), key(s[j]))
  }

  /** Ascending and descending orders on integers and reals. */
  function IntAsc(a: int, b: int): bool { a <= b }
  function IntDesc(a: int, b: int): bool { a >= b }
  function RealDesc(a: real, b: real): bool { a >= b }

  lemma IntOrdersTotal()
    ensures TotalPreorder(IntAsc) && TotalPreorder(IntDesc) && TotalPreorder(RealDesc)
  {
  }

  /** Places `x` before the first element of `t` that it comes no later than,
      that is after exactly those elements that come strictly before it. */
  function Insert<T, K>(x: T, t: seq<T>, key: T -> K, le: (K, K) -> bool): (r: seq<T>)
    ensures |r| == |t| + 1
    ensures multiset(r) == multiset(t) + multiset{x}
  {
    if t == [] || le(key(x), key(t[0])) then [x] + t
    else
      assert t == [t[0]] + t[1..];
      [t[0]] + Insert(x, t[1..], key, le)
  }

  function StableSort<T, K>(s: seq<T>, key: T -> K, le: (K, K) -> bool): (r: seq<T>)
    ensures |r| == |s|
    ensures multiset(r) == multiset(s)
  {
    if s == [] then []
    else
      assert s == [s[0]] + s[1..];
      Insert(s[0], StableSort(s[1..], key, le), key, le)
  }

  lemma {:induction false} InsertSorted<T, K(!new)>(x: T, t: seq<T>, key: T -> K, le: (K, K) -> bool)
    requires TotalPreorder(le)
    requires SortedBy(t, key, le)
    ensures SortedBy(Insert(x, t, key, le), key, le)
    ensures forall y :: y in Insert(x, t, key, le) ==> y == x || y in t
  {
    if t != [] && !le(key(x), key(t[0])) {
      var rest := Insert(x, t[1..], key, le);
      InsertSorted(x, t[1..], key, le);
      assert forall y :: y in rest ==> y == x || y in t[1..];
      var r := [t[0]] + rest;
      forall i, j | 0 <= i < j < |r|
        ensures le(key(r[i]), key(r[j]))
      {
        if i == 0 {
          assert r[j] in rest;
          if r[j] != x {
            var k :| 1 <= k < |t| && t[k] == r[j];
          }
        }
      }
    }
  }

  /** The result is ordered by `le`. */
  lemma {:induction false} StableSortSorted<T, K(!new)>(s: seq<T>, key: T -> K, le: (K, K) -> bool)
    requires TotalPreorder(le)
    ensures SortedBy(StableSort(s, key, le), key, le)
  {
    if s != [] {
      StableSortSorted(s[1..], key, le);
      InsertSorted(s[0], StableSort(s[1..], key, le), key, le);
    }
  }

  /** The elements of `s` whose key is equivalent to `k`, in order. */
  function KeepClass<T, K>(s: seq<T>, key: T -> K, le: (K, K) -> bool, k: K): (r: seq<T>)
    ensures |r| <= |s|
  {
    if s == [] then []
    else
      var head := if le(key(s[0]), k) && le(k, key(s[0])) then [s[0]] else [];
      head + KeepClass(s[1..], key, le, k)
  }

  /** Every element of a class is an element of the sequence. */
  lemma {:induction false} KeepClassMembers<T, K>(s: seq<T>, key: T -> K, le: (K, K) -> bool, k: K, x: T)
    requires x in KeepClass(s, key, le, k)
    ensures x in s
  {
    if s != [] && x != s[0] {
      var head := if le(key(s[0]), k) && le(k, key(s[0])) then [s[0]] else [];
      assert x in KeepClass(s[1..], key, le, k);
      KeepClassMembers(s[1..], key, le, k, x);
    }
  }

  /** `before` holds from each element of `s` to every later one. */
  predicate PairwiseIn<T>(s: seq<T>, before: (T, T) -> bool) {
    forall i, j :: 0 <= i < j < |s| ==> before(s[i], s[j])
  }

  /** A class lists its elements in their order in `s`: any relation that
      holds from each element of `s` to every later one holds in the class
      too. */
  lemma {:induction false} KeepClassKeepsOrder<T, K>(s: seq<T>, key: T -> K, le: (K, K) -> bool, k: K, before: (T, T) -> bool)
    requires PairwiseIn(s, before)
    ensures PairwiseIn(KeepClass(s, key, le, k), before)
  {
    if s != [] {
      var tail := s[1..];
      var rest := KeepClass(tail, key, le, k);
      assert PairwiseIn(tail, before) by {
        forall i, j | 0 <= i < j < |tail|
          ensures before(tail[i], tail[j])
        {
          assert tail[i] == s[i + 1] && tail[j] == s[j + 1];
        }
      }
      KeepClassKeepsOrder(tail, key, le, k, before);
      if le(key(s[0]), k) && le(k, key(s[0])) {
        var c := [s[0]] + rest;
        assert KeepClass(s, key, le, k) == c;
        forall j | 0 < j < |c|
          ensures before(c[0], c[j])
        {
          var y := rest[j - 1];
          assert c[j] == y && y in rest;
          KeepClassMembers(tail, key, le, k, y);
          var m :| 0 <= m < |tail| && tail[m] == y;
          assert s[m + 1] == y;
        }
        forall i, j | 0 < i < j < |c|
          ensures before(c[i], c[j])
        {
          assert c[i] == rest[i - 1] && c[j] == rest[j - 1];
        }
      } else {
        assert KeepClass(s, key, le, k) == rest;
      }
    }
  }

  lemma {:induction false} InsertKeepsClass<T, K(!new)>(x: T, t: seq<T>, key: T -> K, le: (K, K) -> bool, k: K)
    requires TotalPreorder(le)
    ensures KeepClass(Insert(x, t, key, le), key, le, k) == KeepClass([x] + t, key, le, k)
  {
    if t != [] && !le(key(x), key(t[0])) {
      InsertKeepsClass(x, t[1..], key, le, k);
      var r := Insert(x, t, key, le);
      assert r == [t[0]] + Insert(x, t[1..], key, le);
      assert r[1..] == Insert(x, t[1..], key, le);
      assert ([x] + t)[1..] == t;
      assert ([x] + t[1..])[1..] == t[1..];
      assert t[1..] == t[1..];
      var inX := le(key(x), k) && le(k, key(x));
      var in0 := le(key(t[0]), k) && le(k, key(t[0]));
      assert !(inX && in0);
      assert ([t[0]] + ([x] + t[1..]))[1..] == [x] + t[1..];
      assert t == [t[0]] + t[1..];
    } else {
      assert Insert(x, t, key, le) == [x] + t;
    }
  }

  /** Stability: for every class of equivalent keys, the elements of that
      class appear in the result in the same order as in the input. */
  lemma {:induction false} StableSortStable<T, K(!new)>(s: seq<T>, key: T -> K, le: (K, K) -> bool, k: K)
    requires TotalPreorder(le)
    ensures KeepClass(StableSort(s, key, le), key, le, k) == KeepClass(s, key, le, k)
  {
    if s != [] {
      StableSortStable(s[1..], key, le, k);
      var t := StableSort(s[1..], key, le);
      InsertKeepsClass(s[0], t, key, le, k);
      assert ([s[0]] + t)[1..] == t;
    }
  }

  /** A sequence already in order is left as it is. */
  lemma {:induction false} StableSortOfSorted<T, K>(s: seq<T>, key: T -> K, le: (K, K) -> bool)
    requires SortedBy(s, key, le)
    ensures StableSort(s, key, le) == s
  {
    if s != [] {
      assert SortedBy(s[1..], key, le);
      StableSortOfSorted(s[1..], key, le);
      if |s| > 1 {
        assert le(key(s[0]), key(s[1..][0]));
      }
    }
  }

  /** Python's comparison of two strings: code point by code point, a proper
      prefix coming first. */
  function StrLe(a: string, b: string): bool {
    if a == [] then true
    else if b == [] then false
    else if a[0] != b[0] then a[0] < b[0]
    else StrLe(a[1..], b[1..])
  }

  function StrDesc(a: string, b: string): bool { StrLe(b, a) }

  lemma {:induction false} StrLeConnected(a: string, b: string)
    ensures StrLe(a, b) || StrLe(b, a)
  {
    if a != [] && b != [] && a[0] == b[0] {
      StrLeConnected(a[1..], b[1..]);
    }
  }

  lemma {:induction false} StrLeTransitive(a: string, b: string, c: string)
    requires StrLe(a, b) && StrLe(b, c)
    ensures StrLe(a, c)
  {
    if a != [] && b != [] && c != [] && a[0] == b[0] && b[0] == c[0] {
      StrLeTransitive(a[1..], b[1..], c[1..]);
    }
  }

  lemma {:induction false} StrLeAntisymmetric(a: string, b: string)
    requires StrLe(a, b) && StrLe(b, a)
    ensures a == b
  {
    if a != [] && b != [] {
      StrLeAntisymmetric(a[1..], b[1..]);
      assert a == [a[0]] + a[1..] && b == [b[0]] + b[1..];
    }
  }

  /** String comparison is a total order, in both directions. */
  lemma StrOrdersTotal()
    ensures TotalPreorder(StrLe) && TotalPreorder(StrDesc)
  {
    forall a, b
      ensures StrLe(a, b) || StrLe(b, a)
    {
      StrLeConnected(a, b);
    }
    forall a, b, c | StrLe(a, b) && StrLe(b, c)
      ensures StrLe(a, c)
    {
      StrLeTransitive(a, b, c);
    }
    forall a, b, c | StrDesc(a, b) && StrDesc(b, c)
      ensures StrDesc(a, c)
    {
      StrLeTransitive(c, b, a);
    }
  }

  // ---------------------------------------------------------------------
  // Distinct values
  // ---------------------------------------------------------------------

  ghost predicate NoDuplicates<T>(s: seq<T>) {
    forall i, j :: 0 <= i < j < |s| ==> s[i] != s[j]
  }

  /** The values of `s`, each once, in order of first appearance: the order
      a Python dict or set built from `s` would list them in. */
  function Dedup<T(==,!new)>(s: seq<T>): (r: seq<T>)
    ensures NoDuplicates(r)
    ensures forall x :: x in r <==> x in s
  {
    DedupFrom([], s)
  }

  function DedupFrom<T(==,!new)>(seen: seq<T>, s: seq<T>): (r: seq<T>)
    requires NoDuplicates(seen)
    ensures NoDuplicates(r)
    ensures forall x :: x in r <==> x in seen || x in s
    ensures |seen| <= |r| && r[..|seen|] == seen
    decreases |s|
  {
    if s == [] then seen
    else
      assert s == [s[0]] + s[1..];
      if s[0] in seen then DedupFrom(seen, s[1..])
      else
        var next := seen + [s[0]];
        var r := DedupFrom(next, s[1..]);
        assert r[..|seen|] == r[..|next|][..|seen|];
        r
  }

  /** A sequence has no duplicates exactly when it has as many elements as
      distinct values. */
  lemma {:induction false} DistinctCount<T>(s: seq<T>)
    ensures |set x | x in s| <= |s|
    ensures NoDuplicates(s) <==> |set x | x in s| == |s|
  {
    if s != [] {
      var rest := s[1..];
      DistinctCount(rest);
      assert s == [s[0]] + rest;
      assert (set x | x in s) == {s[0]} + (set x | x in rest);
      if s[0] in rest {
        var k :| 0 <= k < |rest| && rest[k] == s[0];
        assert s[k + 1] == s[0];
        assert (set x | x in s) == (set x | x in rest);
      } else {
        forall i, j | 0 <= i < j < |s| && NoDuplicates(rest)
          ensures s[i] != s[j]
        {
          if i > 0 {
            assert s[i] == rest[i - 1] && s[j] == rest[j - 1];
          }
        }
        assert NoDuplicates(s) ==> NoDuplicates(rest) by {
          forall i, j | 0 <= i < j < |rest|
            ensures NoDuplicates(s) ==> rest[i] != rest[j]
          {
            assert rest[i] == s[i + 1] && rest[j] == s[j + 1];
          }
        }
      }
    }
  }

  /** Reordering keeps a sequence free of duplicates. */
  lemma PermutationNoDuplicates<T>(a: seq<T>, b: seq<T>)
    requires multiset(a) == multiset(b) && NoDuplicates(a)
    ensures NoDuplicates(b)
  {
    assert (set x | x in a) == (set x | x in b) by {
      forall x
        ensures x in a <==> x in b
      {
        assert x in a <==> x in multiset(a);
        assert x in b <==> x in multiset(b);
      }
    }
    DistinctCount(a);
    DistinctCount(b);
  }

  // ---------------------------------------------------------------------
  // Subsequences
  // ---------------------------------------------------------------------

  /** `a` appears in `b` in order, possibly with other elements between. */
  predicate IsSubsequence<T(==)>(a: seq<T>, b: seq<T>)
    decreases |b|
  {
    if a == [] then true
    else if b == [] then false
    else (a[0] == b[0] && IsSubsequence(a[1..], b[1..])) || IsSubsequence(a, b[1..])
  }

  lemma {:induction false} SubsequenceOfItself<T>(a: seq<T>)
    ensures IsSubsequence(a, a)
  {
    if a != [] {
      SubsequenceOfItself(a[1..]);
    }
  }

  // ---------------------------------------------------------------------
  // Filtering
  // ---------------------------------------------------------------------

  /** `[x for x in s if p(x)]`. */
  function Filter<T(!new)>(s: seq<T>, p: T -> bool): (r: seq<T>)
    ensures |r| <= |s|
    ensures forall x :: x in r <==> x in s && p(x)
  {
    if s == [] then []
    else
      assert s == [s[0]] + s[1..];
      (if p(s[0]) then [s[0]] else []) + Filter(s[1..], p)
  }

  /** A filter keeps every copy of a kept element and no copy of a dropped
      one. */
  lemma {:induction false} FilterCounts<T(!new)>(s: seq<T>, p: T -> bool)
    ensures forall x :: multiset(Filter(s, p))[x] == if p(x) then multiset(s)[x] else 0
  {
    if s != [] {
      FilterCounts(s[1..], p);
      assert s == [s[0]] + s[1..];
      assert multiset(s) == multiset{s[0]} + multiset(s[1..]);
      var rest := Filter(s[1..], p);
      if p(s[0]) {
        assert Filter(s, p) == [s[0]] + rest;
        assert multiset(Filter(s, p)) == multiset{s[0]} + multiset(rest);
      } else {
        assert Filter(s, p) == rest;
      }
    }
  }

  /** A filter keeps the order of what it keeps. */
  lemma {:induction false} FilterIsSubsequence<T(!new)>(s: seq<T>, p: T -> bool)
    ensures IsSubsequence(Filter(s, p), s)
  {
    if s != [] {
      FilterIsSubsequence(s[1..], p);
      var rest := Filter(s[1..], p);
      if p(s[0]) {
        assert Filter(s, p) == [s[0]] + rest;
        assert ([s[0]] + rest)[1..] == rest;
      } else {
        assert Filter(s, p) == rest;
        assert rest == [] || IsSubsequence(rest, s);
      }
    }
  }

  /** Filtering distributes over concatenation, so it keeps relative order. */
  lemma {:induction false} FilterConcat<T(!new)>(a: seq<T>, b: seq<T>, p: T -> bool)
    ensures Filter(a + b, p) == Filter(a, p) + Filter(b, p)
  {
    if a != [] {
      FilterConcat(a[1..], b, p);
      assert (a + b)[1..] == a[1..] + b;
    } else {
      assert a + b == b;
    }
  }

  /** A filter that keeps everything is the identity. */
  lemma {:induction false} FilterAll<T(!new)>(s: seq<T>, p: T -> bool)
    requires forall x :: x in s ==> p(x)
    ensures Filter(s, p) == s
  {
    if s != [] {
      FilterAll(s[1..], p);
      assert s == [s[0]] + s[1..];
    }
  }

  /** A filter that keeps nothing yields the empty list. */
  lemma {:induction false} FilterNone<T(!new)>(s: seq<T>, p: T -> bool)
    requires forall x :: x in s ==> !p(x)
    ensures Filter(s, p) == []
  {
    if s != [] {
      FilterNone(s[1..], p);
      assert s == [s[0]] + s[1..];
    }
  }

  // ---------------------------------------------------------------------
  // Sums
  // ---------------------------------------------------------------------

  /** `sum(f(x) for x in s)`. */
  function SumOf<T>(s: seq<T>, f: T -> int): int {
    if s == [] then 0 else f(s[0]) + SumOf(s[1..], f)
  }

  lemma {:induction false} SumOfConcat<T>(a: seq<T>, b: seq<T>, f: T -> int)
    ensures SumOf(a + b, f) == SumOf(a, f) + SumOf(b, f)
  {
    if a != [] {
      SumOfConcat(a[1..], b, f);
      assert (a + b)[1..] == a[1..] + b;
    } else {
      assert a + b == b;
    }
  }

  /** Replacing one term changes the sum by the difference. */
  lemma SumOfUpdate<T>(s: seq<T>, i: nat, e: T, f: T -> int)
    requires i < |s|
    ensures SumOf(s[i := e], f) == SumOf(s, f) - f(s[i]) + f(e)
  {
    var pre, post := s[..i], s[i + 1..];
    assert s == pre + [s[i]] + post;
    assert s[i := e] == pre + [e] + post;
    SumOfConcat(pre + [s[i]], post, f);
    SumOfConcat(pre, [s[i]], f);
    SumOfConcat(pre + [e], post, f);
    SumOfConcat(pre, [e], f);
    assert SumOf([s[i]], f) == f(s[i]) + SumOf([s[i]][1..], f);
    assert SumOf([e], f) == f(e) + SumOf([e][1..], f);
  }

  lemma MultisetRemove<T>(b: seq<T>, i: nat)
    requires i < |b|
    ensures multiset(b[..i] + b[i + 1..]) + multiset{b[i]} == multiset(b)
  {
    assert b == b[..i] + [b[i]] + b[i + 1..];
  }

  lemma MultisetCancel<T>(p: multiset<T>, q: multiset<T>, x: T)
    requires p + multiset{x} == q + multiset{x}
    ensures p == q
  {
    forall y
      ensures p[y] == q[y]
    {
      assert (p + multiset{x})[y] == (q + multiset{x})[y];
    }
  }

  /** The sum is one term plus the sum of the others. */
  lemma SumOfRemove<T>(b: seq<T>, i: nat, f: T -> int)
    requires i < |b|
    ensures SumOf(b, f) == f(b[i]) + SumOf(b[..i] + b[i + 1..], f)
  {
    var pre, post := b[..i], b[i + 1..];
    var tail := [b[i]] + post;
    assert b == pre + tail;
    assert SumOf(tail, f) == f(b[i]) + SumOf(post, f) by {
      assert tail[0] == b[i] && tail[1..] == post;
    }
    SumOfConcat(pre, tail, f);
    SumOfConcat(pre, post, f);
  }

  /** Taking the same element out of two permutations of each other leaves
      permutations of each other. */
  lemma PermutationRemove<T>(a: seq<T>, b: seq<T>, i: nat)
    requires multiset(a) == multiset(b) && a != [] && i < |b| && b[i] == a[0]
    ensures multiset(a[1..]) == multiset(b[..i] + b[i + 1..])
  {
    MultisetRemove(b, i);
    MultisetRemove(a, 0);
    assert a[..0] + a[1..] == a[1..];
    MultisetCancel(multiset(b[..i] + b[i + 1..]), multiset(a[1..]), a[0]);
  }

  /** A sum does not depend on the order of its terms. */
  lemma {:induction false} SumOfPermutation<T>(a: seq<T>, b: seq<T>, f: T -> int)
    requires multiset(a) == multiset(b)
    ensures SumOf(a, f) == SumOf(b, f)
    decreases |a|
  {
    if a != [] {
      assert a[0] in multiset(b);
      var i :| 0 <= i < |b| && b[i] == a[0];
      var rest := b[..i] + b[i + 1..];
      assert multiset(a[1..]) == multiset(rest) by {
        PermutationRemove(a, b, i);
      }
      SumOfPermutation(a[1..], rest, f);
      SumOfRemove(b, i, f);
    }
  }
}
