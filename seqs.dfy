/**
 * The list combinators the source leans on (`Array.prototype.filter` and
 * `Array.prototype.every`), with the facts about them that the matching
 * engine and the reducers use.
 */
module Seqs {

  /** The elements of `s` that `keep` accepts, in their original order. */
  function Filter<T>(s: seq<T>, keep: T -> bool): (r: seq<T>)
    ensures |r| <= |s|
    ensures forall i :: 0 <= i < |r| ==> keep(r[i])
  {
    if s == [] then []
    else (if keep(s[0]) then [s[0]] else []) + Filter(s[1..], keep)
  }

  /** A sequence is what comes before position `k` followed by the rest. */
  lemma SplitAt<T>(s: seq<T>, k: nat)
    requires k <= |s|
    ensures s == s[..k] + s[k..]
  {
  }

  /** A sequence is what comes before position `k`, the element there, and what follows. */
  lemma SplitAround<T>(s: seq<T>, k: nat)
    requires k < |s|
    ensures s == s[..k] + ([s[k]] + s[k + 1..])
  {
  }

  /** The first `m` elements of the suffix from `k` are the slice from `k` of length `m`. */
  lemma SliceOfSuffix<T>(s: seq<T>, k: nat, m: nat)
    requires k + m <= |s|
    ensures s[k..][..m] == s[k..k + m]
  {
  }

  /** Three sequences laid end to end, split again after the first and after the first element of the second. */
  lemma ThreeParts<T>(w: seq<T>, g: seq<T>, r: seq<T>)
    requires g != []
    ensures w + g + r == w + (g + r)
    ensures (w + g + r)[..|w|] == w
    ensures (w + g + r)[|w| + 1..] == g[1..] + r
  {
  }

  /** `every`: each element satisfies `p` (vacuously true of the empty list). */
  predicate All<T>(s: seq<T>, p: T -> bool) {
    forall i :: 0 <= i < |s| ==> p(s[i])
  }

  /** `sub` is `s` with some elements left out, the rest in their original order. */
  predicate IsSubsequence<T(==)>(sub: seq<T>, s: seq<T>)
    decreases |s|
  {
    if s == [] then sub == []
    else
      || (sub != [] && sub[0] == s[0] && IsSubsequence(sub[1..], s[1..]))
      || IsSubsequence(sub, s[1..])
  }

  lemma {:induction false} FilterIsSubsequence<T>(s: seq<T>, keep: T -> bool)
    ensures IsSubsequence(Filter(s, keep), s)
  {
    if s != [] {
      FilterIsSubsequence(s[1..], keep);
      var r := Filter(s, keep);
      if keep(s[0]) {
        assert r[1..] == Filter(s[1..], keep);
      } else {
        assert r == Filter(s[1..], keep);
      }
    }
  }

  /** Every element the predicate accepts survives the filter. */
  lemma {:induction false} FilterComplete<T>(s: seq<T>, keep: T -> bool, i: nat)
    requires i < |s| && keep(s[i])
    ensures s[i] in Filter(s, keep)
  {
    if i > 0 {
      FilterComplete(s[1..], keep, i - 1);
    }
  }

  /** Everything that survives the filter was in the input. */
  lemma {:induction false} FilterSound<T>(s: seq<T>, keep: T -> bool, x: T)
    requires x in Filter(s, keep)
    ensures x in s && keep(x)
  {
    if s != [] && !(keep(s[0]) && x == s[0]) {
      FilterSound(s[1..], keep, x);
    }
  }

  lemma {:induction false} FilterEmptyIff<T>(s: seq<T>, keep: T -> bool)
    ensures Filter(s, keep) == [] <==> forall i :: 0 <= i < |s| ==> !keep(s[i])
  {
    if s != [] {
      FilterEmptyIff(s[1..], keep);
      forall i | 0 < i < |s|
        ensures s[1..][i - 1] == s[i]
      {
      }
    }
  }

  /** A filter that accepts everything returns its input unchanged. */
  lemma {:induction false} FilterKeepsAll<T>(s: seq<T>, keep: T -> bool)
    requires forall i :: 0 <= i < |s| ==> keep(s[i])
    ensures Filter(s, keep) == s
  {
    if s != [] {
      FilterKeepsAll(s[1..], keep);
    }
  }

  lemma {:induction false} FilterConcat<T>(a: seq<T>, b: seq<T>, keep: T -> bool)
    ensures Filter(a + b, keep) == Filter(a, keep) + Filter(b, keep)
  {
    if a != [] {
      assert (a + b)[1..] == a[1..] + b;
      FilterConcat(a[1..], b, keep);
    } else {
      assert a + b == b;
    }
  }

  /** Filtering by `f` and then by `g` is filtering once by their conjunction `h`. */
  lemma {:induction false} FilterFilter<T>(s: seq<T>, f: T -> bool, g: T -> bool, h: T -> bool)
    requires forall x :: h(x) == (f(x) && g(x))
    ensures Filter(Filter(s, f), g) == Filter(s, h)
  {
    if s != [] {
      FilterFilter(s[1..], f, g, h);
      var rest := Filter(s[1..], f);
      if f(s[0]) {
        assert Filter(s, f) == [s[0]] + rest;
        FilterConcat([s[0]], rest, g);
      } else {
        assert Filter(s, f) == rest;
      }
    }
  }

  /** A filter and its complement split the input: their lengths add up. */
  lemma {:induction false} FilterPartition<T>(s: seq<T>, f: T -> bool, g: T -> bool)
    requires forall x :: g(x) == !f(x)
    ensures |Filter(s, f)| + |Filter(s, g)| == |s|
  {
    if s != [] {
      FilterPartition(s[1..], f, g);
    }
  }

  /**
   * Each value is kept as often as it occurs when the filter accepts it, and
   * not at all otherwise: a filter drops no accepted occurrence.
   */
  lemma {:induction false} FilterMultiset<T>(s: seq<T>, keep: T -> bool)
    ensures forall x :: multiset(Filter(s, keep))[x] == if keep(x) then multiset(s)[x] else 0
  {
    if s != [] {
      FilterMultiset(s[1..], keep);
      assert s == [s[0]] + s[1..];
    }
  }

  /**
   * A filter keeps exactly what it accepts: in order, each accepted
   * occurrence, nothing rejected, and the rejected elements `drop` accepts
   * make up the rest.
   */
  lemma FilterExactly<T>(s: seq<T>, keep: T -> bool, drop: T -> bool)
    requires forall x :: drop(x) == !keep(x)
    ensures var r := Filter(s, keep);
      && IsSubsequence(r, s)
      && (forall i :: 0 <= i < |r| ==> keep(r[i]))
      && (forall i :: 0 <= i < |s| && keep(s[i]) ==> s[i] in r)
      && (forall x :: multiset(r)[x] == if keep(x) then multiset(s)[x] else 0)
      && |r| + |Filter(s, drop)| == |s|
  {
    FilterIsSubsequence(s, keep);
    FilterMultiset(s, keep);
    FilterPartition(s, keep, drop);
    forall i | 0 <= i < |s| && keep(s[i])
      ensures s[i] in Filter(s, keep)
    {
      FilterComplete(s, keep, i);
    }
  }

  /** `s[i]` is the one and only element of `s` that `keep` accepts. */
  predicate UniquelyAt<T>(s: seq<T>, keep: T -> bool, i: int) {
    0 <= i < |s| && keep(s[i]) && forall j :: 0 <= j < |s| && j != i ==> !keep(s[j])
  }

  lemma {:induction false} FilterUnique<T>(s: seq<T>, keep: T -> bool, i: int)
    requires UniquelyAt(s, keep, i)
    ensures Filter(s, keep) == [s[i]]
  {
    if i == 0 {
      FilterEmptyIff(s[1..], keep);
    } else {
      assert UniquelyAt(s[1..], keep, i - 1);
      FilterUnique(s[1..], keep, i - 1);
    }
  }

  /** The filter keeps exactly one element iff exactly one position is accepted. */
  lemma {:induction false} FilterSingleton<T>(s: seq<T>, keep: T -> bool)
    ensures |Filter(s, keep)| == 1 <==> exists i :: UniquelyAt(s, keep, i)
  {
    if exists i :: UniquelyAt(s, keep, i) {
      var i :| UniquelyAt(s, keep, i);
      FilterUnique(s, keep, i);
    }
    if s != [] && |Filter(s, keep)| == 1 {
      if keep(s[0]) {
        FilterEmptyIff(s[1..], keep);
        assert UniquelyAt(s, keep, 0);
      } else {
        FilterSingleton(s[1..], keep);
        var i :| UniquelyAt(s[1..], keep, i);
        assert UniquelyAt(s, keep, i + 1);
      }
    }
  }

  /** No two elements of `s` share a `key`. */
  predicate DistinctBy<T, K(==)>(s: seq<T>, key: T -> K) {
    forall i, j :: 0 <= i < j < |s| ==> key(s[i]) != key(s[j])
  }

  /** Leaving elements out cannot make two of them share a key. */
  lemma {:induction false} FilterDistinctBy<T, K>(s: seq<T>, keep: T -> bool, key: T -> K)
    requires DistinctBy(s, key)
    ensures DistinctBy(Filter(s, keep), key)
  {
    if s != [] {
      var tail := s[1..];
      assert DistinctBy(tail, key) by {
        forall i, j | 0 <= i < j < |tail|
          ensures key(tail[i]) != key(tail[j])
        {
          assert tail[i] == s[i + 1] && tail[j] == s[j + 1];
        }
      }
      FilterDistinctBy(tail, keep, key);
      var rest := Filter(tail, keep);
      if keep(s[0]) {
        forall x | x in rest
          ensures key(x) != key(s[0])
        {
          FilterSound(tail, keep, x);
          var j :| 0 <= j < |tail| && tail[j] == x;
          assert s[j + 1] == x;
        }
        var r := [s[0]] + rest;
        assert Filter(s, keep) == r;
        forall i, j | 0 <= i < j < |r|
          ensures key(r[i]) != key(r[j])
        {
          assert r[j] == rest[j - 1];
          if i > 0 {
            assert r[i] == rest[i - 1];
          }
        }
      }
    }
  }

  /** Two filters both come back empty exactly when no element passes either test. */
  lemma BothFiltersEmptyIff<T>(s: seq<T>, f: T -> bool, g: T -> bool)
    ensures Filter(s, f) == [] && Filter(s, g) == [] <==> forall i :: 0 <= i < |s| ==> !f(s[i]) && !g(s[i])
  {
    FilterEmptyIff(s, f);
    FilterEmptyIff(s, g);
  }

  /** The first filter comes back empty and the second does not exactly when no element passes `f` and some passes `g`. */
  lemma OnlySecondFilterIff<T>(s: seq<T>, f: T -> bool, g: T -> bool)
    ensures Filter(s, f) == [] && Filter(s, g) != [] <==>
      (forall i :: 0 <= i < |s| ==> !f(s[i])) && (exists i :: 0 <= i < |s| && g(s[i]))
  {
    FilterEmptyIff(s, f);
    FilterEmptyIff(s, g);
  }
}
