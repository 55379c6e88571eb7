/**
 * `Array.prototype.sort` with a comparator, which JavaScript engines perform
 * as a stable sort. A comparator `cmp` is represented by the relation
 * `le(a, b) := cmp(a, b) <= 0` ("a may stay before b"); for a consistent
 * comparator this relation is a total preorder, and the stable sort is the
 * insertion sort below.
 */
module Sorting {

  ghost predicate TotalPreorder<T(!new)>(le: (T, T) -> bool) {
    && (forall a, b :: le(a, b) || le(b, a))
    && (forall a, b, c :: le(a, b) && le(b, c) ==> le(a, c))
  }

  predicate SortedBy<T>(s: seq<T>, le: (T, T) -> bool) {
    forall i, j :: 0 <= i < j < |s| ==> le(s[i], s[j])
  }

  /** Puts `x` in front of the first element it may stay before. */
  function Insert<T>(x: T, s: seq<T>, le: (T, T) -> bool): (r: seq<T>)
    ensures |r| == |s| + 1
    ensures multiset(r) == multiset(s) + multiset{x}
  {
    if s == [] || le(x, s[0]) then [x] + s
    else
      assert s == [s[0]] + s[1..];
      [s[0]] + Insert(x, s[1..], le)
  }

  /** The stable sort of `s` by `le`. */
  function SortBy<T>(s: seq<T>, le: (T, T) -> bool): (r: seq<T>)
    ensures |r| == |s|
    ensures multiset(r) == multiset(s)
  {
    if s == [] then []
    else
      assert s == [s[0]] + s[1..];
      Insert(s[0], SortBy(s[1..], le), le)
  }

  lemma {:induction false} InsertSorted<T(!new)>(x: T, s: seq<T>, le: (T, T) -> bool)
    requires TotalPreorder(le)
    requires SortedBy(s, le)
    ensures SortedBy(Insert(x, s, le), le)
  {
    if s == [] || le(x, s[0]) {
    } else {
      var t := Insert(x, s[1..], le);
      InsertSorted(x, s[1..], le);
      forall j | 0 <= j < |t|
        ensures le(s[0], t[j])
      {
        assert t[j] in multiset(t);
        if t[j] != x {
          assert t[j] in multiset(s[1..]);
          var k :| 0 <= k < |s[1..]| && s[1..][k] == t[j];
          assert s[k + 1] == t[j];
        }
      }
    }
  }

  /** The sort's result is ordered by `le`. */
  lemma {:induction false} SortBySorted<T(!new)>(s: seq<T>, le: (T, T) -> bool)
    requires TotalPreorder(le)
    ensures SortedBy(SortBy(s, le), le)
  {
    if s != [] {
      SortBySorted(s[1..], le);
      InsertSorted(s[0], SortBy(s[1..], le), le);
    }
  }

  /** The elements of `s` that `le` ranks level with `z`, in their order in `s`. */
  function Equivalents<T>(s: seq<T>, le: (T, T) -> bool, z: T): seq<T> {
    if s == [] then [] else Level(s[0], le, z) + Equivalents(s[1..], le, z)
  }

  /** `[a]` when `le` ranks `a` level with `z`, `[]` otherwise. */
  function Level<T>(a: T, le: (T, T) -> bool, z: T): seq<T> {
    if le(a, z) && le(z, a) then [a] else []
  }

  /** Two elements that `le` ranks apart cannot both be level with `z`. */
  lemma LevelApart<T(!new)>(x: T, y: T, le: (T, T) -> bool, z: T)
    requires TotalPreorder(le) && !le(x, y)
    ensures Level(x, le, z) == [] || Level(y, le, z) == []
  {
  }

  /** Inserting `x` puts it ahead of every element level with it. */
  lemma {:induction false} InsertEquivalents<T(!new)>(x: T, s: seq<T>, le: (T, T) -> bool, z: T)
    requires TotalPreorder(le)
    ensures Equivalents(Insert(x, s, le), le, z) == Level(x, le, z) + Equivalents(s, le, z)
  {
    if s == [] || le(x, s[0]) {
      assert ([x] + s)[1..] == s;
    } else {
      var r := Insert(x, s[1..], le);
      assert ([s[0]] + r)[1..] == r;
      assert Equivalents(Insert(x, s, le), le, z) == Level(s[0], le, z) + Equivalents(r, le, z);
      InsertEquivalents(x, s[1..], le, z);
      LevelApart(x, s[0], le, z);
      if Level(x, le, z) == [] {
        assert Level(x, le, z) + Equivalents(s, le, z) == Equivalents(s, le, z);
      } else {
        assert Level(s[0], le, z) == [];
      }
    }
  }

  /** The sort is stable: elements ranked level keep their relative order. */
  lemma {:induction false} SortByStable<T(!new)>(s: seq<T>, le: (T, T) -> bool, z: T)
    requires TotalPreorder(le)
    ensures Equivalents(SortBy(s, le), le, z) == Equivalents(s, le, z)
  {
    if s != [] {
      SortByStable(s[1..], le, z);
      InsertEquivalents(s[0], SortBy(s[1..], le), le, z);
    }
  }

  /** In a sorted sequence, an element left out of a prefix may stay after everything the prefix holds. */
  lemma PrefixBeforeRest<T>(s: seq<T>, le: (T, T) -> bool, n: nat, x: T)
    requires SortedBy(s, le)
    requires n <= |s|
    requires x in s && x !in s[..n]
    ensures forall a :: a in s[..n] ==> le(a, x)
  {
    var j :| 0 <= j < |s| && s[j] == x;
    forall a | a in s[..n]
      ensures le(a, x)
    {
      var i :| 0 <= i < n && s[i] == a;
    }
  }

  /** The keys of a sequence are pairwise different. */
  predicate DistinctKeys<T, K(==)>(s: seq<T>, key: T -> K) {
    forall i, j :: 0 <= i < j < |s| ==> key(s[i]) != key(s[j])
  }

  lemma {:induction false} DistinctKeysAtMostOnce<T, K>(s: seq<T>, key: T -> K, x: T)
    requires DistinctKeys(s, key)
    ensures multiset(s)[x] <= 1
  {
    if s != [] {
      var t := s[..|s| - 1];
      assert s == t + [s[|s| - 1]];
      assert DistinctKeys(t, key);
      DistinctKeysAtMostOnce(t, key, x);
      forall i | 0 <= i < |t|
        ensures t[i] != s[|s| - 1]
      {
        assert key(s[i]) != key(s[|s| - 1]);
      }
      assert s[|s| - 1] !in t;
    }
  }

  /** Reordering a sequence keeps its keys pairwise different. */
  lemma PermutationKeepsDistinctKeys<T, K>(a: seq<T>, b: seq<T>, key: T -> K)
    requires multiset(a) == multiset(b)
    requires DistinctKeys(a, key)
    ensures DistinctKeys(b, key)
  {
    forall i, j | 0 <= i < j < |b|
      ensures key(b[i]) != key(b[j])
    {
      DistinctKeysAtMostOnce(a, key, b[i]);
      assert b == b[..i] + [b[i]] + b[i + 1..j] + [b[j]] + b[j + 1..];
      assert b[i] != b[j];
      assert b[i] in multiset(a) && b[j] in multiset(a);
      var p :| 0 <= p < |a| && a[p] == b[i];
      var q :| 0 <= q < |a| && a[q] == b[j];
      if p < q {
        assert key(a[p]) != key(a[q]);
      } else {
        assert key(a[q]) != key(a[p]);
      }
    }
  }
}
