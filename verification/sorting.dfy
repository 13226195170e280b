/**
 * `Array.prototype.sort` with a comparator, as a stable insertion sort (the sort is stable since
 * ECMAScript 2019). `le(a, b)` says that `a` may stand before `b`. On the elements it sorts, each of
 * the blog's comparators (`b.count - a.count`, `b.localeCompare(a)`, dates compared by time stamp) is
 * a total preorder; there the result is ordered, keeps equivalent elements in input order, and is the
 * only ordered permutation that does.
 */
module Sorting {
  import opened Seqs

  ghost predicate IsTotalPreorder<T(!new)>(le: (T, T) -> bool) {
    && (forall a, b :: le(a, b) || le(b, a))
    && (forall a, b, c :: le(a, b) && le(b, c) ==> le(a, c))
  }

  predicate Sorted<T>(s: seq<T>, le: (T, T) -> bool) {
    forall i, j :: 0 <= i < j < |s| ==> le(s[i], s[j])
  }

  /** Puts `x` before the first element it may precede; equal elements keep `x` first. */
  function Insert<T>(x: T, s: seq<T>, le: (T, T) -> bool): (r: seq<T>)
    ensures |r| == |s| + 1
    ensures multiset(r) == multiset(s) + multiset{x}
  {
    if s == [] || le(x, s[0]) then [x] + s
    else
      var r := [s[0]] + Insert(x, s[1..], le);
      assert s == [s[0]] + s[1..];
      r
  }

  function Sort<T>(s: seq<T>, le: (T, T) -> bool): (r: seq<T>)
    ensures |r| == |s|
    ensures multiset(r) == multiset(s)
  {
    if s == [] then []
    else
      var r := Insert(s[0], Sort(s[1..], le), le);
      assert s == [s[0]] + s[1..];
      r
  }

  /** `le` is a total preorder on the elements of `xs`. */
  ghost predicate PreorderOn<T>(xs: multiset<T>, le: (T, T) -> bool) {
    && (forall a, b :: a in xs && b in xs ==> le(a, b) || le(b, a))
    && (forall a, b, c :: a in xs && b in xs && c in xs && le(a, b) && le(b, c) ==> le(a, c))
  }

  /** A comparator that is a total preorder everywhere is one on every collection. */
  lemma TotalPreorderOn<T(!new)>(xs: multiset<T>, le: (T, T) -> bool)
    requires IsTotalPreorder(le)
    ensures PreorderOn(xs, le)
  {
  }

  lemma PreorderOnSmaller<T>(xs: multiset<T>, ys: multiset<T>, le: (T, T) -> bool)
    requires PreorderOn(ys, le) && xs <= ys
    ensures PreorderOn(xs, le)
  {
  }

  lemma {:induction false} InsertSorted<T>(x: T, s: seq<T>, le: (T, T) -> bool)
    requires PreorderOn(multiset(s) + multiset{x}, le)
    requires Sorted(s, le)
    ensures Sorted(Insert(x, s, le), le)
  {
    if s == [] {
    } else if le(x, s[0]) {
      BeforeHeadBeforeAll(x, s, le);
      ConsSorted(x, s, le);
    } else {
      assert s == [s[0]] + s[1..];
      PreorderOnSmaller(multiset(s[1..]) + multiset{x}, multiset(s) + multiset{x}, le);
      InsertSorted(x, s[1..], le);
      var r := Insert(x, s[1..], le);
      HeadBeforeRest(x, s, le);
      forall k | 0 <= k < |r|
        ensures le(s[0], r[k])
      {
        assert r[k] in multiset(r);
      }
      ConsSorted(s[0], r, le);
    }
  }

  lemma ConsSorted<T>(h: T, r: seq<T>, le: (T, T) -> bool)
    requires Sorted(r, le) && forall k :: 0 <= k < |r| ==> le(h, r[k])
    ensures Sorted([h] + r, le)
  {
    var s := [h] + r;
    forall i, j | 0 <= i < j < |s|
      ensures le(s[i], s[j])
    {
      assert s[j] == r[j - 1];
      if i > 0 {
        assert s[i] == r[i - 1];
      }
    }
  }

  /** What may stand before the head of a sorted list may stand before all of it. */
  lemma BeforeHeadBeforeAll<T>(x: T, s: seq<T>, le: (T, T) -> bool)
    requires PreorderOn(multiset(s) + multiset{x}, le)
    requires Sorted(s, le) && s != [] && le(x, s[0])
    ensures forall k :: 0 <= k < |s| ==> le(x, s[k])
  {
    assert s[0] in multiset(s);
    forall k | 0 <= k < |s|
      ensures le(x, s[k])
    {
      assert s[k] in multiset(s);
    }
  }

  /** When `x` goes after the head of a sorted list, the head may stand before `x` and the tail. */
  lemma HeadBeforeRest<T>(x: T, s: seq<T>, le: (T, T) -> bool)
    requires PreorderOn(multiset(s) + multiset{x}, le)
    requires Sorted(s, le) && s != [] && !le(x, s[0])
    ensures forall y :: y in multiset(s[1..]) + multiset{x} ==> le(s[0], y)
  {
    assert s[0] in multiset(s);
    forall y | y in multiset(s[1..]) + multiset{x}
      ensures le(s[0], y)
    {
      if y != x {
        var k :| 0 <= k < |s[1..]| && s[1..][k] == y;
        assert s[k + 1] == y;
      }
    }
  }

  /** The sort yields an ordered permutation of its input. */
  lemma {:induction false} SortSorted<T>(s: seq<T>, le: (T, T) -> bool)
    requires PreorderOn(multiset(s), le)
    ensures Sorted(Sort(s, le), le)
  {
    if s != [] {
      assert s == [s[0]] + s[1..];
      PreorderOnSmaller(multiset(s[1..]), multiset(s), le);
      SortSorted(s[1..], le);
      InsertSorted(s[0], Sort(s[1..], le), le);
    }
  }

  /** `a` and `b` are equivalent: each may stand before the other (the comparator returns 0). */
  function Same<T>(le: (T, T) -> bool, x: T): T -> bool {
    (y: T) => le(x, y) && le(y, x)
  }

  /** The elements of `s` equivalent to `x`, in the order they stand in `s`. */
  function Ties<T>(s: seq<T>, le: (T, T) -> bool, x: T): seq<T> {
    Filter(s, Same(le, x))
  }

  lemma TiesCons<T>(h: T, t: seq<T>, le: (T, T) -> bool, x: T)
    ensures Ties([h] + t, le, x) == (if Same(le, x)(h) then [h] else []) + Ties(t, le, x)
  {
    assert ([h] + t)[1..] == t;
  }

  /** Inserting `h` puts it before every element equivalent to it. */
  lemma {:induction false} InsertTies<T>(h: T, t: seq<T>, le: (T, T) -> bool, x: T)
    requires PreorderOn(multiset(t) + multiset{h, x}, le)
    ensures Ties(Insert(h, t, le), le, x) == (if Same(le, x)(h) then [h] else []) + Ties(t, le, x)
  {
    if t == [] || le(h, t[0]) {
      TiesCons(h, t, le, x);
    } else {
      assert t == [t[0]] + t[1..];
      PreorderOnSmaller(multiset(t[1..]) + multiset{h, x}, multiset(t) + multiset{h, x}, le);
      InsertTies(h, t[1..], le, x);
      if Same(le, x)(h) {
        // `t[0]` comes after `h` in the order, so it is not equivalent to `x`.
        assert t[0] in multiset(t);
        NotBeforeEquivalent(multiset(t) + multiset{h, x}, le, h, x, t[0]);
      }
      TiesPast(t[0], h, Insert(h, t[1..], le), t[1..], le, x);
    }
  }

  /** An element not tied with `h` or with `x` moves past the ties of `h` freely. */
  lemma TiesPast<T>(h0: T, h: T, r: seq<T>, t: seq<T>, le: (T, T) -> bool, x: T)
    requires Ties(r, le, x) == (if Same(le, x)(h) then [h] else []) + Ties(t, le, x)
    requires !(Same(le, x)(h) && Same(le, x)(h0))
    ensures Ties([h0] + r, le, x) == (if Same(le, x)(h) then [h] else []) + Ties([h0] + t, le, x)
  {
    TiesCons(h0, r, le, x);
    TiesCons(h0, t, le, x);
  }

  /** What `a` may not stand before, nothing equivalent to `a` may stand before either. */
  lemma NotBeforeEquivalent<T>(xs: multiset<T>, le: (T, T) -> bool, a: T, b: T, c: T)
    requires PreorderOn(xs, le) && a in xs && b in xs && c in xs
    requires le(a, b) && !le(a, c)
    ensures !le(b, c)
  {
  }

  /** The sort is stable: equivalent elements keep the order they had in the input. */
  lemma {:induction false} SortStable<T>(s: seq<T>, le: (T, T) -> bool, x: T)
    requires PreorderOn(multiset(s) + multiset{x}, le)
    ensures Ties(Sort(s, le), le, x) == Ties(s, le, x)
  {
    if s != [] {
      assert s == [s[0]] + s[1..];
      PreorderOnSmaller(multiset(s[1..]) + multiset{x}, multiset(s) + multiset{x}, le);
      SortStable(s[1..], le, x);
      assert multiset(Sort(s[1..], le)) + multiset{s[0], x} == multiset(s) + multiset{x};
      InsertTies(s[0], Sort(s[1..], le), le, x);
      TiesCons(s[0], s[1..], le, x);
    }
  }

  /** Two ordered lists with the same elements and the same order among equivalent elements are equal. */
  lemma {:induction false} SortedUnique<T>(r1: seq<T>, r2: seq<T>, le: (T, T) -> bool)
    requires PreorderOn(multiset(r1), le) && multiset(r1) == multiset(r2)
    requires Sorted(r1, le) && Sorted(r2, le)
    requires forall x :: x in r1 ==> Ties(r1, le, x) == Ties(r2, le, x)
    ensures r1 == r2
    decreases |r1|
  {
    if r1 != [] {
      SameHead(r1, r2, le);
      var a := r1[0];
      assert r1 == [a] + r1[1..] && r2 == [a] + r2[1..];
      assert multiset(r1) == multiset{a} + multiset(r1[1..]);
      assert multiset(r2) == multiset{a} + multiset(r2[1..]);
      PreorderOnSmaller(multiset(r1[1..]), multiset(r1), le);
      SameTailTies(a, r1[1..], r2[1..], le);
      SortedTail(r1, le);
      SortedTail(r2, le);
      SortedUnique(r1[1..], r2[1..], le);
    }
  }

  lemma SortedTail<T>(r: seq<T>, le: (T, T) -> bool)
    requires r != [] && Sorted(r, le)
    ensures Sorted(r[1..], le)
  {
    forall i, j | 0 <= i < j < |r[1..]|
      ensures le(r[1..][i], r[1..][j])
    {
      assert r[1..][i] == r[i + 1] && r[1..][j] == r[j + 1];
    }
  }

  /** Both lists start with the same element: it is first among its equivalents in both. */
  lemma SameHead<T>(r1: seq<T>, r2: seq<T>, le: (T, T) -> bool)
    requires r1 != [] && PreorderOn(multiset(r1), le) && multiset(r1) == multiset(r2)
    requires Sorted(r1, le) && Sorted(r2, le)
    requires forall x :: x in r1 ==> Ties(r1, le, x) == Ties(r2, le, x)
    ensures r2 != [] && r1[0] == r2[0]
  {
    assert r1[0] in multiset(r2);
    var a, b := r1[0], r2[0];
    assert a in multiset(r1);
    assert le(a, a);
    HeadsEquivalent(r1, r2, le);
    assert Ties(r1, le, a) == Ties(r2, le, a);
    HeadOfTies(a, b, r1[1..], r2[1..], le);
  }

  /** The first elements of two ordered lists with the same elements may each stand before the other. */
  lemma HeadsEquivalent<T>(r1: seq<T>, r2: seq<T>, le: (T, T) -> bool)
    requires r1 != [] && r2 != [] && multiset(r1) == multiset(r2)
    requires Sorted(r1, le) && Sorted(r2, le)
    requires le(r1[0], r1[0])
    ensures le(r1[0], r2[0]) && le(r2[0], r1[0])
  {
    assert r2[0] in multiset(r1) && r1[0] in multiset(r2);
    var k :| 0 <= k < |r1| && r1[k] == r2[0];
    var m :| 0 <= m < |r2| && r2[m] == r1[0];
  }

  lemma HeadOfTies<T>(a: T, b: T, t1: seq<T>, t2: seq<T>, le: (T, T) -> bool)
    requires le(a, a) && le(a, b) && le(b, a)
    requires Ties([a] + t1, le, a) == Ties([b] + t2, le, a)
    ensures a == b
  {
    TiesCons(a, t1, le, a);
    TiesCons(b, t2, le, a);
    assert Ties([a] + t1, le, a)[0] == a;
  }

  /** Removing the same first element keeps the order among equivalents equal. */
  lemma SameTailTies<T>(a: T, t1: seq<T>, t2: seq<T>, le: (T, T) -> bool)
    requires forall x :: x in [a] + t1 ==> Ties([a] + t1, le, x) == Ties([a] + t2, le, x)
    ensures forall x :: x in t1 ==> Ties(t1, le, x) == Ties(t2, le, x)
  {
    forall x | x in t1
      ensures Ties(t1, le, x) == Ties(t2, le, x)
    {
      assert x in [a] + t1;
      TiesCons(a, t1, le, x);
      TiesCons(a, t2, le, x);
      var h: seq<T> := if Same(le, x)(a) then [a] else [];
      assert (h + Ties(t1, le, x))[|h|..] == Ties(t1, le, x);
      assert (h + Ties(t2, le, x))[|h|..] == Ties(t2, le, x);
    }
  }

  /** A preorder on the elements of `xs` is one on `xs` with another copy of one of them. */
  lemma PreorderOnMember<T>(xs: multiset<T>, x: T, le: (T, T) -> bool)
    requires PreorderOn(xs, le) && x in xs
    ensures PreorderOn(xs + multiset{x}, le)
  {
    assert forall a :: a in xs + multiset{x} ==> a in xs;
  }

  /** The sort has one possible result: any ordered, stable rearrangement of the input is that result. */
  lemma OnlyStableOrder<T>(s: seq<T>, r: seq<T>, le: (T, T) -> bool)
    requires PreorderOn(multiset(s), le) && multiset(r) == multiset(s) && Sorted(r, le)
    requires forall x :: x in s ==> Ties(r, le, x) == Ties(s, le, x)
    ensures r == Sort(s, le)
  {
    SortSorted(s, le);
    forall x | x in r
      ensures Ties(r, le, x) == Ties(Sort(s, le), le, x)
    {
      assert x in multiset(s);
      PreorderOnMember(multiset(s), x, le);
      SortStable(s, le, x);
    }
    SortedUnique(r, Sort(s, le), le);
  }

  /** An element that is strictly after another in the order cannot stand before it in a sorted list. */
  lemma SortedStrict<T>(s: seq<T>, le: (T, T) -> bool, i: nat, j: nat)
    requires PreorderOn(multiset(s), le) && Sorted(s, le)
    requires i < |s| && j < |s| && !le(s[j], s[i])
    ensures i < j
  {
  }

  /** In a sorted list, an element left out of a prefix may follow every element of that prefix. */
  lemma CutOff<T>(r: seq<T>, le: (T, T) -> bool, n: nat, x: T)
    requires Sorted(r, le) && x in r && x !in Take(r, n)
    ensures forall i :: 0 <= i < |Take(r, n)| ==> le(r[i], x)
  {
    var j :| 0 <= j < |r| && r[j] == x;
    assert j >= |Take(r, n)|;
  }
}
