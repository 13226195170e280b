/** Array operations of JavaScript (`filter`, `slice(0, n)`, `new Set`, `flatMap`) and facts about them. */
module Seqs {
  import opened Wrappers

  /** `s.map(f)`. */
  function Map<A, B>(s: seq<A>, f: A -> B): (r: seq<B>)
    ensures |r| == |s|
    ensures forall i :: 0 <= i < |s| ==> r[i] == f(s[i])
  {
    seq(|s|, i requires 0 <= i < |s| => f(s[i]))
  }

  lemma MapAppend<A, B>(a: seq<A>, b: seq<A>, f: A -> B)
    ensures Map(a + b, f) == Map(a, f) + Map(b, f)
  {
  }

  /** The values of the present entries, in order (a `for` loop that pushes only some outcomes). */
  function Present<T>(os: seq<Option<T>>): (r: seq<T>)
    ensures |r| <= |os|
  {
    if os == [] then []
    else
      var n := |os| - 1;
      Present(os[..n]) + match os[n] case Some(x) => [x] case None => []
  }

  lemma {:induction false} PresentAppend<T>(a: seq<Option<T>>, b: seq<Option<T>>)
    ensures Present(a + b) == Present(a) + Present(b)
    decreases |b|
  {
    if b == [] {
      assert a + b == a;
    } else {
      var n := |b| - 1;
      var c := a + b;
      assert c[..|c| - 1] == a + b[..n];
      assert c[|c| - 1] == b[n];
      PresentAppend(a, b[..n]);
      var last: seq<T> := match b[n] case Some(x) => [x] case None => [];
      assert Present(c) == Present(a + b[..n]) + last;
      assert Present(b) == Present(b[..n]) + last;
      assert (Present(a) + Present(b[..n])) + last == Present(a) + (Present(b[..n]) + last);
    }
  }

  /** `s.filter(p)`. */
  function Filter<T>(s: seq<T>, p: T -> bool): (r: seq<T>)
    ensures |r| <= |s|
    ensures forall i :: 0 <= i < |r| ==> r[i] in s && p(r[i])
    ensures forall i :: 0 <= i < |s| && p(s[i]) ==> s[i] in r
  {
    if s == [] then [] else (if p(s[0]) then [s[0]] else []) + Filter(s[1..], p)
  }

  /** The members of a filtered sequence are the members that pass the test. */
  lemma FilterMembers<T>(s: seq<T>, p: T -> bool)
    ensures forall x :: x in Filter(s, p) <==> x in s && p(x)
  {
    var r := Filter(s, p);
    forall x | x in r ensures x in s && p(x) {
      var i :| 0 <= i < |r| && r[i] == x;
    }
    forall x | x in s && p(x) ensures x in r {
      var i :| 0 <= i < |s| && s[i] == x;
    }
  }

  lemma {:induction false} FilterAppend<T>(a: seq<T>, b: seq<T>, p: T -> bool)
    ensures Filter(a + b, p) == Filter(a, p) + Filter(b, p)
  {
    if a != [] {
      FilterAppend(a[1..], b, p);
      assert (a + b)[1..] == a[1..] + b;
    } else {
      assert a + b == b;
    }
  }

  /** Filtering never reorders: the result is a subsequence of the input. */
  lemma {:induction false} FilterSubseq<T>(s: seq<T>, p: T -> bool)
    ensures Subseq(Filter(s, p), s)
  {
    if s != [] {
      FilterSubseq(s[1..], p);
      if p(s[0]) {
        assert Filter(s, p)[1..] == Filter(s[1..], p);
      } else {
        assert Filter(s, p) == Filter(s[1..], p);
        if Filter(s, p) != [] {
          SubseqSkip(Filter(s, p), s);
        }
      }
    }
  }

  lemma {:induction false} SubseqSkip<T>(a: seq<T>, s: seq<T>)
    requires s != [] && Subseq(a, s[1..])
    ensures Subseq(a, s)
  {
  }

  /** Filtering by `p` and then by `q` is filtering by both. */
  lemma {:induction false} FilterFilter<T>(s: seq<T>, p: T -> bool, q: T -> bool, pq: T -> bool)
    requires forall x :: pq(x) == (p(x) && q(x))
    ensures Filter(Filter(s, p), q) == Filter(s, pq)
  {
    if s != [] {
      FilterFilter(s[1..], p, q, pq);
      var rest := Filter(s[1..], p);
      if p(s[0]) {
        assert Filter(s, p) == [s[0]] + rest;
        assert ([s[0]] + rest)[0] == s[0];
        assert ([s[0]] + rest)[1..] == rest;
        assert Filter([s[0]] + rest, q) == (if q(s[0]) then [s[0]] else []) + Filter(rest, q);
      } else {
        assert Filter(s, p) == rest;
      }
    }
  }

  /** `a` can be obtained from `b` by deleting elements: `a`'s elements occur in `b` in the same order. */
  predicate Subseq<T(==)>(a: seq<T>, b: seq<T>)
    decreases |b|
  {
    a == [] || (b != [] && ((a[0] == b[0] && Subseq(a[1..], b[1..])) || Subseq(a, b[1..])))
  }


  /** A filter keeps every occurrence of an element that passes and none of one that fails. */
  lemma {:induction false} FilterMultiplicity<T>(s: seq<T>, p: T -> bool)
    ensures forall x :: multiset(Filter(s, p))[x] == if p(x) then multiset(s)[x] else 0
  {
    if s != [] {
      FilterMultiplicity(s[1..], p);
      assert s == [s[0]] + s[1..];
      assert multiset(Filter(s, p)) == (if p(s[0]) then multiset{s[0]} else multiset{}) + multiset(Filter(s[1..], p));
    }
  }

  /**
   * `s.filter(p)` is the only subsequence of `s` that keeps every occurrence of each element passing
   * `p` and no element failing it.
   */
  lemma {:induction false} FilterUnique<T>(s: seq<T>, p: T -> bool, r: seq<T>)
    requires Subseq(r, s)
    requires forall x :: multiset(r)[x] == if p(x) then multiset(s)[x] else 0
    ensures r == Filter(s, p)
    decreases |s|
  {
    if s != [] {
      var h, t := s[0], s[1..];
      assert s == [h] + t;
      assert multiset(s) == multiset{h} + multiset(t);
      if p(h) {
        assert multiset(r)[h] == multiset(t)[h] + 1;
        if !(r != [] && r[0] == h && Subseq(r[1..], t)) {
          assert Subseq(r, t);
          SubseqMultiset(r, t);
          assert false;
        }
        assert r == [h] + r[1..];
        assert multiset(r) == multiset{h} + multiset(r[1..]);
        FilterUnique(t, p, r[1..]);
      } else {
        assert multiset(r)[h] == 0;
        assert r == [] || r[0] != h by {
          if r != [] {
            assert r[0] in multiset(r);
          }
        }
        assert Subseq(r, t);
        FilterUnique(t, p, r);
      }
    }
  }

  /** A subsequence uses no element more often than the sequence it is taken from. */
  lemma {:induction false} SubseqMultiset<T>(a: seq<T>, b: seq<T>)
    requires Subseq(a, b)
    ensures multiset(a) <= multiset(b)
    decreases |b|
  {
    if a != [] {
      assert b == [b[0]] + b[1..];
      if a[0] == b[0] && Subseq(a[1..], b[1..]) {
        SubseqMultiset(a[1..], b[1..]);
        assert a == [a[0]] + a[1..];
      } else {
        SubseqMultiset(a, b[1..]);
      }
    }
  }

  lemma {:induction false} PrefixSubseq<T>(s: seq<T>, n: nat)
    requires n <= |s|
    ensures Subseq(s[..n], s)
  {
    if n > 0 {
      PrefixSubseq(s[1..], n - 1);
      assert s[..n][1..] == s[1..][..n - 1];
    }
  }

  lemma {:induction false} SubseqTransitive<T>(a: seq<T>, b: seq<T>, c: seq<T>)
    requires Subseq(a, b) && Subseq(b, c)
    ensures Subseq(a, c)
    decreases |c|
  {
    if a != [] {
      if Subseq(b, c[1..]) {
        SubseqTransitive(a, b, c[1..]);
        SubseqSkip(a, c);
      } else if a[0] == b[0] && Subseq(a[1..], b[1..]) {
        SubseqTransitive(a[1..], b[1..], c[1..]);
      } else {
        SubseqTransitive(a, b[1..], c[1..]);
        SubseqSkip(a, c);
      }
    }
  }

  /** Where the pieces of a four-part concatenation sit. */
  lemma ConcatAssoc<T>(a: seq<T>, b: seq<T>, c: seq<T>)
    ensures a + b + c == a + (b + c)
  {
  }

  lemma Concat4<T>(a: seq<T>, b: seq<T>, c: seq<T>, d: seq<T>)
    ensures var m := a + b + c + d;
      && |m| == |a| + |b| + |c| + |d|
      && m[..|a|] == a
      && (forall i :: 0 <= i < |b| ==> m[|a| + i] == b[i])
      && (forall i :: 0 <= i < |c| ==> m[|a| + |b| + i] == c[i])
      && (forall i :: 0 <= i < |d| ==> m[|a| + |b| + |c| + i] == d[i])
  {
  }

  /** `s.slice(0, n)`. */
  function Take<T>(s: seq<T>, n: nat): (r: seq<T>)
    ensures |r| == if n <= |s| then n else |s|
    ensures r == s[..|r|]
  {
    if n <= |s| then s[..n] else s
  }

  predicate Distinct<T(==)>(s: seq<T>) {
    forall i, j :: 0 <= i < j < |s| ==> s[i] != s[j]
  }

  /** The index of the first occurrence of `x` in `s` (`s.indexOf(x)`). */
  function FirstIndex<T(==)>(s: seq<T>, x: T): (k: nat)
    requires x in s
    ensures k < |s| && s[k] == x && x !in s[..k]
  {
    if s[0] == x then 0 else 1 + FirstIndex(s[1..], x)
  }

  /** `[...new Set(s)]`: the distinct elements of `s`, in order of first occurrence. */
  function Dedup<T(==)>(s: seq<T>): (r: seq<T>)
    ensures Distinct(r)
    ensures forall i :: 0 <= i < |r| ==> r[i] in s
    ensures forall i :: 0 <= i < |s| ==> s[i] in r
    ensures |r| <= |s|
  {
    if s == [] then []
    else
      var d := Dedup(s[..|s| - 1]);
      assert forall i :: 0 <= i < |s| - 1 ==> s[i] == s[..|s| - 1][i];
      if s[|s| - 1] in d then d else d + [s[|s| - 1]]
  }

  /** The elements of `Dedup(s)` are listed in the order of their first occurrence in `s`. */
  lemma {:induction false} DedupFirstOccurrenceOrder<T>(s: seq<T>, i: nat, j: nat)
    requires i < j < |Dedup(s)|
    ensures FirstIndex(s, Dedup(s)[i]) < FirstIndex(s, Dedup(s)[j])
  {
    var n := |s| - 1;
    var pre := s[..n];
    var d := Dedup(pre);
    assert s == pre + [s[n]];
    if s[n] in d {
      DedupFirstOccurrenceOrder(pre, i, j);
      FirstIndexPrefix(pre, s, d[i]);
      FirstIndexPrefix(pre, s, d[j]);
    } else if j < |d| {
      DedupFirstOccurrenceOrder(pre, i, j);
      FirstIndexPrefix(pre, s, d[i]);
      FirstIndexPrefix(pre, s, d[j]);
    } else {
      FirstIndexPrefix(pre, s, d[i]);
      FirstIndexOfNew(pre, s[n]);
      assert Dedup(s)[j] == s[n];
    }
  }

  /** An element met for the first time at the end is first found there. */
  lemma FirstIndexOfNew<T>(pre: seq<T>, x: T)
    requires x !in pre
    ensures FirstIndex(pre + [x], x) == |pre|
  {
    var s := pre + [x];
    assert s[..|pre|] == pre;
  }

  lemma FirstIndexPrefix<T>(pre: seq<T>, s: seq<T>, x: T)
    requires x in pre && |pre| <= |s| && s[..|pre|] == pre
    ensures x in s && FirstIndex(s, x) == FirstIndex(pre, x)
  {
    var k := FirstIndex(pre, x);
    assert s[k] == x;
    var m := FirstIndex(s, x);
  }

  lemma {:induction false} DedupOfDistinct<T>(s: seq<T>)
    requires Distinct(s)
    ensures Dedup(s) == s
  {
    if s != [] {
      DedupOfDistinct(s[..|s| - 1]);
      assert s == s[..|s| - 1] + [s[|s| - 1]];
    }
  }

  /** `ss.flat()`: the concatenation of all the pieces. */
  function Flatten<T>(ss: seq<seq<T>>): seq<T> {
    if ss == [] then [] else ss[0] + Flatten(ss[1..])
  }

  lemma {:induction false} FlattenAppend<T>(a: seq<seq<T>>, b: seq<seq<T>>)
    ensures Flatten(a + b) == Flatten(a) + Flatten(b)
  {
    if a != [] {
      FlattenAppend(a[1..], b);
      assert (a + b)[1..] == a[1..] + b;
    } else {
      assert a + b == b;
    }
  }

  /** The sum of `f` over `s`. */
  function SumOf<T>(s: seq<T>, f: T -> nat): nat {
    if s == [] then 0 else f(s[0]) + SumOf(s[1..], f)
  }

  lemma {:induction false} SumOfAppend<T>(a: seq<T>, b: seq<T>, f: T -> nat)
    ensures SumOf(a + b, f) == SumOf(a, f) + SumOf(b, f)
  {
    if a != [] {
      SumOfAppend(a[1..], b, f);
      assert (a + b)[1..] == a[1..] + b;
    } else {
      assert a + b == b;
    }
  }

  /** A sum does not depend on the order of its terms. */
  lemma {:induction false} SumOfPermutation<T>(a: seq<T>, b: seq<T>, f: T -> nat)
    requires multiset(a) == multiset(b)
    ensures SumOf(a, f) == SumOf(b, f)
  {
    if a != [] {
      var k := IndexOfMember(a[0], b);
      RemoveAt(b, k);
      RemoveHead(a);
      SumOfPermutation(a[1..], b[..k] + b[k + 1..], f);
      SumOfRemoveAt(b, k, f);
    }
  }

  /** An index at which a member of `s` sits. */
  lemma IndexOfMember<T>(x: T, s: seq<T>) returns (k: nat)
    requires x in multiset(s)
    ensures k < |s| && s[k] == x
  {
    k :| 0 <= k < |s| && s[k] == x;
  }

  lemma RemoveHead<T>(s: seq<T>)
    requires s != []
    ensures multiset(s[1..]) == multiset(s) - multiset{s[0]}
  {
    assert s == [s[0]] + s[1..];
  }

  lemma SumOfRemoveAt<T>(s: seq<T>, k: nat, f: T -> nat)
    requires k < |s|
    ensures SumOf(s, f) == SumOf(s[..k] + s[k + 1..], f) + f(s[k])
  {
    assert s == s[..k] + [s[k]] + s[k + 1..];
    SumOfAppend(s[..k] + [s[k]], s[k + 1..], f);
    SumOfAppend(s[..k], [s[k]], f);
    SumOfAppend(s[..k], s[k + 1..], f);
  }

  lemma SumOfPrefix<T>(a: seq<T>, b: seq<T>, f: T -> nat)
    requires |a| <= |b| && a == b[..|a|]
    ensures SumOf(a, f) <= SumOf(b, f)
  {
    SumOfAppend(a, b[|a|..], f);
    assert b == a + b[|a|..];
  }

  /** Filtering by `p` and by its negation splits the elements between the two results. */
  lemma {:induction false} FilterPartition<T>(s: seq<T>, p: T -> bool, q: T -> bool)
    requires forall x :: q(x) == !p(x)
    ensures multiset(Filter(s, p)) + multiset(Filter(s, q)) == multiset(s)
  {
    if s != [] {
      FilterPartition(s[1..], p, q);
      var x, fp, fq := s[0], Filter(s[1..], p), Filter(s[1..], q);
      var hp, hq := if p(x) then [x] else [], if q(x) then [x] else [];
      assert multiset(hp) + multiset(hq) == multiset{x};
      MultisetSplitStep(x, hp, hq, fp, fq, s[1..], Filter(s, p), Filter(s, q), s);
    }
  }

  lemma MultisetSplitStep<T>(x: T, hp: seq<T>, hq: seq<T>, fp: seq<T>, fq: seq<T>, rest: seq<T>, a: seq<T>, b: seq<T>, whole: seq<T>)
    requires multiset(hp) + multiset(hq) == multiset{x}
    requires multiset(fp) + multiset(fq) == multiset(rest)
    requires a == hp + fp && b == hq + fq && whole == [x] + rest
    ensures multiset(a) + multiset(b) == multiset(whole)
  {
    calc {
      multiset(a) + multiset(b);
      multiset(hp) + multiset(fp) + (multiset(hq) + multiset(fq));
      (multiset(hp) + multiset(hq)) + (multiset(fp) + multiset(fq));
      multiset(whole);
    }
  }

  /** The elements of a list are distinct exactly when none occurs twice. */
  lemma {:induction false} DistinctMultiplicity<T>(s: seq<T>)
    ensures Distinct(s) <==> forall x :: multiset(s)[x] <= 1
  {
    if s != [] {
      var t := s[1..];
      DistinctMultiplicity(t);
      assert s == [s[0]] + t;
      assert multiset(s) == multiset{s[0]} + multiset(t);
      if Distinct(s) {
        assert Distinct(t) by {
          forall i, j | 0 <= i < j < |t| ensures t[i] != t[j] {
            assert t[i] == s[i + 1] && t[j] == s[j + 1];
          }
        }
        assert s[0] !in t by {
          forall j | 0 <= j < |t| ensures t[j] != s[0] {
            assert t[j] == s[j + 1];
          }
        }
      }
      if forall x :: multiset(s)[x] <= 1 {
        assert forall x :: multiset(t)[x] <= 1 by {
          forall x ensures multiset(t)[x] <= 1 {
            assert multiset(s)[x] <= 1;
          }
        }
        assert multiset(s)[s[0]] <= 1;
        assert s[0] !in multiset(t);
        forall i, j | 0 <= i < j < |s| ensures s[i] != s[j] {
          if i == 0 {
            assert s[j] == t[j - 1];
          } else {
            assert s[i] == t[i - 1] && s[j] == t[j - 1];
          }
        }
      }
    }
  }

  /** Rearranging the elements keeps them distinct. */
  lemma DistinctPermutation<T>(a: seq<T>, b: seq<T>)
    requires multiset(a) == multiset(b) && Distinct(a)
    ensures Distinct(b)
  {
    DistinctMultiplicity(a);
    DistinctMultiplicity(b);
  }

  /** Filtering by "maps to `y`" keeps as many elements as `y` occurs among the images. */
  lemma {:induction false} FilterCount<A, B>(s: seq<A>, f: A -> B, p: A -> bool, y: B)
    requires forall x :: p(x) == (f(x) == y)
    ensures |Filter(s, p)| == multiset(Map(s, f))[y]
  {
    if s != [] {
      FilterCount(s[1..], f, p, y);
      assert Map(s, f) == [f(s[0])] + Map(s[1..], f);
    }
  }

  /** Nothing passes a filter that no element satisfies. */
  lemma {:induction false} FilterNone<T>(s: seq<T>, p: T -> bool)
    requires forall i :: 0 <= i < |s| ==> !p(s[i])
    ensures Filter(s, p) == []
  {
    if s != [] {
      FilterNone(s[1..], p);
    }
  }

  /** Rearranging keeps the elements. */
  lemma PermutationMembers<T>(a: seq<T>, b: seq<T>)
    requires multiset(a) == multiset(b)
    ensures forall i :: 0 <= i < |b| ==> b[i] in a
  {
    forall i | 0 <= i < |b| ensures b[i] in a {
      assert b[i] in multiset(b);
    }
  }

  /** Mapping commutes with rearranging. */
  lemma {:induction false} MapPermutation<A, B>(a: seq<A>, b: seq<A>, f: A -> B)
    requires multiset(a) == multiset(b)
    ensures multiset(Map(a, f)) == multiset(Map(b, f))
  {
    if a != [] {
      var k := IndexOfMember(a[0], b);
      RemoveAt(b, k);
      RemoveHead(a);
      MapPermutation(a[1..], b[..k] + b[k + 1..], f);
      MapRemoveAt(b, k, f);
      assert Map(a, f) == [f(a[0])] + Map(a[1..], f);
    }
  }

  lemma RemoveAt<T>(s: seq<T>, k: nat)
    requires k < |s|
    ensures multiset(s[..k] + s[k + 1..]) == multiset(s) - multiset{s[k]}
  {
    assert s == s[..k] + [s[k]] + s[k + 1..];
  }

  lemma MapRemoveAt<A, B>(s: seq<A>, k: nat, f: A -> B)
    requires k < |s|
    ensures multiset(Map(s, f)) == multiset(Map(s[..k] + s[k + 1..], f)) + multiset{f(s[k])}
  {
    assert s == s[..k] + [s[k]] + s[k + 1..];
    MapAppend(s[..k] + [s[k]], s[k + 1..], f);
    MapAppend(s[..k], [s[k]], f);
    MapAppend(s[..k], s[k + 1..], f);
  }

  /** Raising `f` by one at a single element `x` of a distinct list raises its sum by one. */
  lemma {:induction false} SumOfBump<T>(d: seq<T>, f: T -> nat, g: T -> nat, x: T)
    requires Distinct(d) && x in d
    requires forall y :: g(y) == f(y) + (if y == x then 1 else 0)
    ensures SumOf(d, g) == SumOf(d, f) + 1
  {
    assert d == [d[0]] + d[1..];
    if d[0] == x {
      assert x !in d[1..] by {
        forall j | 0 <= j < |d| - 1 ensures d[1..][j] != x {
          assert d[1..][j] == d[j + 1];
        }
      }
      SumOfAgree(d[1..], f, g);
    } else {
      assert Distinct(d[1..]) by {
        forall i, j | 0 <= i < j < |d| - 1 ensures d[1..][i] != d[1..][j] {
          assert d[1..][i] == d[i + 1] && d[1..][j] == d[j + 1];
        }
      }
      SumOfBump(d[1..], f, g, x);
    }
  }

  /** Functions that agree on the elements of `d` have the same sum over it. */
  lemma {:induction false} SumOfAgree<T>(d: seq<T>, f: T -> nat, g: T -> nat)
    requires forall i :: 0 <= i < |d| ==> f(d[i]) == g(d[i])
    ensures SumOf(d, f) == SumOf(d, g)
  {
    if d != [] {
      SumOfAgree(d[1..], f, g);
    }
  }
}
