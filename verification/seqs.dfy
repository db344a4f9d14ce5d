/** Sequence helpers shared by the trackers: index ranges, ordered index sets, filters. */
module Seqs {

  /** The indices 0 .. n-1 in increasing order (the initial `cand_indices` set). */
  function Range(n: nat): (r: seq<nat>)
    ensures |r| == n
    ensures forall i :: 0 <= i < n ==> r[i] == i
  {
    seq(n, i requires 0 <= i < n => i as nat)
  }

  /** The set {0, .., n-1}. */
  function RangeSet(n: nat): (r: set<nat>)
    ensures forall i :: i in r <==> 0 <= i < n
  {
    if n == 0 then {} else RangeSet(n - 1) + {n - 1}
  }

  /** A strictly increasing sequence: the iteration order of a std::set. */
  ghost predicate Increasing(s: seq<nat>) {
    forall i, j :: 0 <= i < j < |s| ==> s[i] < s[j]
  }

  /** No element occurs twice. */
  ghost predicate Distinct<T>(s: seq<T>) {
    forall i, j :: 0 <= i < j < |s| ==> s[i] != s[j]
  }

  /** Every element is below the bound. */
  ghost predicate Below(s: seq<nat>, bound: nat) {
    forall i :: 0 <= i < |s| ==> s[i] < bound
  }

  lemma IncreasingDistinct(s: seq<nat>)
    requires Increasing(s)
    ensures Distinct(s)
  {
  }

  /** `s` with every element of `xs` erased, order kept. */
  function Without(s: seq<nat>, xs: set<nat>): (r: seq<nat>)
    ensures forall x :: x in r <==> x in s && x !in xs
    ensures |r| <= |s|
  {
    if |s| == 0 then []
    else if s[0] in xs then Without(s[1..], xs)
    else [s[0]] + Without(s[1..], xs)
  }

  lemma {:induction false} WithoutIncreasing(s: seq<nat>, xs: set<nat>)
    requires Increasing(s)
    ensures Increasing(Without(s, xs))
  {
    if |s| > 0 {
      WithoutIncreasing(s[1..], xs);
      var rest := Without(s[1..], xs);
      forall k | 0 <= k < |rest| ensures s[0] < rest[k] {
        assert rest[k] in s[1..];
      }
    }
  }

  lemma {:induction false} WithoutBelow(s: seq<nat>, xs: set<nat>, bound: nat)
    requires Below(s, bound)
    ensures Below(Without(s, xs), bound)
  {
    var r := Without(s, xs);
    forall k | 0 <= k < |r| ensures r[k] < bound {
      assert r[k] in s;
    }
  }

  lemma {:induction false} WithoutNothing(s: seq<nat>)
    ensures Without(s, {}) == s
  {
    if |s| > 0 {
      WithoutNothing(s[1..]);
      assert s == [s[0]] + s[1..];
    }
  }

  /** Erasing one element and then a set erases their union. */
  lemma {:induction false} WithoutTwice(s: seq<nat>, x: nat, xs: set<nat>)
    ensures Without(Without(s, {x}), xs) == Without(s, {x} + xs)
  {
    if |s| > 0 {
      WithoutTwice(s[1..], x, xs);
      if s[0] != x {
        assert Without(s, {x}) == [s[0]] + Without(s[1..], {x});
        assert Without(s, {x})[1..] == Without(s[1..], {x});
      }
    }
  }

  /** Position of an element that occurs in `s`. */
  function IndexOf<T(==)>(s: seq<T>, x: T): (k: nat)
    requires x in s
    ensures k < |s| && s[k] == x
    ensures forall i :: 0 <= i < k ==> s[i] != x
  {
    if s[0] == x then 0 else 1 + IndexOf(s[1..], x)
  }

  /** In a list without repeats an element's position is the index it was taken from. */
  lemma IndexOfAt<T>(s: seq<T>, k: nat)
    requires Distinct(s) && k < |s|
    ensures IndexOf(s, s[k]) == k
  {
  }

  /** The elements of `s` for which `p` holds, order kept. */
  function Filter<T(!new)>(s: seq<T>, p: T -> bool): (r: seq<T>)
    ensures |r| <= |s|
    ensures forall x :: x in r <==> x in s && p(x)
  {
    if |s| == 0 then []
    else if p(s[0]) then [s[0]] + Filter(s[1..], p)
    else Filter(s[1..], p)
  }

  /** Filtering by a predicate and by its negation splits the multiset. */
  lemma {:induction false} FilterPartition<T(!new)>(s: seq<T>, p: T -> bool, q: T -> bool)
    requires forall x :: q(x) == !p(x)
    ensures multiset(Filter(s, p)) + multiset(Filter(s, q)) == multiset(s)
  {
    if |s| > 0 {
      FilterPartition(s[1..], p, q);
      assert s == [s[0]] + s[1..];
    }
  }

  /** Each element occurs at most once in a multiset. */
  ghost predicate NoDup<T(!new)>(m: multiset<T>) {
    forall x :: m[x] <= 1
  }

  lemma CountTwo<T>(s: seq<T>, i: nat, j: nat)
    requires i < j < |s| && s[i] == s[j]
    ensures multiset(s)[s[i]] >= 2
  {
    assert s == s[..j] + [s[j]] + s[j + 1..];
    assert s[i] in multiset(s[..j]);
  }

  lemma {:induction false} NoDupDistinct<T(!new)>(s: seq<T>)
    requires NoDup(multiset(s))
    ensures Distinct(s)
  {
    forall i, j | 0 <= i < j < |s| ensures s[i] != s[j] {
      if s[i] == s[j] {
        CountTwo(s, i, j);
      }
    }
  }

  lemma {:induction false} DistinctNoDup<T(!new)>(s: seq<T>)
    requires Distinct(s)
    ensures NoDup(multiset(s))
  {
    if |s| > 0 {
      var init := s[..|s| - 1];
      assert Distinct(init) by {
        forall i, j | 0 <= i < j < |init| ensures init[i] != init[j] {
          assert init[i] == s[i] && init[j] == s[j];
        }
      }
      DistinctNoDup(init);
      assert s == init + [s[|s| - 1]];
      assert s[|s| - 1] !in init by {
        forall k | 0 <= k < |init| ensures init[k] != s[|s| - 1] {
          assert init[k] == s[k];
        }
      }
    }
  }

  /** A subset is no larger than its superset, and one as large is the whole set. */
  lemma {:induction false} SubsetCard<T>(a: set<T>, b: set<T>)
    requires a <= b
    ensures |a| <= |b| && (|a| == |b| ==> a == b)
    decreases |b|
  {
    if b != {} {
      var x :| x in b;
      SubsetCard(a - {x}, b - {x});
      assert |b - {x}| == |b| - 1;
      if x in a {
        assert a == (a - {x}) + {x};
        assert |a - {x}| == |a| - 1;
        assert b == (b - {x}) + {x};
      } else {
        assert a - {x} == a;
      }
    }
  }

  lemma {:induction false} RangeSetCard(n: nat)
    ensures |RangeSet(n)| == n
  {
    if n > 0 {
      var below := RangeSet(n - 1);
      RangeSetCard(n - 1);
      assert RangeSet(n) == below + {n - 1};
      assert n - 1 !in below;
      assert |below + {n - 1}| == |below| + 1;
    }
  }
}
