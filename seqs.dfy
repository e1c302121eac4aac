/** Sequence helpers shared by the repositories and the menu: an order-preserving filter
    (the `for (x : cache) if (p(x)) out.add(x)` loops and stream filters of the source) and a
    stable insertion sort (standing in for `List.sort` and `Stream.sorted`). */
module Seqs {
  import opened Wrappers

  /** The elements of `s` that satisfy `p`, in their original order. */
  function Filter<T(!new)>(s: seq<T>, p: T -> bool): (r: seq<T>)
    ensures |r| <= |s|
  {
    if |s| == 0 then []
    else Filter(s[..|s| - 1], p) + (if p(s[|s| - 1]) then [s[|s| - 1]] else [])
  }

  /** The filter keeps exactly the elements that satisfy `p`. */
  lemma {:induction false} FilterMembers<T(!new)>(s: seq<T>, p: T -> bool)
    ensures forall x :: x in Filter(s, p) <==> x in s && p(x)
  {
    if |s| > 0 {
      var s' := s[..|s| - 1];
      FilterMembers(s', p);
      assert s == s' + [s[|s| - 1]];
    }
  }

  /** Extending the input by one element extends the filtered output by at most that element. */
  lemma FilterSnoc<T(!new)>(s: seq<T>, x: T, p: T -> bool)
    ensures Filter(s + [x], p) == Filter(s, p) + (if p(x) then [x] else [])
  {
    assert (s + [x])[..|s + [x]| - 1] == s;
  }

  /** One more element of a prefix: the filter of `s[..i + 1]` extends that of `s[..i]`. */
  lemma FilterPrefixStep<T(!new)>(s: seq<T>, i: nat, p: T -> bool)
    requires i < |s|
    ensures Filter(s[..i + 1], p) == Filter(s[..i], p) + (if p(s[i]) then [s[i]] else [])
  {
    assert s[..i + 1][..i] == s[..i];
  }

  /** Filtering distributes over concatenation. */
  lemma {:induction false} FilterAppend<T(!new)>(a: seq<T>, b: seq<T>, p: T -> bool)
    ensures Filter(a + b, p) == Filter(a, p) + Filter(b, p)
    decreases |b|
  {
    if |b| == 0 {
      assert a + b == a;
    } else {
      var b' := b[..|b| - 1];
      var x := b[|b| - 1];
      assert a + b == (a + b') + [x];
      assert b == b' + [x];
      FilterAppend(a, b', p);
      FilterSnoc(a + b', x, p);
      FilterSnoc(b', x, p);
    }
  }

  /** Filtering keeps a sequence unchanged exactly when every element passes. */
  lemma {:induction false} FilterAllPass<T(!new)>(s: seq<T>, p: T -> bool)
    ensures Filter(s, p) == s <==> forall x :: x in s ==> p(x)
  {
    if |s| > 0 {
      var s' := s[..|s| - 1];
      assert s == s' + [s[|s| - 1]];
      FilterAllPass(s', p);
      if Filter(s, p) == s {
        assert |Filter(s', p)| <= |s'| < |s|;
        assert p(s[|s| - 1]);
        assert Filter(s', p) + [s[|s| - 1]] == s' + [s[|s| - 1]];
        assert Filter(s', p) == s';
      }
    }
  }

  /** Filters with predicates that agree on the elements of `s` give the same result. */
  lemma {:induction false} FilterAgree<T(!new)>(s: seq<T>, p: T -> bool, q: T -> bool)
    requires forall x :: x in s ==> p(x) == q(x)
    ensures Filter(s, p) == Filter(s, q)
  {
    if |s| > 0 {
      var s' := s[..|s| - 1];
      assert forall x :: x in s' ==> x in s;
      FilterAgree(s', p, q);
    }
  }

  /** Filtering an already filtered sequence by a stronger predicate is the same as filtering once:
      the elements that satisfy `q` are untouched, in number and in order, by a filter on `p`. */
  lemma {:induction false} FilterOfFilter<T(!new)>(s: seq<T>, p: T -> bool, q: T -> bool)
    requires forall x :: x in s && q(x) ==> p(x)
    ensures Filter(Filter(s, p), q) == Filter(s, q)
  {
    if |s| > 0 {
      var s' := s[..|s| - 1];
      var x := s[|s| - 1];
      assert forall y :: y in s' ==> y in s;
      FilterOfFilter(s', p, q);
      assert Filter(s, q) == Filter(s', q) + (if q(x) then [x] else []);
      if p(x) {
        assert Filter(s, p) == Filter(s', p) + [x];
        FilterSnoc(Filter(s', p), x, q);
      } else {
        assert Filter(s, p) == Filter(s', p);
      }
    }
  }

  /** A filter and its complement split the sequence: together they keep every element once. */
  lemma {:induction false} FilterSplit<T(!new)>(s: seq<T>, p: T -> bool, q: T -> bool)
    requires forall x :: x in s ==> q(x) == !p(x)
    ensures |Filter(s, p)| + |Filter(s, q)| == |s|
  {
    if |s| > 0 {
      var s' := s[..|s| - 1];
      assert forall x :: x in s' ==> x in s;
      FilterSplit(s', p, q);
    }
  }

  /** The position of the first element that satisfies `p` (Java's `findFirst` and the
      first-match loops), or `None` when no element does. */
  function FirstIndex<T(!new)>(s: seq<T>, p: T -> bool): (r: Option<nat>)
    ensures r.None? <==> forall i :: 0 <= i < |s| ==> !p(s[i])
    ensures r.Some? ==> r.value < |s| && p(s[r.value]) && forall j :: 0 <= j < r.value ==> !p(s[j])
  {
    if |s| == 0 then None
    else if p(s[0]) then Some(0)
    else
      var r := FirstIndex(s[1..], p);
      assert forall i :: 1 <= i < |s| ==> s[i] == s[1..][i - 1];
      if r.None? then None else Some(r.value + 1)
  }

  /** The number of elements that satisfy `p`. */
  function Count<T(!new)>(s: seq<T>, p: T -> bool): (n: nat)
    ensures n <= |s|
  {
    |Filter(s, p)|
  }

  /** The count over the first `i` elements, taken one element at a time. */
  ghost function CountUpTo<T(!new)>(s: seq<T>, i: nat, p: T -> bool): nat
    requires i <= |s|
  {
    if i == 0 then 0 else CountUpTo(s, i - 1, p) + (if p(s[i - 1]) then 1 else 0)
  }

  lemma {:induction false} CountUpToIsCount<T(!new)>(s: seq<T>, i: nat, p: T -> bool)
    requires i <= |s|
    ensures CountUpTo(s, i, p) == Count(s[..i], p)
  {
    if i > 0 {
      CountUpToIsCount(s, i - 1, p);
      FilterPrefixStep(s, i - 1, p);
    }
  }

  /** The filter of the first `i` elements, taken one element at a time. */
  ghost function FilterUpTo<T(!new)>(s: seq<T>, i: nat, p: T -> bool): seq<T>
    requires i <= |s|
  {
    if i == 0 then [] else FilterUpTo(s, i - 1, p) + (if p(s[i - 1]) then [s[i - 1]] else [])
  }

  lemma {:induction false} FilterUpToIsFilter<T(!new)>(s: seq<T>, i: nat, p: T -> bool)
    requires i <= |s|
    ensures FilterUpTo(s, i, p) == Filter(s[..i], p)
  {
    if i > 0 {
      FilterUpToIsFilter(s, i - 1, p);
      FilterPrefixStep(s, i - 1, p);
    }
  }

  /** The count is zero exactly when no element satisfies `p`. */
  lemma CountZero<T(!new)>(s: seq<T>, p: T -> bool)
    ensures Count(s, p) == 0 <==> forall x :: x in s ==> !p(x)
  {
    FilterMembers(s, p);
    var r := Filter(s, p);
    assert r != [] ==> r[0] in r;
  }

  /** `le` is a total preorder: what a Java `Comparator` is required to be. */
  ghost predicate TotalPreorder<T(!new)>(le: (T, T) -> bool) {
    && (forall a, b :: le(a, b) || le(b, a))
    && (forall a, b, c :: le(a, b) && le(b, c) ==> le(a, c))
  }

  /** Every element may precede every later one. */
  ghost predicate SortedBy<T(!new)>(s: seq<T>, le: (T, T) -> bool) {
    forall i, j :: 0 <= i < j < |s| ==> le(s[i], s[j])
  }

  /** Inserts `x` into sorted `s` before the first element that is strictly greater, so that
      elements comparing equal keep their relative order. */
  function Insert<T(!new)>(x: T, s: seq<T>, le: (T, T) -> bool): (r: seq<T>)
    requires TotalPreorder(le) && SortedBy(s, le)
    ensures SortedBy(r, le)
    ensures multiset(r) == multiset(s) + multiset{x}
  {
    if |s| == 0 then [x]
    else if !le(s[0], x) then
      InsertFront(x, s, le);
      [x] + s
    else
      var t := Insert(x, s[1..], le);
      InsertBehindHead(x, s, t, le);
      [s[0]] + t
  }

  /** An element that the head of a sorted sequence may not precede goes in front of it all. */
  lemma InsertFront<T(!new)>(x: T, s: seq<T>, le: (T, T) -> bool)
    requires TotalPreorder(le) && SortedBy(s, le) && |s| > 0 && !le(s[0], x)
    ensures SortedBy([x] + s, le)
  {
    var r := [x] + s;
    forall i, j | 0 <= i < j < |r| ensures le(r[i], r[j]) {
      assert r[j] == s[j - 1];
      if i > 0 {
        assert r[i] == s[i - 1];
      } else if j > 1 {
        assert le(s[0], s[j - 1]);
      }
    }
  }

  /** The head of a sorted sequence may precede everything of the insertion into its tail. */
  lemma InsertBehindHead<T(!new)>(x: T, s: seq<T>, t: seq<T>, le: (T, T) -> bool)
    requires TotalPreorder(le) && SortedBy(s, le) && |s| > 0 && le(s[0], x)
    requires SortedBy(t, le) && multiset(t) == multiset(s[1..]) + multiset{x}
    ensures SortedBy([s[0]] + t, le)
    ensures multiset([s[0]] + t) == multiset(s) + multiset{x}
  {
    assert s == [s[0]] + s[1..];
    forall k | 0 <= k < |t| ensures le(s[0], t[k]) {
      var y := t[k];
      assert y in multiset(t);
      if y != x {
        assert y in multiset(s[1..]);
        var j :| 0 <= j < |s[1..]| && s[1..][j] == y;
        assert le(s[0], s[j + 1]);
      }
    }
    var r := [s[0]] + t;
    forall i, j | 0 <= i < j < |r| ensures le(r[i], r[j]) {
      assert r[j] == t[j - 1];
      if i > 0 { assert r[i] == t[i - 1]; }
    }
  }

  /** Stable insertion sort: the result is ordered by `le` and is a permutation of `s`. */
  function SortBy<T(!new)>(s: seq<T>, le: (T, T) -> bool): (r: seq<T>)
    requires TotalPreorder(le)
    ensures SortedBy(r, le)
    ensures multiset(r) == multiset(s)
    ensures |r| == |s|
  {
    if |s| == 0 then []
    else
      var r := Insert(s[|s| - 1], SortBy(s[..|s| - 1], le), le);
      assert s == s[..|s| - 1] + [s[|s| - 1]];
      assert |r| == |multiset(r)|;
      r
  }

  /** The first `k` elements of a sorted arrangement of `s`: they come from `s`, stay sorted, and
      nothing of `s` left out may precede anything kept. */
  lemma SortedPrefix<T(!new)>(s: seq<T>, sorted: seq<T>, le: (T, T) -> bool, k: nat)
    requires SortedBy(sorted, le) && multiset(sorted) == multiset(s) && k <= |sorted|
    ensures forall e :: e in sorted[..k] ==> e in s
    ensures multiset(sorted[..k]) <= multiset(s)
    ensures SortedBy(sorted[..k], le)
    ensures forall e, x :: e in sorted[..k] && x in s && x !in sorted[..k] ==> le(e, x)
  {
    var r := sorted[..k];
    assert sorted == r + sorted[k..];
    forall e | e in r ensures e in s {
      assert e in multiset(sorted);
    }
    forall e, x | e in r && x in s && x !in r ensures le(e, x) {
      assert x in multiset(s);
      var j :| 0 <= j < |sorted| && sorted[j] == x;
      var i :| 0 <= i < |r| && r[i] == e;
    }
  }

  /** One more element at the end counts once more exactly when it satisfies `p`. */
  lemma CountSnoc<T(!new)>(s: seq<T>, x: T, p: T -> bool)
    ensures Count(s + [x], p) == Count(s, p) + (if p(x) then 1 else 0)
  {
    FilterSnoc(s, x, p);
  }
}
