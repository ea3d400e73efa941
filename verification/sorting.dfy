/** Sorting by a caller-supplied "comes no later than" relation. The cleaner
    sorts tag names in reverse string order (`sort.Sort(sort.Reverse(...))`)
    and bucket items by descending id (`sort.Slice`); both are modelled by
    the insertion sort below, which is stable. Go's `sort.Slice` is not
    stable, so for bucket items only the properties that every correct sort
    shares (sortedness and permutation) are relied on. */
module Sorting {
  import opened Strings

  /** `before` is total and transitive: a total preorder. */
  ghost predicate TotalPreorder<T(!new)>(before: (T, T) -> bool) {
    && (forall a, b :: before(a, b) || before(b, a))
    && (forall a, b, c :: before(a, b) && before(b, c) ==> before(a, c))
  }

  ghost predicate Antisymmetric<T(!new)>(before: (T, T) -> bool) {
    forall a, b :: before(a, b) && before(b, a) ==> a == b
  }

  predicate SortedBy<T>(s: seq<T>, before: (T, T) -> bool) {
    forall i, j :: 0 <= i < j < |s| ==> before(s[i], s[j])
  }

  /** Insert `x` into the sorted `s`, after every element that must come
      before it. */
  function Insert<T(!new)>(x: T, s: seq<T>, before: (T, T) -> bool): (r: seq<T>)
    requires TotalPreorder(before)
    requires SortedBy(s, before)
    ensures SortedBy(r, before)
    ensures multiset(r) == multiset(s) + multiset{x}
  {
    if |s| == 0 then [x]
    else if before(x, s[0]) then
      HeadBeforeAll(s, before);
      [x] + s
    else
      var tail := Insert(x, s[1..], before);
      assert s == [s[0]] + s[1..];
      HeadBeforeAll(s, before);
      assert before(s[0], x);
      forall j | 0 <= j < |tail| ensures before(s[0], tail[j]) {
        assert tail[j] in multiset(tail);
      }
      ConsSorted(s[0], tail, before);
      [s[0]] + tail
  }

  /** An element that comes before every element of a sorted sequence can
      be put in front of it. */
  lemma ConsSorted<T>(x: T, s: seq<T>, before: (T, T) -> bool)
    requires SortedBy(s, before)
    requires forall j :: 0 <= j < |s| ==> before(x, s[j])
    ensures SortedBy([x] + s, before)
  {
    forall i, j | 0 <= i < j < |[x] + s| ensures before(([x] + s)[i], ([x] + s)[j]) {
      assert ([x] + s)[j] == s[j - 1];
      if i > 0 {
        assert ([x] + s)[i] == s[i - 1];
      }
    }
  }

  /** The head of a sorted sequence comes before each of its elements. */
  lemma HeadBeforeAll<T(!new)>(s: seq<T>, before: (T, T) -> bool)
    requires TotalPreorder(before)
    requires SortedBy(s, before) && |s| > 0
    ensures forall y :: y in multiset(s) ==> before(s[0], y)
  {
    forall y | y in multiset(s) ensures before(s[0], y) {
      var k :| 0 <= k < |s| && s[k] == y;
      assert k == 0 || before(s[0], s[k]);
    }
  }

  /** Insertion sort. */
  function Sort<T(!new)>(s: seq<T>, before: (T, T) -> bool): (r: seq<T>)
    requires TotalPreorder(before)
    ensures SortedBy(r, before)
    ensures multiset(r) == multiset(s)
    ensures |r| == |s|
  {
    if |s| == 0 then []
    else
      assert s == [s[0]] + s[1..];
      Insert(s[0], Sort(s[1..], before), before)
  }

  lemma MultisetTail<T>(s: seq<T>)
    requires |s| > 0
    ensures multiset(s[1..]) == multiset(s) - multiset{s[0]}
  {
    assert s == [s[0]] + s[1..];
  }

  /** Under an antisymmetric order there is only one sorted arrangement of a
      multiset of elements. */
  lemma {:induction false} SortedUnique<T(!new)>(a: seq<T>, b: seq<T>, before: (T, T) -> bool)
    requires TotalPreorder(before) && Antisymmetric(before)
    requires SortedBy(a, before) && SortedBy(b, before)
    requires multiset(a) == multiset(b)
    ensures a == b
  {
    if |a| > 0 {
      assert |b| == |multiset(b)| == |multiset(a)| == |a|;
      assert a[0] == b[0] by {
        HeadBeforeAll(a, before);
        HeadBeforeAll(b, before);
        assert a[0] in multiset(b) && b[0] in multiset(a);
      }
      assert SortedBy(a[1..], before) && SortedBy(b[1..], before) && multiset(a[1..]) == multiset(b[1..]) by {
        MultisetTail(a);
        MultisetTail(b);
      }
      SortedUnique(a[1..], b[1..], before);
      assert a == [a[0]] + a[1..] && b == [b[0]] + b[1..];
    } else {
      assert |b| == |multiset(b)| == 0;
    }
  }

  /** Filtering keeps a sorted sequence sorted. */
  lemma {:induction false} FilterSorted<T(!new)>(s: seq<T>, p: T -> bool, before: (T, T) -> bool)
    requires SortedBy(s, before)
    ensures SortedBy(Filter(s, p), before)
  {
    if |s| > 0 {
      var tail := Filter(s[1..], p);
      FilterSorted(s[1..], p, before);
      if p(s[0]) {
        forall j | 0 <= j < |tail| ensures before(s[0], tail[j]) {
          assert tail[j] in s[1..];
          var k :| 0 <= k < |s[1..]| && s[1..][k] == tail[j];
          assert s[k + 1] == tail[j];
        }
      }
    }
  }
}
