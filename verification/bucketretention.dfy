/** Which folders `GetLastItemsGroupByID` (pkg/bucketutils/bucketutils.go)
    returns, stated without the sort: when the ids of a group are pairwise
    distinct, a folder is returned exactly when at least `limit` folders of
    its group have a larger id. That holds whichever way `sort.Slice` orders
    its input, and covers the floor case too (a group of at most `limit`
    folders has no folder with `limit` larger ones). */
module BucketRetention {
  import opened Wrappers
  import opened Strings
  import opened BucketUtils
  import Sorting

  /** The ids of `items` are pairwise distinct. */
  predicate DistinctIds(items: seq<BucketItem>) {
    forall i, j :: 0 <= i < j < |items| ==> items[i].id != items[j].id
  }

  /** How many of `items` have an id larger than `id`. */
  function CountAbove(items: seq<BucketItem>, id: int): (n: nat)
    ensures n <= |items|
  {
    if |items| == 0 then 0
    else (if items[0].id > id then 1 else 0) + CountAbove(items[1..], id)
  }

  lemma {:induction false} CountAboveAppend(a: seq<BucketItem>, b: seq<BucketItem>, id: int)
    ensures CountAbove(a + b, id) == CountAbove(a, id) + CountAbove(b, id)
  {
    if |a| == 0 {
      assert a + b == b;
    } else {
      assert (a + b)[1..] == a[1..] + b;
      CountAboveAppend(a[1..], b, id);
    }
  }

  /** The count depends only on which items there are, not their order. */
  lemma {:induction false} CountAbovePermutation(a: seq<BucketItem>, b: seq<BucketItem>, id: int)
    requires multiset(a) == multiset(b)
    ensures CountAbove(a, id) == CountAbove(b, id)
    decreases |a|
  {
    if |a| > 0 {
      var x := a[0];
      assert x in multiset(b);
      var p :| 0 <= p < |b| && b[p] == x;
      var rest := b[..p] + b[p + 1..];
      assert b == b[..p] + [x] + b[p + 1..];
      assert a == [x] + a[1..];
      assert multiset(b) == multiset(b[..p]) + multiset{x} + multiset(b[p + 1..]);
      assert multiset(a) == multiset{x} + multiset(a[1..]);
      assert multiset(rest) == multiset(b[..p]) + multiset(b[p + 1..]);
      assert multiset(rest) == multiset(b) - multiset{x};
      assert multiset(a[1..]) == multiset(a) - multiset{x};
      CountAbovePermutation(a[1..], rest, id);
      CountAboveAppend(b[..p] + [x], b[p + 1..], id);
      CountAboveAppend(b[..p], [x], id);
      CountAboveAppend(b[..p], b[p + 1..], id);
    }
  }

  /** An element occurring at two positions occurs twice. */
  lemma TwiceInMultiset(s: seq<BucketItem>, i: int, j: int)
    requires 0 <= i < j < |s| && s[i] == s[j]
    ensures multiset(s)[s[i]] >= 2
  {
    assert s == s[..i] + [s[i]] + s[i + 1..j] + [s[j]] + s[j + 1..];
  }

  /** Distinct ids mean distinct items, each occurring once. */
  lemma {:induction false} DistinctIdsOnce(s: seq<BucketItem>, x: BucketItem)
    requires DistinctIds(s)
    ensures multiset(s)[x] <= 1
  {
    if |s| > 0 {
      assert DistinctIds(s[1..]) by {
        forall i, j | 0 <= i < j < |s[1..]| ensures s[1..][i].id != s[1..][j].id {
          assert s[1..][i] == s[i + 1] && s[1..][j] == s[j + 1];
        }
      }
      DistinctIdsOnce(s[1..], x);
      assert s == [s[0]] + s[1..];
      if s[0] == x {
        assert x !in s[1..] by {
          forall k | 0 <= k < |s[1..]| ensures s[1..][k] != x {
            assert s[1..][k] == s[k + 1];
          }
        }
      }
    }
  }

  /** A permutation keeps the ids distinct. */
  lemma DistinctIdsPermutation(a: seq<BucketItem>, b: seq<BucketItem>)
    requires multiset(a) == multiset(b) && DistinctIds(a)
    ensures DistinctIds(b)
  {
    forall i, j | 0 <= i < j < |b| ensures b[i].id != b[j].id {
      if b[i].id == b[j].id {
        assert b[i] in multiset(a) && b[j] in multiset(a);
        var p :| 0 <= p < |a| && a[p] == b[i];
        var q :| 0 <= q < |a| && a[q] == b[j];
        assert p == q;
        TwiceInMultiset(b, i, j);
        DistinctIdsOnce(a, b[i]);
      }
    }
  }

  /** In a sequence sorted by descending id with distinct ids, the items
      above position `k` are exactly those with a larger id. */
  lemma CountAboveSorted(s: seq<BucketItem>, k: int)
    requires Sorting.SortedBy(s, ByIdDescending) && DistinctIds(s)
    requires 0 <= k < |s|
    ensures CountAbove(s, s[k].id) == k
  {
    var id := s[k].id;
    var before, after := s[..k], s[k..];
    assert s == before + after;
    forall i | 0 <= i < |before| ensures before[i].id > id {
      assert before[i] == s[i] && ByIdDescending(s[i], s[k]);
    }
    forall i | 0 <= i < |after| ensures after[i].id <= id {
      assert after[i] == s[k + i];
      if i > 0 {
        assert ByIdDescending(s[k], s[k + i]);
      }
    }
    CountAboveAppend(before, after, id);
    AllAbove(before, id);
    NoneAbove(after, id);
  }

  lemma {:induction false} AllAbove(s: seq<BucketItem>, id: int)
    requires forall i :: 0 <= i < |s| ==> s[i].id > id
    ensures CountAbove(s, id) == |s|
  {
    if |s| > 0 {
      AllAbove(s[1..], id);
    }
  }

  lemma {:induction false} NoneAbove(s: seq<BucketItem>, id: int)
    requires forall i :: 0 <= i < |s| ==> s[i].id <= id
    ensures CountAbove(s, id) == 0
  {
    if |s| > 0 {
      NoneAbove(s[1..], id);
    }
  }

  /** At most `|items| - 1` items lie above one of them. */
  lemma {:induction false} CountAboveMember(items: seq<BucketItem>, x: BucketItem)
    requires x in items
    ensures CountAbove(items, x.id) < |items|
  {
    if items[0] != x {
      CountAboveMember(items[1..], x);
    }
  }

  /** For distinct ids, an item is dropped by sorting by descending id and
      skipping `limit` items exactly when `limit` items have a larger id. */
  lemma DroppedIffBelowTop(items: seq<BucketItem>, limit: int, x: BucketItem)
    requires 0 <= limit <= |items| && DistinctIds(items)
    ensures Sorting.TotalPreorder(ByIdDescending)
    ensures x in Sorting.Sort(items, ByIdDescending)[limit..] <==> x in items && CountAbove(items, x.id) >= limit
  {
    ByIdDescendingIsTotal();
    var s := Sorting.Sort(items, ByIdDescending);
    DistinctIdsPermutation(items, s);
    if x in items {
      assert x in multiset(s);
      var k :| 0 <= k < |s| && s[k] == x;
      CountAboveSorted(s, k);
      CountAbovePermutation(items, s, x.id);
      if x in s[limit..] {
        var k' :| limit <= k' < |s| && s[k'] == x;
        assert k == k';
      }
      if k >= limit {
        assert s[limit..][k - limit] == x;
      }
    } else {
      assert x !in multiset(s);
    }
  }

  /** `GetLastItemsGroupByID`, for a group whose ids are pairwise distinct:
      a folder is returned exactly when at least `limit` folders of its group
      have a larger id. */
  lemma LastItemsByRank(b: BucketUtils, group: string, limit: int, x: BucketItem)
    requires limit >= 0
    requires GetGroupItems(b, group).Success? && DistinctIds(GetGroupItems(b, group).value)
    ensures GetLastItemsGroupByID(b, group, limit).Success?
    ensures var items := GetGroupItems(b, group).value;
      x in GetLastItemsGroupByID(b, group, limit).value <==> x in items && CountAbove(items, x.id) >= limit
  {
    var items := GetGroupItems(b, group).value;
    if |items| <= limit {
      if x in items {
        CountAboveMember(items, x);
      }
    } else {
      DroppedIffBelowTop(items, limit, x);
    }
  }
}
