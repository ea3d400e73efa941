/** pkg/bucketutils/bucketutils.go: partition bucket folders into groups by a
    named `group` capture of a regular expression, and select for deletion
    all but the `limit` folders of a group with the highest `id` capture.

    The regular expression is abstracted as a `Regexp`: the names of its
    sub-expressions (index 0 is the whole match, named "") and its
    `FindStringSubmatch`, the text of every sub-expression of the leftmost
    match ("" for one that did not take part) or `None` without a match.
    Compiling is the parameter `compile`. */
module BucketUtils {
  import opened Wrappers
  import opened Strings
  import opened Strconv
  import Sorting

  /** A folder of the bucket: `id` and `group` are filled in by
      `GetGroupItems`; a fresh item has id 0 and group "". */
  datatype BucketItem = BucketItem(id: int, group: string, value: string)

  function NewItem(value: string): BucketItem {
    BucketItem(0, "", value)
  }

  datatype Regexp = Regexp(subexpNames: seq<string>, findSubmatch: string -> Option<seq<string>>)

  datatype BucketError =
    | PatternEmpty
    | PatternInvalid
    | GroupOrIdMissing
    | IdNotNumber(idValue: string)

  /** A `BucketUtils` as `NewBucketUtils` builds it: both positions name a
      sub-expression of `re`. */
  datatype BucketUtils = BucketUtils(items: seq<BucketItem>, re: Regexp, groupPosition: nat, idPosition: nat)

  /** `slices.Index`: the first position of `x` in `s`, or -1. */
  function Index(s: seq<string>, x: string): (i: int)
    ensures i == -1 <==> x !in s
    ensures i != -1 ==> 0 <= i < |s| && s[i] == x && forall j :: 0 <= j < i ==> s[j] != x
  {
    if |s| == 0 then -1
    else if s[0] == x then 0
    else
      var i := Index(s[1..], x);
      if i == -1 then -1 else i + 1
  }

  function NewBucketUtils(bucketRegexp: string, items: seq<BucketItem>, compile: string -> Option<Regexp>): (r: Result<BucketUtils, BucketError>)
    ensures |bucketRegexp| == 0 ==> r == Failure(PatternEmpty)
    ensures |bucketRegexp| > 0 && compile(bucketRegexp).None? ==> r == Failure(PatternInvalid)
    ensures r.Success? <==>
      && |bucketRegexp| > 0
      && compile(bucketRegexp).Some?
      && "group" in compile(bucketRegexp).value.subexpNames
      && "id" in compile(bucketRegexp).value.subexpNames
    ensures r.Success? ==>
      && r.value.items == items
      && r.value.re == compile(bucketRegexp).value
      && r.value.groupPosition < |r.value.re.subexpNames|
      && r.value.idPosition < |r.value.re.subexpNames|
      && r.value.re.subexpNames[r.value.groupPosition] == "group"
      && r.value.re.subexpNames[r.value.idPosition] == "id"
  {
    if |bucketRegexp| == 0 then Failure(PatternEmpty)
    else
      match compile(bucketRegexp)
      case None => Failure(PatternInvalid)
      case Some(re2) =>
        var groupPosition := Index(re2.subexpNames, "group");
        var idPosition := Index(re2.subexpNames, "id");
        if groupPosition < 0 || idPosition < 0 then Failure(GroupOrIdMissing)
        else Success(BucketUtils(items, re2, groupPosition, idPosition))
  }

  /** The text of sub-expression `pos` of the leftmost match of `value`;
      "" when nothing matches or the match has no such sub-expression. */
  function FindStringSubmatch(b: BucketUtils, value: string, pos: nat): (r: string)
    ensures b.re.findSubmatch(value).None? ==> r == ""
    ensures b.re.findSubmatch(value).Some? && |b.re.findSubmatch(value).value| <= pos ==> r == ""
    ensures b.re.findSubmatch(value).Some? && pos < |b.re.findSubmatch(value).value| ==>
      r == b.re.findSubmatch(value).value[pos]
  {
    match b.re.findSubmatch(value)
    case None => ""
    case Some(result) => if |result| <= pos then "" else result[pos]
  }

  /** The group an item belongs to: its `group` capture, "" when the item
      does not match. */
  function GroupOf(b: BucketUtils, item: BucketItem): string {
    FindStringSubmatch(b, item.value, b.groupPosition)
  }

  function IdOf(b: BucketUtils, item: BucketItem): string {
    FindStringSubmatch(b, item.value, b.idPosition)
  }

  // ---------------------------------------------------------------------
  // GetGroups.
  // ---------------------------------------------------------------------

  /** How many of `items` belong to `group`. */
  function CountGroup(b: BucketUtils, items: seq<BucketItem>, group: string): nat {
    if |items| == 0 then 0
    else (if GroupOf(b, items[0]) == group then 1 else 0) + CountGroup(b, items[1..], group)
  }

  /** `GetGroups` over a prefix of the items: each item adds one to the
      count of its group. */
  function CountGroups(b: BucketUtils, items: seq<BucketItem>): map<string, nat> {
    if |items| == 0 then map[]
    else
      var groups := CountGroups(b, items[..|items| - 1]);
      var g := GroupOf(b, items[|items| - 1]);
      groups[g := (if g in groups then groups[g] else 0) + 1]
  }

  /** The number of items of every group: a key for each group some item
      falls in (the empty group for items the pattern does not match),
      holding the number of its items. */
  function GetGroups(b: BucketUtils): (groups: map<string, nat>)
    ensures forall item :: item in b.items ==> GroupOf(b, item) in groups
    ensures forall g :: g in groups ==> groups[g] == CountGroup(b, b.items, g) > 0
  {
    CountGroupsCounts(b, b.items);
    CountGroupsKeys(b, b.items);
    CountGroups(b, b.items)
  }

  lemma {:induction false} CountGroupsKeys(b: BucketUtils, items: seq<BucketItem>)
    ensures forall item :: item in items ==> GroupOf(b, item) in CountGroups(b, items)
    ensures forall g :: g in CountGroups(b, items) ==> CountGroup(b, items, g) > 0
  {
    if |items| > 0 {
      var init := items[..|items| - 1];
      assert items == init + [items[|items| - 1]];
      CountGroupsKeys(b, init);
      forall g ensures CountGroup(b, items, g) >= CountGroup(b, init, g) {
        CountGroupSnoc(b, init, items[|items| - 1], g);
      }
      CountGroupSnoc(b, init, items[|items| - 1], GroupOf(b, items[|items| - 1]));
    }
  }

  lemma {:induction false} CountGroupSnoc(b: BucketUtils, items: seq<BucketItem>, item: BucketItem, group: string)
    ensures CountGroup(b, items + [item], group) == CountGroup(b, items, group) + (if GroupOf(b, item) == group then 1 else 0)
  {
    if |items| > 0 {
      assert (items + [item])[1..] == items[1..] + [item];
      CountGroupSnoc(b, items[1..], item, group);
    }
  }

  /** Every group's count is the number of items in it. */
  lemma {:induction false} CountGroupsCounts(b: BucketUtils, items: seq<BucketItem>)
    ensures forall g :: g in CountGroups(b, items) ==> CountGroups(b, items)[g] == CountGroup(b, items, g)
    ensures forall g :: g !in CountGroups(b, items) ==> CountGroup(b, items, g) == 0
  {
    if |items| > 0 {
      var init := items[..|items| - 1];
      var item := items[|items| - 1];
      assert items == init + [item];
      CountGroupsCounts(b, init);
      forall g ensures CountGroup(b, items, g) == CountGroup(b, init, g) + (if GroupOf(b, item) == g then 1 else 0) {
        CountGroupSnoc(b, init, item, g);
      }
    }
  }

  /** The sum of the values of a map. */
  ghost function MapSum(m: map<string, nat>): nat
    decreases |m|
  {
    if |m| == 0 then 0
    else
      var k :| k in m;
      m[k] + MapSum(m - {k})
  }

  lemma MapMinusCard(m: map<string, nat>, k: string)
    requires k in m
    ensures |m - {k}| == |m| - 1
  {
    assert m.Keys == (m - {k}).Keys + {k};
    assert |m.Keys| == |m|;
    assert |(m - {k}).Keys| == |m - {k}|;
  }

  /** The key `MapSum` takes out first. */
  lemma MapSumPick(m: map<string, nat>) returns (k: string)
    requires |m| > 0
    ensures k in m && MapSum(m) == m[k] + MapSum(m - {k})
  {
    k :| k in m && MapSum(m) == m[k] + MapSum(m - {k});
  }

  lemma MapMinusSwap(m: map<string, nat>, a: string, b: string)
    ensures (m - {a}) - {b} == (m - {b}) - {a}
  {
  }

  /** Any key can be taken out first. */
  lemma {:induction false} MapSumRemove(m: map<string, nat>, k: string)
    requires k in m
    ensures MapSum(m) == m[k] + MapSum(m - {k})
    decreases |m|
  {
    var k' := MapSumPick(m);
    if k' != k {
      var withoutK', withoutK := m - {k'}, m - {k};
      assert k in withoutK' && withoutK'[k] == m[k];
      assert k' in withoutK && withoutK[k'] == m[k'];
      MapMinusCard(m, k');
      MapSumRemove(withoutK', k);
      MapMinusCard(m, k);
      MapSumRemove(withoutK, k');
      MapMinusSwap(m, k', k);
    }
  }

  lemma MapSumUpdate(m: map<string, nat>, k: string, v: nat)
    ensures MapSum(m[k := v]) == v + MapSum(m - {k})
  {
    MapSumRemove(m[k := v], k);
    assert m[k := v] - {k} == m - {k};
  }

  /** Adding one to a key's count (a missing key counting 0) adds one to
      the sum. */
  lemma MapSumIncrement(m: map<string, nat>, k: string)
    ensures MapSum(m[k := (if k in m then m[k] else 0) + 1]) == MapSum(m) + 1
  {
    MapSumUpdate(m, k, (if k in m then m[k] else 0) + 1);
    if k in m {
      MapSumRemove(m, k);
    } else {
      assert m - {k} == m;
    }
  }

  /** Every item is counted exactly once: the counts sum to the number of
      items. */
  lemma {:induction false} CountGroupsTotal(b: BucketUtils, items: seq<BucketItem>)
    ensures MapSum(CountGroups(b, items)) == |items|
  {
    if |items| > 0 {
      var init := items[..|items| - 1];
      CountGroupsTotal(b, init);
      MapSumIncrement(CountGroups(b, init), GroupOf(b, items[|items| - 1]));
    }
  }

  /** `GetGroups` counts every item exactly once: the counts sum to the
      number of items. */
  lemma GetGroupsTotal(b: BucketUtils)
    ensures MapSum(GetGroups(b)) == |b.items|
  {
    CountGroupsTotal(b, b.items);
  }

  // ---------------------------------------------------------------------
  // GetGroupItems.
  // ---------------------------------------------------------------------

  /** Whether an item falls in `group`. */
  function InGroup(b: BucketUtils, group: string): BucketItem -> bool {
    item => GroupOf(b, item) == group
  }

  /** The items of `items` in `group`, in order: the listing filtered by
      group. */
  function Members(b: BucketUtils, items: seq<BucketItem>, group: string): (r: seq<BucketItem>)
    ensures |r| == CountGroup(b, items, group)
    ensures forall item :: item in r <==> item in items && GroupOf(b, item) == group
    ensures r == Filter(items, InGroup(b, group))
  {
    if |items| == 0 then []
    else (if GroupOf(b, items[0]) == group then [items[0]] else []) + Members(b, items[1..], group)
  }

  /** A member's id capture is not a number. */
  predicate BadId(b: BucketUtils, item: BucketItem) {
    IdOf(b, item) != "" && Atoi(IdOf(b, item)).None?
  }

  /** The copy of a member that `GetGroupItems` returns. */
  predicate IsCopy(b: BucketUtils, group: string, item: BucketItem, copy: BucketItem) {
    && copy.value == item.value
    && copy.group == group
    && (IdOf(b, item) == "" ==> copy.id == item.id)
    && (IdOf(b, item) != "" ==> Atoi(IdOf(b, item)) == Some(copy.id))
  }

  /** Copies of the members of `items` in `group`, with group and id filled
      in; fails at the first member whose id capture is not a number. */
  function GroupItems(b: BucketUtils, items: seq<BucketItem>, group: string): Result<seq<BucketItem>, BucketError> {
    if |items| == 0 then Success([])
    else
      var item := items[0];
      var rest := GroupItems(b, items[1..], group);
      if GroupOf(b, item) != group then rest
      else
        var idValue := IdOf(b, item);
        var id := if |idValue| > 0 then Atoi(idValue) else Some(item.id);
        match id
        case None => Failure(IdNotNumber(idValue))
        case Some(n) =>
          match rest
          case Failure(e) => Failure(e)
          case Success(copies) => Success([item.(id := n, group := group)] + copies)
  }

  lemma {:induction false} GroupItemsFails(b: BucketUtils, items: seq<BucketItem>, group: string)
    ensures GroupItems(b, items, group).Failure? <==> exists item :: item in Members(b, items, group) && BadId(b, item)
    ensures GroupItems(b, items, group).Failure? ==>
      exists item :: item in Members(b, items, group) && GroupItems(b, items, group).error == IdNotNumber(IdOf(b, item))
  {
    if |items| > 0 {
      var item, tail := items[0], items[1..];
      GroupItemsFails(b, tail, group);
      if GroupOf(b, item) == group {
        assert Members(b, items, group) == [item] + Members(b, tail, group);
        if BadId(b, item) {
          assert GroupItems(b, items, group) == Failure(IdNotNumber(IdOf(b, item)));
        } else {
          assert GroupItems(b, items, group).Failure? <==> GroupItems(b, tail, group).Failure?;
          assert GroupItems(b, items, group).Failure? ==> GroupItems(b, items, group) == GroupItems(b, tail, group);
        }
      } else {
        assert Members(b, items, group) == Members(b, tail, group);
        assert GroupItems(b, items, group) == GroupItems(b, tail, group);
      }
    }
  }

  lemma {:induction false} GroupItemsCopies(b: BucketUtils, items: seq<BucketItem>, group: string)
    requires GroupItems(b, items, group).Success?
    ensures |GroupItems(b, items, group).value| == |Members(b, items, group)|
    ensures forall i :: 0 <= i < |GroupItems(b, items, group).value| ==>
      IsCopy(b, group, Members(b, items, group)[i], GroupItems(b, items, group).value[i])
  {
    if |items| > 0 {
      var item, tail := items[0], items[1..];
      GroupItemsCopies(b, tail, group);
      var copies, rest := GroupItems(b, items, group).value, GroupItems(b, tail, group).value;
      var members, restMembers := Members(b, items, group), Members(b, tail, group);
      if GroupOf(b, item) == group {
        assert members == [item] + restMembers;
        assert copies[1..] == rest;
        forall i | 0 <= i < |copies| ensures IsCopy(b, group, members[i], copies[i]) {
          if i > 0 {
            assert members[i] == restMembers[i - 1] && copies[i] == rest[i - 1];
          }
        }
      } else {
        assert members == restMembers && copies == rest;
      }
    }
  }

  /** The members of `group`, as copies carrying their group and numeric
      id (an empty id capture keeps the item's id); fails exactly when a
      member's id capture is not a number, reporting one such capture. The
      items of `b` themselves are left as they were. */
  function GetGroupItems(b: BucketUtils, group: string): (r: Result<seq<BucketItem>, BucketError>)
    ensures r.Failure? <==> exists item :: item in b.items && GroupOf(b, item) == group && BadId(b, item)
    ensures r.Failure? ==> exists item :: item in b.items && GroupOf(b, item) == group && r.error == IdNotNumber(IdOf(b, item))
    ensures r.Success? ==>
      && |r.value| == CountGroup(b, b.items, group)
      && forall i :: 0 <= i < |r.value| ==> IsCopy(b, group, Members(b, b.items, group)[i], r.value[i])
  {
    GroupItemsFails(b, b.items, group);
    var r := GroupItems(b, b.items, group);
    assert r.Success? ==>
      && |r.value| == CountGroup(b, b.items, group)
      && forall i :: 0 <= i < |r.value| ==> IsCopy(b, group, Members(b, b.items, group)[i], r.value[i])
    by {
      if r.Success? {
        GroupItemsCopies(b, b.items, group);
      }
    }
    r
  }

  // ---------------------------------------------------------------------
  // GetLastItemsGroupByID.
  // ---------------------------------------------------------------------

  /** The `sort.Slice` order of the source: larger ids first. */
  predicate ByIdDescending(a: BucketItem, c: BucketItem) {
    a.id >= c.id
  }

  lemma ByIdDescendingIsTotal()
    ensures Sorting.TotalPreorder(ByIdDescending)
  {
  }

  /** The largest `limit` ids come first in the sorted items: what follows
      them, together with them, is all of the items, and no later id is
      larger than an earlier one. */
  ghost predicate DropsLowest(items: seq<BucketItem>, limit: int, dropped: seq<BucketItem>) {
    exists kept: seq<BucketItem> ::
      && |kept| == limit
      && multiset(kept) + multiset(dropped) == multiset(items)
      && forall i, j :: 0 <= i < |dropped| && 0 <= j < |kept| ==> dropped[i].id <= kept[j].id
  }

  lemma DropTop(items: seq<BucketItem>, limit: int)
    requires 0 <= limit <= |items|
    ensures Sorting.TotalPreorder(ByIdDescending)
    ensures |Sorting.Sort(items, ByIdDescending)[limit..]| == |items| - limit
    ensures DropsLowest(items, limit, Sorting.Sort(items, ByIdDescending)[limit..])
  {
    ByIdDescendingIsTotal();
    var sorted := Sorting.Sort(items, ByIdDescending);
    var kept := sorted[..limit];
    var dropped := sorted[limit..];
    assert sorted == kept + dropped;
    assert multiset(kept) + multiset(dropped) == multiset(items);
    SortedSplit(sorted, kept, dropped);
    DropsLowestWitness(items, limit, kept, dropped);
  }

  lemma DropsLowestWitness(items: seq<BucketItem>, limit: int, kept: seq<BucketItem>, dropped: seq<BucketItem>)
    requires |kept| == limit && multiset(kept) + multiset(dropped) == multiset(items)
    requires forall i, j :: 0 <= i < |dropped| && 0 <= j < |kept| ==> dropped[i].id <= kept[j].id
    ensures DropsLowest(items, limit, dropped)
  {
  }

  /** Cut in two, ids sorted from the largest leave no id of the second
      part above one of the first. */
  lemma SortedSplit(sorted: seq<BucketItem>, kept: seq<BucketItem>, dropped: seq<BucketItem>)
    requires Sorting.SortedBy(sorted, ByIdDescending) && sorted == kept + dropped
    ensures forall i, j :: 0 <= i < |dropped| && 0 <= j < |kept| ==> dropped[i].id <= kept[j].id
  {
    forall i, j | 0 <= i < |dropped| && 0 <= j < |kept| ensures dropped[i].id <= kept[j].id {
      assert dropped[i] == sorted[|kept| + i] && kept[j] == sorted[j];
      assert ByIdDescending(sorted[j], sorted[|kept| + i]);
    }
  }


  /** Every item of `group` except the `limit` with the largest ids; nothing
      when the group has at most `limit` items. A negative `limit` makes the
      source's `items[:limit]` panic, so it is excluded. Ties among equal
      ids are broken by the sort, which the source leaves unspecified. */
  function GetLastItemsGroupByID(b: BucketUtils, group: string, limit: int): (r: Result<seq<BucketItem>, BucketError>)
    requires limit >= 0
    ensures r.Failure? <==> GetGroupItems(b, group).Failure?
    ensures r.Failure? ==> r.error == GetGroupItems(b, group).error
    ensures r.Success? && |GetGroupItems(b, group).value| <= limit ==> r.value == []
    ensures r.Success? && |GetGroupItems(b, group).value| > limit ==>
      && |r.value| == |GetGroupItems(b, group).value| - limit
      && DropsLowest(GetGroupItems(b, group).value, limit, r.value)
  {
    match GetGroupItems(b, group)
    case Failure(e) => Failure(e)
    case Success(items) =>
      if |items| <= limit then Success([])
      else
        DropTop(items, limit);
        Success(Sorting.Sort(items, ByIdDescending)[limit..])
  }
}
