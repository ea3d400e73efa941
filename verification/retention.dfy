/** What `GetNotDeletableTags` (pkg/api/api.go) guarantees, stated without
    reference to its loops:

    - the result depends only on the tags, not on the order a Go map hands
      them out;
    - when the tags within `notDeleteDays` of the latest release date carry
      at least `minNotDeleteTags` distinct arch-stripped names, exactly those
      tags are kept;
    - otherwise the kept tags are those whose stripped name lies in the
      longest prefix of the stripped names (newest string first) spanning at
      most `minNotDeleteTags` distinct dates, which keeps
      `min(minNotDeleteTags, distinct dates)` dates and every arch variant
      of each kept name. */
module Retention {
  import opened Wrappers
  import opened Strings
  import opened Clock
  import opened Api
  import Sorting

  // ---------------------------------------------------------------------
  // The minimum-keep walk, for any assignment of dates to names.
  // ---------------------------------------------------------------------

  /** The distinct dates carried by `names`. */
  ghost function DaysOf(names: seq<string>, dayOf: Dating): set<int> {
    set s | s in names && dayOf(s).Some? :: dayOf(s).value
  }

  /** `p[..k]` is the longest prefix of `p` whose names, added to `days`,
      span at most `limit` distinct dates. */
  ghost predicate LongestPrefix(p: seq<string>, dayOf: Dating, limit: int, days: set<int>, k: int) {
    && 0 <= k <= |p|
    && |days + DaysOf(p[..k], dayOf)| <= limit
    && (k == |p| || |days + DaysOf(p[..k + 1], dayOf)| > limit)
  }

  lemma DaysOfCons(x: string, s: seq<string>, dayOf: Dating)
    requires dayOf(x).Some?
    ensures DaysOf([x] + s, dayOf) == {dayOf(x).value} + DaysOf(s, dayOf)
  {
  }

  lemma DaysOfSnoc(s: seq<string>, x: string, dayOf: Dating)
    requires dayOf(x).Some?
    ensures DaysOf(s + [x], dayOf) == DaysOf(s, dayOf) + {dayOf(x).value}
  {
  }

  lemma PrefixCons<T>(x: T, s: seq<T>, k: nat)
    requires k <= |s|
    ensures ([x] + s)[..k + 1] == [x] + s[..k]
  {
  }

  lemma SubsetCard<T>(a: set<T>, b: set<T>)
    requires a <= b
    ensures |a| <= |b|
  {
    assert b == a + (b - a);
  }

  /** The walk returns the longest prefix of the dated names that, added to
      the dates already seen, spans at most `limit` distinct dates. */
  lemma {:induction false} WalkShape(names: seq<string>, dayOf: Dating, limit: int, days: set<int>)
    requires |days| <= limit
    ensures WalkIsPrefix(names, dayOf, limit, days)
  {
    if |names| > 0 {
      var x := names[0];
      if dayOf(x).None? {
        WalkShape(names[1..], dayOf, limit, days);
        WalkSkip(names, dayOf, limit, days);
      } else if |days + {dayOf(x).value}| > limit {
        WalkStop(names, dayOf, limit, days);
      } else {
        WalkShape(names[1..], dayOf, limit, days + {dayOf(x).value});
        WalkTake(names, dayOf, limit, days);
      }
    }
  }

  /** The conclusion of `WalkShape`. */
  ghost predicate WalkIsPrefix(names: seq<string>, dayOf: Dating, limit: int, days: set<int>) {
    var w := MinimumWalk(names, dayOf, limit, days);
    && |w| <= |Dated(names, dayOf)|
    && w == Dated(names, dayOf)[..|w|]
    && LongestPrefix(Dated(names, dayOf), dayOf, limit, days, |w|)
  }

  lemma WalkSkip(names: seq<string>, dayOf: Dating, limit: int, days: set<int>)
    requires |names| > 0 && dayOf(names[0]).None?
    requires WalkIsPrefix(names[1..], dayOf, limit, days)
    ensures WalkIsPrefix(names, dayOf, limit, days)
  {
    assert Dated(names, dayOf) == Dated(names[1..], dayOf);
  }

  lemma WalkStop(names: seq<string>, dayOf: Dating, limit: int, days: set<int>)
    requires |names| > 0 && dayOf(names[0]).Some?
    requires |days| <= limit < |days + {dayOf(names[0]).value}|
    ensures WalkIsPrefix(names, dayOf, limit, days)
  {
    var x := names[0];
    var p := Dated(names, dayOf);
    assert p == [x] + Dated(names[1..], dayOf);
    assert MinimumWalk(names, dayOf, limit, days) == [];
    assert p[..1] == [x];
    DaysOfCons(x, [], dayOf);
    assert DaysOf([], dayOf) == {};
    assert p[..0] == [];
  }

  lemma WalkTake(names: seq<string>, dayOf: Dating, limit: int, days: set<int>)
    requires |names| > 0 && dayOf(names[0]).Some?
    requires |days + {dayOf(names[0]).value}| <= limit
    requires WalkIsPrefix(names[1..], dayOf, limit, days + {dayOf(names[0]).value})
    ensures WalkIsPrefix(names, dayOf, limit, days)
  {
    var x := names[0];
    var days' := days + {dayOf(x).value};
    var p' := Dated(names[1..], dayOf);
    var w' := MinimumWalk(names[1..], dayOf, limit, days');
    assert Dated(names, dayOf) == [x] + p';
    assert MinimumWalk(names, dayOf, limit, days) == [x] + w';
    PrefixExtend(x, p', w', dayOf, limit, days);
  }

  /** Putting a dated name in front of a longest prefix and of the list it
      is taken from gives a longest prefix again, one longer. */
  lemma PrefixExtend(x: string, p': seq<string>, w': seq<string>, dayOf: Dating, limit: int, days: set<int>)
    requires dayOf(x).Some?
    requires |days + {dayOf(x).value}| <= limit
    requires |w'| <= |p'| && w' == p'[..|w'|]
    requires LongestPrefix(p', dayOf, limit, days + {dayOf(x).value}, |w'|)
    ensures |[x] + w'| <= |[x] + p'| && [x] + w' == ([x] + p')[..|[x] + w'|]
    ensures LongestPrefix([x] + p', dayOf, limit, days, |[x] + w'|)
  {
    var days' := days + {dayOf(x).value};
    var p := [x] + p';
    var k := |w'|;
    PrefixCons(x, p', k);
    DaysOfCons(x, w', dayOf);
    assert days + DaysOf(p[..k + 1], dayOf) == days' + DaysOf(p'[..k], dayOf);
    if k < |p'| {
      PrefixCons(x, p', k + 1);
      DaysOfCons(x, p'[..k + 1], dayOf);
      assert days + DaysOf(p[..k + 2], dayOf) == days' + DaysOf(p'[..k + 1], dayOf);
    }
  }

  lemma WalkCoverage(names: seq<string>, dayOf: Dating, limit: int)
    requires limit >= 0
    ensures var kept := |DaysOf(MinimumWalk(names, dayOf, limit, {}), dayOf)|;
      var all := |DaysOf(names, dayOf)|;
      kept == if all < limit then all else limit
  {
    WalkShape(names, dayOf, limit, {});
    var p := Dated(names, dayOf);
    var w := MinimumWalk(names, dayOf, limit, {});
    assert DaysOf(p, dayOf) == DaysOf(names, dayOf);
    PrefixCount(p, dayOf, limit, |w|);
  }

  /** A longest prefix of dated names, starting from no dates, spans
      `limit` dates, or all of them when there are fewer. */
  lemma PrefixCount(p: seq<string>, dayOf: Dating, limit: int, k: int)
    requires limit >= 0 && forall t :: t in p ==> dayOf(t).Some?
    requires LongestPrefix(p, dayOf, limit, {}, k)
    ensures var all := |DaysOf(p, dayOf)|;
      |DaysOf(p[..k], dayOf)| == if all < limit then all else limit
  {
    assert {} + DaysOf(p[..k], dayOf) == DaysOf(p[..k], dayOf);
    if k == |p| {
      assert p[..k] == p;
    } else {
      assert p[..k + 1] == p[..k] + [p[k]];
      DaysOfSnoc(p[..k], p[k], dayOf);
      assert {} + DaysOf(p[..k + 1], dayOf) == DaysOf(p[..k + 1], dayOf);
      assert DaysOf(p[..k + 1], dayOf) <= DaysOf(p, dayOf) by {
        forall s | s in p[..k + 1] ensures s in p { }
      }
      SubsetCard(DaysOf(p[..k + 1], dayOf), DaysOf(p, dayOf));
    }
  }

  // ---------------------------------------------------------------------
  // NotDeletable, for any dating of tags; GetNotDeletableTags is the
  // instance dating tags with GetReleaseTag.
  // ---------------------------------------------------------------------

  /** The arch-stripped names of the dated tags inside the window. */
  ghost function WindowNames(tags: seq<string>, dayOf: Dating, notDeleteDays: real, archs: seq<string>): set<string> {
    set t | t in tags && dayOf(t).Some? && InWindow(notDeleteDays, LatestDay(tags, dayOf), dayOf(t).value)
      :: GetTagWithoutArch(t, archs)
  }

  /** The window keeps fewer than `minNotDeleteTags` distinct names, so the
      minimum-keep walk decides. */
  ghost predicate FallbackFires(tags: seq<string>, dayOf: Dating, notDeleteDays: real, minNotDeleteTags: int, archs: seq<string>) {
    |WindowNames(tags, dayOf, notDeleteDays, archs)| < minNotDeleteTags
  }

  /** The stripped names the walk visits, keeping those that carry a date:
      in order of first appearance among the reverse-sorted dated tags. */
  function WalkOrder(tags: seq<string>, dayOf: Dating, archs: seq<string>): seq<string> {
    Dated(GetTagsWithoutArch(AllTagDate(tags, dayOf), archs), dayOf)
  }

  /** The distinct dates carried by the stripped names of `kept`. */
  ghost function StrippedDays(kept: seq<string>, dayOf: Dating, archs: seq<string>): set<int> {
    set t | t in kept && dayOf(GetTagWithoutArch(t, archs)).Some? :: dayOf(GetTagWithoutArch(t, archs)).value
  }

  /** The fallback test of the source counts exactly `WindowNames`. */
  lemma WindowCount(tags: seq<string>, dayOf: Dating, notDeleteDays: real, archs: seq<string>)
    ensures |GetTagsWithoutArch(WindowKeep(AllTagDate(tags, dayOf), dayOf, notDeleteDays, LatestDay(tags, dayOf)), archs)|
      == |WindowNames(tags, dayOf, notDeleteDays, archs)|
  {
    var window := WindowKeep(AllTagDate(tags, dayOf), dayOf, notDeleteDays, LatestDay(tags, dayOf));
    var names := GetTagsWithoutArch(window, archs);
    WindowNamesMembers(tags, dayOf, notDeleteDays, archs, window, names);
    NoDupCount(names, WindowNames(tags, dayOf, notDeleteDays, archs));
  }

  /** A duplicate-free sequence is as long as the set of its members. */
  lemma NoDupCount(names: seq<string>, members: set<string>)
    requires NoDup(names)
    requires forall x :: x in names <==> x in members
    ensures |names| == |members|
  {
    NoDupCardinality(names);
    assert (set x | x in names) == members;
  }

  lemma WindowNamesMembers(tags: seq<string>, dayOf: Dating, notDeleteDays: real, archs: seq<string>, window: seq<string>, names: seq<string>)
    requires window == WindowKeep(AllTagDate(tags, dayOf), dayOf, notDeleteDays, LatestDay(tags, dayOf))
    requires names == GetTagsWithoutArch(window, archs)
    ensures forall x :: x in names <==> x in WindowNames(tags, dayOf, notDeleteDays, archs)
  {
    var m := LatestDay(tags, dayOf);
    forall x | x in names ensures x in WindowNames(tags, dayOf, notDeleteDays, archs) {
      var t :| t in window && GetTagWithoutArch(t, archs) == x;
      assert t in tags && dayOf(t).Some? && InWindow(notDeleteDays, m, dayOf(t).value);
    }
    forall x | x in WindowNames(tags, dayOf, notDeleteDays, archs) ensures x in names {
      var t :| t in tags && dayOf(t).Some? && InWindow(notDeleteDays, m, dayOf(t).value)
        && GetTagWithoutArch(t, archs) == x;
      assert t in window;
    }
  }

  /** Without the fallback, the kept tags are exactly the dated tags inside
      the window. */
  lemma KeepWithoutFallback(tags: seq<string>, dayOf: Dating, notDeleteDays: real, minNotDeleteTags: int, archs: seq<string>)
    requires !FallbackFires(tags, dayOf, notDeleteDays, minNotDeleteTags, archs)
    ensures forall t :: t in NotDeletable(tags, dayOf, notDeleteDays, minNotDeleteTags, archs) <==>
      && t in tags
      && dayOf(t).Some?
      && InWindow(notDeleteDays, LatestDay(tags, dayOf), dayOf(t).value)
  {
    WindowCount(tags, dayOf, notDeleteDays, archs);
  }

  /** Without the fallback and with a positive window, every tag carrying
      the latest date is kept. */
  lemma LatestKept(tags: seq<string>, dayOf: Dating, notDeleteDays: real, minNotDeleteTags: int, archs: seq<string>)
    requires !FallbackFires(tags, dayOf, notDeleteDays, minNotDeleteTags, archs) && notDeleteDays > 0.0
    ensures forall t :: t in tags && dayOf(t) == Some(LatestDay(tags, dayOf)) ==>
      t in NotDeletable(tags, dayOf, notDeleteDays, minNotDeleteTags, archs)
  {
    KeepWithoutFallback(tags, dayOf, notDeleteDays, minNotDeleteTags, archs);
    var m := LatestDay(tags, dayOf);
    assert Sub(DayStart(m), DayStart(m)) == 0;
  }

  /** Without the fallback, the decision for a dated tag depends only on
      its date: tags of the same date are kept or dropped together. */
  lemma WindowByDate(tags: seq<string>, dayOf: Dating, notDeleteDays: real, minNotDeleteTags: int, archs: seq<string>, t: string, u: string)
    requires !FallbackFires(tags, dayOf, notDeleteDays, minNotDeleteTags, archs)
    requires t in tags && u in tags && dayOf(t).Some? && dayOf(t) == dayOf(u)
    ensures t in NotDeletable(tags, dayOf, notDeleteDays, minNotDeleteTags, archs)
        <==> u in NotDeletable(tags, dayOf, notDeleteDays, minNotDeleteTags, archs)
  {
    KeepWithoutFallback(tags, dayOf, notDeleteDays, minNotDeleteTags, archs);
  }

  /** The window, in days: for windows of at most 106751 days (what a
      `time.Duration` can hold), a tag `d` days older than the latest one is
      inside exactly when `d < notDeleteDays`. */
  lemma WindowInDays(notDeleteDays: real, maxDay: int, tagDay: int)
    requires 0 <= maxDay - tagDay
    requires notDeleteDays <= MaxDurationDays as real
    ensures InWindow(notDeleteDays, maxDay, tagDay) <==> ((maxDay - tagDay) as real) < notDeleteDays
  {
    if maxDay - tagDay <= MaxDurationDays {
      SubDays(maxDay, tagDay);
    } else {
      SubDaysSaturated(maxDay, tagDay);
    }
  }

  /** With the fallback, the kept tags are the dated tags whose stripped
      name lies in the longest prefix of `WalkOrder` spanning at most
      `minNotDeleteTags` distinct dates. */
  lemma KeepWithFallback(tags: seq<string>, dayOf: Dating, notDeleteDays: real, minNotDeleteTags: int, archs: seq<string>)
    requires FallbackFires(tags, dayOf, notDeleteDays, minNotDeleteTags, archs)
    ensures exists k ::
      && LongestPrefix(WalkOrder(tags, dayOf, archs), dayOf, minNotDeleteTags, {}, k)
      && forall t :: t in NotDeletable(tags, dayOf, notDeleteDays, minNotDeleteTags, archs) <==>
        && t in tags
        && dayOf(t).Some?
        && GetTagWithoutArch(t, archs) in WalkOrder(tags, dayOf, archs)[..k]
  {
    WindowCount(tags, dayOf, notDeleteDays, archs);
    var names := GetTagsWithoutArch(AllTagDate(tags, dayOf), archs);
    WalkShape(names, dayOf, minNotDeleteTags, {});
    var k := |MinimumWalk(names, dayOf, minNotDeleteTags, {})|;
    assert LongestPrefix(WalkOrder(tags, dayOf, archs), dayOf, minNotDeleteTags, {}, k);
  }

  /** With the fallback, every arch variant of a kept tag is kept. */
  lemma FallbackKeepsVariants(tags: seq<string>, dayOf: Dating, notDeleteDays: real, minNotDeleteTags: int, archs: seq<string>, t: string, u: string)
    requires FallbackFires(tags, dayOf, notDeleteDays, minNotDeleteTags, archs)
    requires t in tags && dayOf(t).Some?
    requires u in NotDeletable(tags, dayOf, notDeleteDays, minNotDeleteTags, archs)
    requires GetTagWithoutArch(t, archs) == GetTagWithoutArch(u, archs)
    ensures t in NotDeletable(tags, dayOf, notDeleteDays, minNotDeleteTags, archs)
  {
    WindowCount(tags, dayOf, notDeleteDays, archs);
  }

  /** With the fallback, the stripped names of the kept tags carry
      `min(minNotDeleteTags, n)` distinct dates, `n` being the number of
      distinct dates the stripped names of all dated tags carry. */
  lemma FallbackCoverage(tags: seq<string>, dayOf: Dating, notDeleteDays: real, minNotDeleteTags: int, archs: seq<string>)
    requires FallbackFires(tags, dayOf, notDeleteDays, minNotDeleteTags, archs)
    ensures var kept := |StrippedDays(NotDeletable(tags, dayOf, notDeleteDays, minNotDeleteTags, archs), dayOf, archs)|;
      var all := |StrippedDays(Dated(tags, dayOf), dayOf, archs)|;
      kept == if all < minNotDeleteTags then all else minNotDeleteTags
  {
    WindowCount(tags, dayOf, notDeleteDays, archs);
    var allTagDate := AllTagDate(tags, dayOf);
    var names := GetTagsWithoutArch(allTagDate, archs);
    var walk := MinimumWalk(names, dayOf, minNotDeleteTags, {});
    var r := NotDeletable(tags, dayOf, notDeleteDays, minNotDeleteTags, archs);
    assert r == FallbackKeep(allTagDate, walk, archs);
    WalkCoverage(names, dayOf, minNotDeleteTags);
    StrippedDaysOfNames(Dated(tags, dayOf), dayOf, archs, allTagDate, names);
    StrippedDaysOfWalk(dayOf, archs, allTagDate, names, walk, r);
  }

  lemma StrippedDaysOfNames(dated: seq<string>, dayOf: Dating, archs: seq<string>, allTagDate: seq<string>, names: seq<string>)
    requires forall t :: t in dated <==> t in allTagDate
    requires names == GetTagsWithoutArch(allTagDate, archs)
    ensures StrippedDays(dated, dayOf, archs) == DaysOf(names, dayOf)
  {
    forall d | d in DaysOf(names, dayOf) ensures d in StrippedDays(dated, dayOf, archs) {
      var s :| s in names && dayOf(s).Some? && dayOf(s).value == d;
      var t :| t in allTagDate && GetTagWithoutArch(t, archs) == s;
      assert t in dated;
    }
    forall d | d in StrippedDays(dated, dayOf, archs) ensures d in DaysOf(names, dayOf) {
      var t :| t in dated && dayOf(GetTagWithoutArch(t, archs)).Some?
        && dayOf(GetTagWithoutArch(t, archs)).value == d;
      assert GetTagWithoutArch(t, archs) in names;
    }
  }

  lemma StrippedDaysOfWalk(dayOf: Dating, archs: seq<string>, allTagDate: seq<string>, names: seq<string>, walk: seq<string>, r: seq<string>)
    requires names == GetTagsWithoutArch(allTagDate, archs)
    requires forall s :: s in walk ==> s in names && dayOf(s).Some?
    requires r == FallbackKeep(allTagDate, walk, archs)
    ensures StrippedDays(r, dayOf, archs) == DaysOf(walk, dayOf)
  {
    forall d | d in DaysOf(walk, dayOf) ensures d in StrippedDays(r, dayOf, archs) {
      var s :| s in walk && dayOf(s).Some? && dayOf(s).value == d;
      var t :| t in allTagDate && GetTagWithoutArch(t, archs) == s;
      assert t in r;
    }
    forall d | d in StrippedDays(r, dayOf, archs) ensures d in DaysOf(walk, dayOf) {
      var t :| t in r && dayOf(GetTagWithoutArch(t, archs)).Some?
        && dayOf(GetTagWithoutArch(t, archs)).value == d;
      assert GetTagWithoutArch(t, archs) in walk;
    }
  }

  // ---------------------------------------------------------------------
  // Independence from the map's iteration order.
  // ---------------------------------------------------------------------

  /** The count of `x` among the dated tags of `s`. */
  lemma {:induction false} DatedCount(s: seq<string>, dayOf: Dating, x: string)
    ensures multiset(Dated(s, dayOf))[x] == if dayOf(x).Some? then multiset(s)[x] else 0
  {
    if |s| > 0 {
      DatedCount(s[1..], dayOf, x);
      assert s == [s[0]] + s[1..];
    }
  }

  /** The latest date is determined by which tags are present. */
  lemma LatestDayUnique(tags1: seq<string>, tags2: seq<string>, dayOf: Dating)
    requires forall t :: t in tags1 <==> t in tags2
    ensures LatestDay(tags1, dayOf) == LatestDay(tags2, dayOf)
  {
  }

  /** The kept tags depend only on the multiset of tags, not on the order a
      Go map iterates them. */
  lemma OrderIndependent(tags1: seq<string>, tags2: seq<string>, dayOf: Dating, notDeleteDays: real, minNotDeleteTags: int, archs: seq<string>)
    requires multiset(tags1) == multiset(tags2)
    ensures NotDeletable(tags1, dayOf, notDeleteDays, minNotDeleteTags, archs)
         == NotDeletable(tags2, dayOf, notDeleteDays, minNotDeleteTags, archs)
  {
    forall t ensures t in tags1 <==> t in tags2 {
      assert t in tags1 <==> t in multiset(tags1);
      assert t in tags2 <==> t in multiset(tags2);
    }
    LatestDayUnique(tags1, tags2, dayOf);
    forall x ensures multiset(Dated(tags1, dayOf))[x] == multiset(Dated(tags2, dayOf))[x] {
      DatedCount(tags1, dayOf, x);
      DatedCount(tags2, dayOf, x);
    }
    assert multiset(Dated(tags1, dayOf)) == multiset(Dated(tags2, dayOf));
    ReverseOrderIsTotal();
    Sorting.SortedUnique(AllTagDate(tags1, dayOf), AllTagDate(tags2, dayOf), ReverseOrder);
  }
}
