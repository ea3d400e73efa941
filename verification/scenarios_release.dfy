/** The release-tag scenario `TestGetNotDeletableReleaseTagsFrequent` of
    pkg/api/api_test.go, and the names its tag list rejects, under the
    default release pattern `^release-(\d{8}).*$`, a 10-day window, a
    minimum of 3 and the default architectures. The test reads the wall
    clock; here `now` is any instant from the start of the newest date of
    the test up to the fake date 9999-01-01.

    The scenario is proved in two steps: a shape lemma about `NotDeletable`
    for any dating of tags with the scenario's relative dates, and the
    instance where the dating is `GetReleaseTag`'s. */
module ScenariosRelease {
  import opened Wrappers
  import opened Strings
  import opened Clock
  import opened Api
  import opened Patterns
  import opened Retention
  import ApiFacts

  /** `a` and `b` hold the same tags, in any order and multiplicity: the
      tests compare results after sorting both sides. */
  ghost predicate SameMembers(a: seq<string>, b: seq<string>) {
    forall t :: t in a <==> t in b
  }

  /** The clocks under which the tests hold. */
  predicate TestClock(now: int) {
    DayStart(DayNumber(Date(2022, 3, 20))) <= now < DayStart(DayNumber(Date(9999, 1, 1)))
  }

  const ReleaseInput: RetentionInput := RetentionInput(ReleaseTagPattern, 10.0, 3)

  /** The tag "release-" + the date's "20060102" rendering + `rest`. */
  function Release(d: Date, rest: string): (t: string)
    requires ValidDate(d)
    ensures |t| == 16 + |rest|
  {
    "release-" + FormatDate(d) + rest
  }

  /** A release tag whose date is not after `now` is dated with that
      date. */
  lemma ReleaseDated(now: int, d: Date, rest: string)
    requires ValidDate(d) && '\n' !in rest && DayStart(DayNumber(d)) <= now
    ensures DayOf(ReleaseTagPattern, now)(Release(d, rest)) == Some(DayNumber(d))
  {
    ReleaseCapture(d, rest);
    ParseFormatDate(d);
  }

  /** A release tag whose date is after `now` is refused as a future
      tag. */
  lemma ReleaseFuture(now: int, d: Date, rest: string)
    requires ValidDate(d) && '\n' !in rest && DayStart(DayNumber(d)) > now
    ensures GetReleaseTag(ReleaseTagPattern, now, Release(d, rest)) == Failure(DateInFuture)
  {
    ReleaseCapture(d, rest);
    ParseFormatDate(d);
  }

  /** The release pattern captures the rendered date. */
  lemma ReleaseCapture(d: Date, rest: string)
    requires ValidDate(d) && '\n' !in rest
    ensures ReleaseTagPattern(Release(d, rest)) == Some(FormatDate(d))
  {
    var t := Release(d, rest);
    assert t[..8] == "release-" && t[8..16] == FormatDate(d) && t[16..] == rest;
  }

  /** Two release tags are equal only when their dates and rests are. */
  lemma ReleaseInjective(d1: Date, rest1: string, d2: Date, rest2: string)
    requires ValidDate(d1) && ValidDate(d2)
    requires Release(d1, rest1) == Release(d2, rest2)
    ensures d1 == d2 && rest1 == rest2
  {
    var t := Release(d1, rest1);
    assert t[8..16] == FormatDate(d1) && t[16..] == rest1;
    assert Release(d2, rest2)[8..16] == FormatDate(d2) && Release(d2, rest2)[16..] == rest2;
    ParseFormatDate(d1);
    ParseFormatDate(d2);
  }

  /** A name whose sixth character from the end is not '-' carries no
      default arch suffix. */
  lemma NoArchSuffix(t: string)
    requires |t| >= 6 && t[|t| - 6] != '-'
    ensures GetTagWithoutArch(t, DefaultArchs) == t
  {
    ApiFacts.StripDefault(t);
    assert t[|t| - 6..][0] == t[|t| - 6];
    assert TrimSuffix(t, "-amd64") == t;
  }

  /** A release tag whose rest is empty, or whose sixth character from
      the end is not '-', carries no default arch suffix. */
  lemma ReleaseNoArch(d: Date, rest: string)
    requires ValidDate(d)
    requires |rest| == 0 || (|rest| >= 6 && rest[|rest| - 6] != '-')
    ensures GetTagWithoutArch(Release(d, rest), DefaultArchs) == Release(d, rest)
  {
    var t := Release(d, rest);
    if |rest| == 0 {
      assert t[|t| - 6] == FormatDate(d)[2];
    } else {
      assert t[|t| - 6] == rest[|rest| - 6];
    }
    NoArchSuffix(t);
  }

  /** `release-20220199`: day 99 does not exist. */
  lemma RejectedImpossibleDay(now: int)
    ensures GetReleaseTag(ReleaseTagPattern, now, "release-20220199") == Failure(DateUnparsable)
  {
    var t := "release-20220199";
    assert t[..8] == "release-" && t[8..16] == "20220199";
    assert "20220199"[6..8] == "99";
    assert "99"[..1] == "9";
    assert DecimalValue("99") == 99;
  }

  /** A name whose first character is not 'r' does not match the release
      pattern. */
  lemma NotReleaseName(now: int, t: string)
    requires |t| > 0 && t[0] != 'r'
    ensures GetReleaseTag(ReleaseTagPattern, now, t) == Failure(TagNotMatched)
  {
    if |t| >= 8 {
      assert t[..8][0] == t[0];
    }
  }

  /** Names that do not start with "release-". */
  lemma RejectedNames(now: int)
    ensures GetReleaseTag(ReleaseTagPattern, now, "test-branch") == Failure(TagNotMatched)
    ensures GetReleaseTag(ReleaseTagPattern, now, "test-20220318-branch") == Failure(TagNotMatched)
  {
    NotReleaseName(now, "test-branch");
    NotReleaseName(now, "test-20220318-branch");
  }

  // ---------------------------------------------------------------------
  // TestGetNotDeletableReleaseTagsFrequent.
  // ---------------------------------------------------------------------

  /** The thirteen tags of the test, in the order they are listed. */
  function FrequentTag(i: nat): string
    requires i < 13
  {
    if i == 0 then Release(Date(2022, 3, 20), "")
    else if i == 1 then Release(Date(2022, 3, 19), "")
    else if i == 2 then Release(Date(2022, 3, 19), "-patch1")
    else if i == 3 then Release(Date(2022, 3, 19), "-patch2")
    else if i == 4 then Release(Date(2022, 3, 18), "-test")
    else if i == 5 then Release(Date(2022, 3, 11), "")
    else if i == 6 then Release(Date(2022, 3, 10), "")
    else if i == 7 then Release(Date(2022, 3, 1), "")
    else if i == 8 then Release(Date(2022, 2, 28), "")
    else if i == 9 then "release-20220199"
    else if i == 10 then Release(Date(9999, 1, 1), "")
    else if i == 11 then "test-branch"
    else "test-20220318-branch"
  }

  const FrequentTags: seq<string> := seq(13, i requires 0 <= i < 13 => FrequentTag(i))

  /** The tags the test expects to keep: the first six. */
  const FrequentKept: seq<string> := seq(6, i requires 0 <= i < 6 => FrequentTag(i))

  /** The `i`-th tag is dated `day` (`None`: carries no date). */
  ghost predicate DatedAs(tags: seq<string>, dayOf: Dating, i: nat, day: Option<int>) {
    i < |tags| && dayOf(tags[i]) == day
  }

  /** Two tags dated `a` and `b`. */
  ghost predicate DatedPair(tags: seq<string>, dayOf: Dating, i: nat, a: Option<int>, j: nat, b: Option<int>) {
    DatedAs(tags, dayOf, i, a) && DatedAs(tags, dayOf, j, b)
  }

  /** The four newest tags: `top` and three a day older. */
  ghost predicate FrequentDatingNew(tags: seq<string>, dayOf: Dating, top: int) {
    && DatedPair(tags, dayOf, 0, Some(top), 1, Some(top - 1))
    && DatedPair(tags, dayOf, 2, Some(top - 1), 3, Some(top - 1))
  }

  /** The next four: two, nine, ten and nineteen days older than `top`. */
  ghost predicate FrequentDatingOld(tags: seq<string>, dayOf: Dating, top: int) {
    && DatedPair(tags, dayOf, 4, Some(top - 2), 5, Some(top - 9))
    && DatedPair(tags, dayOf, 6, Some(top - 10), 7, Some(top - 19))
  }

  /** The ninth tag is twenty days older than `top`; the last four carry
      no date. */
  ghost predicate FrequentDatingRest(tags: seq<string>, dayOf: Dating, top: int) {
    && DatedAs(tags, dayOf, 8, Some(top - 20))
    && DatedAs(tags, dayOf, 9, None) && DatedAs(tags, dayOf, 10, None)
    && DatedAs(tags, dayOf, 11, None) && DatedAs(tags, dayOf, 12, None)
  }

  /** The relative dates of the test, for any dating: `top` is the newest
      date. */
  ghost predicate FrequentDating(tags: seq<string>, dayOf: Dating, top: int) {
    && |tags| == 13 && top >= DayNumber(ZeroTime)
    && FrequentDatingNew(tags, dayOf, top)
    && FrequentDatingOld(tags, dayOf, top)
    && FrequentDatingRest(tags, dayOf, top)
  }

  /** The three tags of the second newest date are distinct; every other
      pair of the test's tags is told apart by its date. */
  ghost predicate FrequentSameDayDistinct(tags: seq<string>) {
    |tags| >= 4 && tags[1] != tags[2] && tags[1] != tags[3] && tags[2] != tags[3]
  }

  /** Three distinct newest tags that carry no arch suffix. */
  ghost predicate FrequentNamed(tags: seq<string>, archs: seq<string>) {
    && |tags| >= 3
    && (forall i :: 0 <= i < 3 ==> GetTagWithoutArch(tags[i], archs) == tags[i])
    && tags[0] != tags[1] && tags[0] != tags[2] && tags[1] != tags[2]
  }

  lemma FrequentLatest(tags: seq<string>, dayOf: Dating, top: int)
    requires FrequentDating(tags, dayOf, top)
    ensures LatestDay(tags, dayOf) == top
  {
    assert tags[0] in tags;
    forall t | t in tags && dayOf(t).Some? ensures dayOf(t).value <= top {
      var i :| 0 <= i < |tags| && tags[i] == t;
    }
  }

  /** A dated tag lies in the window of `top` exactly when it is one of the
      first six. */
  lemma FrequentWindow(tags: seq<string>, dayOf: Dating, top: int, t: string)
    requires FrequentDating(tags, dayOf, top)
    requires t in tags && dayOf(t).Some?
    ensures InWindow(10.0, top, dayOf(t).value) <==> t in tags[..6]
  {
    var i :| 0 <= i < |tags| && tags[i] == t;
    WindowInDays(10.0, top, dayOf(t).value);
    if t in tags[..6] {
      var j :| 0 <= j < 6 && tags[j] == t;
    }
  }

  /** With three distinct suffix-free names among the newest tags, the
      window keeps the six tags less than ten days older than the newest
      and the fallback does not fire. */
  lemma {:induction false} FrequentShape(tags: seq<string>, dayOf: Dating, archs: seq<string>, top: int)
    requires FrequentDating(tags, dayOf, top) && FrequentNamed(tags, archs) && FrequentSameDayDistinct(tags)
    ensures SameMembers(NotDeletable(tags, dayOf, 10.0, 3, archs), tags[..6])
    ensures multiset(NotDeletable(tags, dayOf, 10.0, 3, archs)) == multiset(tags[..6])
  {
    FrequentLatest(tags, dayOf, top);
    var names := {tags[0], tags[1], tags[2]};
    forall x | x in names ensures x in WindowNames(tags, dayOf, 10.0, archs) {
      var i :| 0 <= i < 3 && tags[i] == x;
      assert tags[i] in tags && tags[i] in tags[..6];
      FrequentWindow(tags, dayOf, top, x);
    }
    assert |names| == 3;
    SubsetCard(names, WindowNames(tags, dayOf, 10.0, archs));
    KeepWithoutFallback(tags, dayOf, 10.0, 3, archs);
    FrequentKeep(tags, dayOf, top, NotDeletable(tags, dayOf, 10.0, 3, archs));
    FrequentMultiset(tags, dayOf, top, NotDeletable(tags, dayOf, 10.0, 3, archs));
  }

  /** Each of the six newest tags occurs once among the test's tags. */
  lemma FrequentOnce(tags: seq<string>, dayOf: Dating, top: int, k: int)
    requires FrequentDating(tags, dayOf, top) && FrequentSameDayDistinct(tags)
    requires 0 <= k < 6
    ensures forall j :: 0 <= j < |tags| && j != k ==> tags[j] != tags[k]
  {
  }

  /** A list with the members of the six newest tags that repeats no tag
      more often than the test lists it holds each of them exactly once. */
  lemma FrequentMultiset(tags: seq<string>, dayOf: Dating, top: int, kept: seq<string>)
    requires FrequentDating(tags, dayOf, top) && FrequentSameDayDistinct(tags)
    requires SameMembers(kept, tags[..6]) && multiset(kept) <= multiset(tags)
    ensures multiset(kept) == multiset(tags[..6])
  {
    forall x ensures multiset(kept)[x] == multiset(tags[..6])[x] {
      if x in tags[..6] {
        var k :| 0 <= k < 6 && tags[..6][k] == x;
        FrequentOnce(tags, dayOf, top, k);
        OnceInMultiset(tags, k);
        OnceInMultiset(tags[..6], k);
        assert x in kept;
      } else {
        assert x !in kept;
      }
    }
  }

  /** The tags kept by the window of `top` are the first six. */
  lemma FrequentKeep(tags: seq<string>, dayOf: Dating, top: int, kept: seq<string>)
    requires FrequentDating(tags, dayOf, top)
    requires forall t :: t in kept <==> t in tags && dayOf(t).Some? && InWindow(10.0, top, dayOf(t).value)
    ensures forall t :: t in kept <==> t in tags[..6]
  {
    forall t ensures t in kept <==> t in tags[..6] {
      if t in tags && dayOf(t).Some? {
        FrequentWindow(tags, dayOf, top, t);
      }
      if t in tags[..6] {
        var i :| 0 <= i < 6 && tags[i] == t;
        assert t in tags;
      }
    }
  }

  /** The rests the test's tags carry have no line break. */
  lemma FrequentRests()
    ensures '\n' !in "" && '\n' !in "-patch1" && '\n' !in "-patch2" && '\n' !in "-test"
  {
  }

  /** The `i`-th tag of the test is the release tag of `d`, not after
      the newest date of the test, so it carries `d`. */
  lemma FrequentTagDated(now: int, t: string, d: Date, rest: string, top: int)
    requires TestClock(now) && top == DayNumber(Date(2022, 3, 20))
    requires ValidDate(d) && '\n' !in rest && DayNumber(d) <= top
    requires t == Release(d, rest)
    ensures DayOf(ReleaseTagPattern, now)(t) == Some(DayNumber(d))
  {
    ReleaseDated(now, d, rest);
  }

  lemma FrequentTag0(now: int, t: string, dayOf: Dating, top: int)
    requires TestClock(now) && t == FrequentTag(0)
    requires dayOf == DayOf(ReleaseTagPattern, now) && top == DayNumber(Date(2022, 3, 20))
    ensures dayOf(t) == Some(top)
  {
    FrequentRests();
    FrequentTagDated(now, t, Date(2022, 3, 20), "", top);
  }

  lemma FrequentTag1(now: int, t: string, dayOf: Dating, top: int)
    requires TestClock(now) && t == FrequentTag(1)
    requires dayOf == DayOf(ReleaseTagPattern, now) && top == DayNumber(Date(2022, 3, 20))
    ensures dayOf(t) == Some(top - 1)
  {
    FrequentRests();
    FrequentTagDated(now, t, Date(2022, 3, 19), "", top);
  }

  lemma FrequentTag2(now: int, t: string, dayOf: Dating, top: int)
    requires TestClock(now) && t == FrequentTag(2)
    requires dayOf == DayOf(ReleaseTagPattern, now) && top == DayNumber(Date(2022, 3, 20))
    ensures dayOf(t) == Some(top - 1)
  {
    FrequentRests();
    FrequentTagDated(now, t, Date(2022, 3, 19), "-patch1", top);
  }

  lemma FrequentTag3(now: int, t: string, dayOf: Dating, top: int)
    requires TestClock(now) && t == FrequentTag(3)
    requires dayOf == DayOf(ReleaseTagPattern, now) && top == DayNumber(Date(2022, 3, 20))
    ensures dayOf(t) == Some(top - 1)
  {
    FrequentRests();
    FrequentTagDated(now, t, Date(2022, 3, 19), "-patch2", top);
  }

  lemma FrequentTag4(now: int, t: string, dayOf: Dating, top: int)
    requires TestClock(now) && t == FrequentTag(4)
    requires dayOf == DayOf(ReleaseTagPattern, now) && top == DayNumber(Date(2022, 3, 20))
    ensures dayOf(t) == Some(top - 2)
  {
    FrequentRests();
    FrequentTagDated(now, t, Date(2022, 3, 18), "-test", top);
  }

  lemma FrequentTag5(now: int, t: string, dayOf: Dating, top: int)
    requires TestClock(now) && t == FrequentTag(5)
    requires dayOf == DayOf(ReleaseTagPattern, now) && top == DayNumber(Date(2022, 3, 20))
    ensures dayOf(t) == Some(top - 9)
  {
    FrequentRests();
    FrequentTagDated(now, t, Date(2022, 3, 11), "", top);
  }

  lemma FrequentTag6(now: int, t: string, dayOf: Dating, top: int)
    requires TestClock(now) && t == FrequentTag(6)
    requires dayOf == DayOf(ReleaseTagPattern, now) && top == DayNumber(Date(2022, 3, 20))
    ensures dayOf(t) == Some(top - 10)
  {
    FrequentRests();
    FrequentTagDated(now, t, Date(2022, 3, 10), "", top);
  }

  lemma FrequentTag7(now: int, t: string, dayOf: Dating, top: int)
    requires TestClock(now) && t == FrequentTag(7)
    requires dayOf == DayOf(ReleaseTagPattern, now) && top == DayNumber(Date(2022, 3, 20))
    ensures dayOf(t) == Some(top - 19)
  {
    FrequentRests();
    FrequentTagDated(now, t, Date(2022, 3, 1), "", top);
  }

  lemma FrequentTag8(now: int, t: string, dayOf: Dating, top: int)
    requires TestClock(now) && t == FrequentTag(8)
    requires dayOf == DayOf(ReleaseTagPattern, now) && top == DayNumber(Date(2022, 3, 20))
    ensures dayOf(t) == Some(top - 20)
  {
    FrequentRests();
    FrequentTagDated(now, t, Date(2022, 2, 28), "", top);
  }

  /** The fake dates and the other names carry no date. */
  lemma FrequentUndated(now: int, tags: seq<string>, dayOf: Dating, top: int)
    requires TestClock(now) && tags == FrequentTags
    requires dayOf == DayOf(ReleaseTagPattern, now) && top == DayNumber(Date(2022, 3, 20))
    ensures
      && DatedAs(tags, dayOf, 9, None)
      && DatedAs(tags, dayOf, 10, None)
      && DatedAs(tags, dayOf, 11, None)
      && DatedAs(tags, dayOf, 12, None)
  {
    assert tags[9] == "release-20220199" && tags[10] == Release(Date(9999, 1, 1), "");
    assert tags[11] == "test-branch" && tags[12] == "test-20220318-branch";
    ReleaseFuture(now, Date(9999, 1, 1), "");
    RejectedImpossibleDay(now);
    RejectedNames(now);
  }

  lemma FrequentPair01(now: int, tags: seq<string>, dayOf: Dating, top: int)
    requires TestClock(now) && tags == FrequentTags
    requires dayOf == DayOf(ReleaseTagPattern, now) && top == DayNumber(Date(2022, 3, 20))
    ensures DatedPair(tags, dayOf, 0, Some(top), 1, Some(top - 1))
  {
    FrequentTag0(now, tags[0], dayOf, top);
    FrequentTag1(now, tags[1], dayOf, top);
  }

  lemma FrequentPair23(now: int, tags: seq<string>, dayOf: Dating, top: int)
    requires TestClock(now) && tags == FrequentTags
    requires dayOf == DayOf(ReleaseTagPattern, now) && top == DayNumber(Date(2022, 3, 20))
    ensures DatedPair(tags, dayOf, 2, Some(top - 1), 3, Some(top - 1))
  {
    FrequentTag2(now, tags[2], dayOf, top);
    FrequentTag3(now, tags[3], dayOf, top);
  }

  lemma FrequentPair45(now: int, tags: seq<string>, dayOf: Dating, top: int)
    requires TestClock(now) && tags == FrequentTags
    requires dayOf == DayOf(ReleaseTagPattern, now) && top == DayNumber(Date(2022, 3, 20))
    ensures DatedPair(tags, dayOf, 4, Some(top - 2), 5, Some(top - 9))
  {
    FrequentTag4(now, tags[4], dayOf, top);
    FrequentTag5(now, tags[5], dayOf, top);
  }

  lemma FrequentPair67(now: int, tags: seq<string>, dayOf: Dating, top: int)
    requires TestClock(now) && tags == FrequentTags
    requires dayOf == DayOf(ReleaseTagPattern, now) && top == DayNumber(Date(2022, 3, 20))
    ensures DatedPair(tags, dayOf, 6, Some(top - 10), 7, Some(top - 19))
  {
    FrequentTag6(now, tags[6], dayOf, top);
    FrequentTag7(now, tags[7], dayOf, top);
  }

  /** The four newest tags under the default release pattern. */
  lemma FrequentDatedNew(now: int, tags: seq<string>, dayOf: Dating, top: int)
    requires TestClock(now) && tags == FrequentTags
    requires dayOf == DayOf(ReleaseTagPattern, now) && top == DayNumber(Date(2022, 3, 20))
    ensures FrequentDatingNew(tags, dayOf, top)
  {
    FrequentPair01(now, tags, dayOf, top);
    FrequentPair23(now, tags, dayOf, top);
  }

  /** The next four under the default release pattern. */
  lemma FrequentDatedOld(now: int, tags: seq<string>, dayOf: Dating, top: int)
    requires TestClock(now) && tags == FrequentTags
    requires dayOf == DayOf(ReleaseTagPattern, now) && top == DayNumber(Date(2022, 3, 20))
    ensures FrequentDatingOld(tags, dayOf, top)
  {
    FrequentPair45(now, tags, dayOf, top);
    FrequentPair67(now, tags, dayOf, top);
  }

  /** The oldest dated tag and the undated ones under the default release
      pattern. */
  lemma FrequentDatedRest(now: int, tags: seq<string>, dayOf: Dating, top: int)
    requires TestClock(now) && tags == FrequentTags
    requires dayOf == DayOf(ReleaseTagPattern, now) && top == DayNumber(Date(2022, 3, 20))
    ensures FrequentDatingRest(tags, dayOf, top)
  {
    FrequentTag8(now, tags[8], dayOf, top);
    FrequentUndated(now, tags, dayOf, top);
  }

  /** Under the default release pattern the test's tags have the relative
      dates of `FrequentDating`, 2022-03-20 being the newest; the fake
      dates and the other names carry none. */
  lemma FrequentDated(now: int, tags: seq<string>, dayOf: Dating, top: int)
    requires TestClock(now) && tags == FrequentTags
    requires dayOf == DayOf(ReleaseTagPattern, now) && top == DayNumber(Date(2022, 3, 20))
    ensures FrequentDating(tags, dayOf, top)
  {
    FrequentDatedNew(now, tags, dayOf, top);
    FrequentDatedOld(now, tags, dayOf, top);
    FrequentDatedRest(now, tags, dayOf, top);
    DayNumberMonotone(ZeroTime, Date(2022, 3, 20));
  }

  /** The three newest tags of the test carry no arch suffix and are
      pairwise distinct. */
  lemma FrequentNoArch0()
    ensures GetTagWithoutArch(FrequentTag(0), DefaultArchs) == FrequentTag(0)
  {
    ReleaseNoArch(Date(2022, 3, 20), "");
  }

  lemma FrequentNoArch1()
    ensures GetTagWithoutArch(FrequentTag(1), DefaultArchs) == FrequentTag(1)
  {
    ReleaseNoArch(Date(2022, 3, 19), "");
  }

  lemma FrequentNoArch2()
    ensures GetTagWithoutArch(FrequentTag(2), DefaultArchs) == FrequentTag(2)
  {
    ReleaseNoArch(Date(2022, 3, 19), "-patch1");
  }

  lemma FrequentDistinct()
    ensures FrequentTag(0) != FrequentTag(1) && FrequentTag(0) != FrequentTag(2) && FrequentTag(1) != FrequentTag(2)
  {
    if FrequentTag(0) == FrequentTag(1) {
      ReleaseInjective(Date(2022, 3, 20), "", Date(2022, 3, 19), "");
    }
    if FrequentTag(0) == FrequentTag(2) {
      ReleaseInjective(Date(2022, 3, 20), "", Date(2022, 3, 19), "-patch1");
    }
    if FrequentTag(1) == FrequentTag(2) {
      ReleaseInjective(Date(2022, 3, 19), "", Date(2022, 3, 19), "-patch1");
    }
  }

  /** The three newest tags carry no architecture suffix and are distinct. */
  lemma FrequentNames(tags: seq<string>)
    requires tags == FrequentTags
    ensures FrequentNamed(tags, DefaultArchs)
  {
    assert tags[0] == FrequentTag(0) && tags[1] == FrequentTag(1) && tags[2] == FrequentTag(2);
    forall i | 0 <= i < 3 ensures GetTagWithoutArch(tags[i], DefaultArchs) == tags[i] {
      if i == 0 {
        FrequentNoArch0();
      } else if i == 1 {
        FrequentNoArch1();
      } else {
        FrequentNoArch2();
      }
    }
    FrequentDistinct();
  }

  /** The three tags of 2022-03-19 differ in what follows the date. */
  lemma FrequentSameDay(tags: seq<string>)
    requires tags == FrequentTags
    ensures FrequentSameDayDistinct(tags)
  {
    var d := Date(2022, 3, 19);
    assert tags[1] == Release(d, "") && tags[2] == Release(d, "-patch1") && tags[3] == Release(d, "-patch2");
    if tags[1] == tags[2] {
      ReleaseInjective(d, "", d, "-patch1");
    }
    if tags[1] == tags[3] {
      ReleaseInjective(d, "", d, "-patch2");
    }
    if tags[2] == tags[3] {
      ReleaseInjective(d, "-patch1", d, "-patch2");
    }
  }

  lemma FrequentKeptPrefix(tags: seq<string>)
    requires tags == FrequentTags
    ensures tags[..6] == FrequentKept
  {
  }

  /** TestGetNotDeletableReleaseTagsFrequent: the six expected tags are
      kept, each once, so the sorted result equals the sorted expectation;
      `release-20220310`, exactly 10 days older than the latest, is not. */
  lemma FrequentScenario(now: int)
    requires TestClock(now)
    ensures SameMembers(GetNotDeletableTags(ReleaseInput, DefaultArchs, now, FrequentTags), FrequentKept)
    ensures multiset(GetNotDeletableTags(ReleaseInput, DefaultArchs, now, FrequentTags)) == multiset(FrequentKept)
  {
    var tags, dayOf, top := FrequentTags, DayOf(ReleaseTagPattern, now), DayNumber(Date(2022, 3, 20));
    FrequentDated(now, tags, dayOf, top);
    FrequentNames(tags);
    FrequentSameDay(tags);
    FrequentShape(tags, dayOf, DefaultArchs, top);
    FrequentKeptPrefix(tags);
  }
}
