/** The decisions of pkg/api/api.go: registry path to GitLab project path,
    architecture-suffix stripping, release-tag date parsing, the CI
    release-tag gate, and the date-window retention `GetNotDeletableTags`.

    The date regular expression is abstracted as a `Capture`: the text of its
    first capture group when it matches, `None` when it does not. The clock
    is a parameter `now` (nanoseconds since 0000-01-01T00:00:00Z). The
    `tag.arch` flag is the parameter `archs` (default `DefaultArchs`). A Go
    map of tags is passed as the sequence of its keys in the order the map
    happens to iterate them; `Retention.OrderIndependent` shows the result
    does not depend on that order.

    `GetNotDeletableTags` uses `GetReleaseTag` only for a tag's date or its
    rejection, so the retention itself (`NotDeletable`) is written over any
    `Dating` of tags, and `GetNotDeletableTags` instantiates it with the
    dating `DayOf` that `GetReleaseTag` induces. */
module Api {
  import opened Wrappers
  import opened Strings
  import opened Clock
  import Sorting

  /** A compiled date pattern: the first capture group's text on a match. */
  type Capture = string -> Option<string>

  /** `slashesInDockerRegistryPath`: a registry path needs at least three
      `/`-separated segments (group/project/image). */
  const SlashesInDockerRegistryPath: nat := 3

  /** Default of the `ci.releases-delta-days` flag. */
  const DefaultCheckReleaseTagDelta: int := 5

  /** Default of the `tag.arch` flag, "amd64,arm64", split on commas. */
  const DefaultArchs: seq<string> := ["amd64", "arm64"]

  datatype ApiError =
    | PathTooShort
    | TagNotMatched
    | DateUnparsable
    | DateInFuture
    | CommitDateUnparsable
    | DeltaExceeded

  // ---------------------------------------------------------------------
  // Registry path -> GitLab project path.
  // ---------------------------------------------------------------------

  /** Drop the last `/`-separated segment (the image name) of a registry
      path; fails when there are fewer than three segments. */
  function GetGitlabProjectPath(dockerRegistryPath: string): (r: Result<string, ApiError>)
    ensures r.Failure? <==> CountChar(dockerRegistryPath, '/') < 2
    ensures r.Failure? ==> r.error == PathTooShort
    ensures r.Success? ==>
      && |r.value| < |dockerRegistryPath|
      && dockerRegistryPath[..|r.value|] == r.value
      && dockerRegistryPath[|r.value|] == '/'
      && '/' !in dockerRegistryPath[|r.value| + 1..]
  {
    var pathGroups := Split(dockerRegistryPath, '/');
    if |pathGroups| < SlashesInDockerRegistryPath then Failure(PathTooShort)
    else
      var project := pathGroups[..|pathGroups| - 1];
      var image := pathGroups[|pathGroups| - 1];
      var r := Join(project, '/');
      assert dockerRegistryPath == r + ['/'] + image by {
        JoinSplit(dockerRegistryPath, '/');
        JoinSnoc(project, image, '/');
        assert project + [image] == pathGroups;
      }
      assert dockerRegistryPath[|r| + 1..] == image;
      Success(r)
  }

  // ---------------------------------------------------------------------
  // Architecture suffixes.
  // ---------------------------------------------------------------------

  /** Trim `"-" + arch` once for each arch in turn, in the order given. */
  function GetTagWithoutArch(tagName: string, archs: seq<string>): (r: string)
    ensures HasPrefix(tagName, r)
    ensures (forall i :: 0 <= i < |archs| ==> !HasSuffix(tagName, "-" + archs[i])) ==> r == tagName
  {
    if |archs| == 0 then tagName
    else
      var formatedTag := TrimSuffix(tagName, "-" + archs[0]);
      var r := GetTagWithoutArch(formatedTag, archs[1..]);
      assert HasPrefix(tagName, formatedTag);
      assert tagName[..|r|] == formatedTag[..|r|];
      r
  }

  function StripAll(tags: seq<string>, archs: seq<string>): (r: seq<string>)
    ensures |r| == |tags|
    ensures forall i :: 0 <= i < |tags| ==> r[i] == GetTagWithoutArch(tags[i], archs)
  {
    if |tags| == 0 then [] else [GetTagWithoutArch(tags[0], archs)] + StripAll(tags[1..], archs)
  }

  /** The arch-stripped names of `tags`, each once, in order of first
      appearance. */
  function GetTagsWithoutArch(tags: seq<string>, archs: seq<string>): (r: seq<string>)
    ensures NoDup(r)
    ensures forall x :: x in r <==> exists t :: t in tags && GetTagWithoutArch(t, archs) == x
    ensures |r| <= |tags|
    ensures forall x :: x in r <==> x in StripAll(tags, archs)
    ensures forall i, j :: 0 <= i < j < |r| ==>
      FirstIndex(StripAll(tags, archs), r[i]) < FirstIndex(StripAll(tags, archs), r[j])
  {
    StripAllMembers(tags, archs);
    Dedup(StripAll(tags, archs))
  }

  lemma StripAllMembers(tags: seq<string>, archs: seq<string>)
    ensures forall x :: x in StripAll(tags, archs) <==> exists t :: t in tags && GetTagWithoutArch(t, archs) == x
  {
    var stripped := StripAll(tags, archs);
    forall x | x in stripped ensures exists t :: t in tags && GetTagWithoutArch(t, archs) == x {
      var i :| 0 <= i < |stripped| && stripped[i] == x;
      assert tags[i] in tags;
    }
    forall x | exists t :: t in tags && GetTagWithoutArch(t, archs) == x ensures x in stripped {
      var t :| t in tags && GetTagWithoutArch(t, archs) == x;
      var i :| 0 <= i < |tags| && tags[i] == t;
      assert stripped[i] == x;
    }
  }

  // ---------------------------------------------------------------------
  // Release tags.
  // ---------------------------------------------------------------------

  datatype ReleaseTag = ReleaseTag(tagName: string, tagDate: Date)

  /** Parse the date a tag carries: the tag must match, its capture must be
      a valid `YYYYMMDD` date, and that date must not be after `now`. */
  function GetReleaseTag(tagNameRegexp: Capture, now: int, tagName: string): (r: Result<ReleaseTag, ApiError>)
    ensures r.Success? ==>
      && r.value.tagName == tagName
      && ValidDate(r.value.tagDate)
      && tagNameRegexp(tagName) == Some(FormatDate(r.value.tagDate))
      && DayStart(DayNumber(r.value.tagDate)) <= now
    ensures r.Failure? ==> r.error in {TagNotMatched, DateUnparsable, DateInFuture}
  {
    match tagNameRegexp(tagName)
    case None => Failure(TagNotMatched)
    case Some(digits) =>
      match ParseDate(digits)
      case None => Failure(DateUnparsable)
      case Some(tagDate) =>
        FormatParseDate(digits);
        if DayStart(DayNumber(tagDate)) > now then Failure(DateInFuture)
        else Success(ReleaseTag(tagName, tagDate))
  }

  /** Each error of `GetReleaseTag` and exactly when it happens, stated
      through the date formatter rather than the parser: the capture is not
      the `YYYYMMDD` rendering of any date, or it renders a date after
      `now`. */
  lemma GetReleaseTagErrors(tagNameRegexp: Capture, now: int, tagName: string)
    ensures GetReleaseTag(tagNameRegexp, now, tagName) == Failure(TagNotMatched) <==> tagNameRegexp(tagName).None?
    ensures GetReleaseTag(tagNameRegexp, now, tagName) == Failure(DateUnparsable) <==>
      && tagNameRegexp(tagName).Some?
      && forall d :: ValidDate(d) ==> FormatDate(d) != tagNameRegexp(tagName).value
    ensures GetReleaseTag(tagNameRegexp, now, tagName) == Failure(DateInFuture) <==>
      exists d :: ValidDate(d) && tagNameRegexp(tagName) == Some(FormatDate(d)) && DayStart(DayNumber(d)) > now
  {
    match tagNameRegexp(tagName)
    case None =>
    case Some(digits) =>
      match ParseDate(digits)
      case None =>
        forall d | ValidDate(d) ensures FormatDate(d) != digits {
          ParseFormatDate(d);
        }
      case Some(tagDate) =>
        FormatParseDate(digits);
        forall d | ValidDate(d) && FormatDate(d) == digits ensures d == tagDate {
          ParseFormatDate(d);
        }
  }

  /** A tag `GetNotDeletableTags` can reason about: one `GetReleaseTag`
      accepts. */
  predicate IsReleaseTag(tagNameRegexp: Capture, now: int, tagName: string) {
    GetReleaseTag(tagNameRegexp, now, tagName).Success?
  }

  /** The day number of a release tag's date. */
  function TagDay(tagNameRegexp: Capture, now: int, tagName: string): int
    requires IsReleaseTag(tagNameRegexp, now, tagName)
  {
    DayNumber(GetReleaseTag(tagNameRegexp, now, tagName).value.tagDate)
  }

  // ---------------------------------------------------------------------
  // CI gate.
  // ---------------------------------------------------------------------

  /** The release tag's date must be within `delta` days of the commit
      time. `commitDate` is the result of RFC 3339 parsing (`None` when it
      fails), as an instant. */
  function CheckReleaseTag(tagNameRegexp: Capture, now: int, tagName: string, commitDate: Option<int>, delta: int): (r: Outcome<ApiError>)
    ensures r.Pass? ==> IsReleaseTag(tagNameRegexp, now, tagName) && commitDate.Some?
    ensures !IsReleaseTag(tagNameRegexp, now, tagName) ==> r == Fail(GetReleaseTag(tagNameRegexp, now, tagName).error)
    ensures IsReleaseTag(tagNameRegexp, now, tagName) && commitDate.None? ==> r == Fail(CommitDateUnparsable)
  {
    match GetReleaseTag(tagNameRegexp, now, tagName)
    case Failure(e) => Fail(e)
    case Success(releaseTag) =>
      match commitDate
      case None => Fail(CommitDateUnparsable)
      case Some(commitDateTime) =>
        var commitDateDiff := Sub(commitDateTime, DayStart(DayNumber(releaseTag.tagDate)));
        var commitDateDiffDays := RealAbs(DurationDays(commitDateDiff));
        if commitDateDiffDays > delta as real then Fail(DeltaExceeded) else Pass
  }

  function RealAbs(x: real): (r: real)
    ensures r >= 0.0 && (r == x || r == -x)
  {
    if x < 0.0 then -x else x
  }

  // ---------------------------------------------------------------------
  // Date-window retention.
  // ---------------------------------------------------------------------

  /** The only thing `GetNotDeletableTags` asks of `GetReleaseTag`: the day
      number of a tag's date, or `None` when the tag is rejected. The
      retention functions below take this as a parameter `dayOf`, so that
      they can be reasoned about for any dating of tags. */
  type Dating = string -> Option<int>

  /** The day a release tag carries, `None` for any other tag. */
  function ReleaseDay(tagNameRegexp: Capture, now: int, tagName: string): (r: Option<int>)
    ensures r.Some? <==> IsReleaseTag(tagNameRegexp, now, tagName)
    ensures r.Some? ==> r.value == TagDay(tagNameRegexp, now, tagName)
  {
    match GetReleaseTag(tagNameRegexp, now, tagName)
    case Failure(_) => None
    case Success(releaseTag) => Some(DayNumber(releaseTag.tagDate))
  }

  /** `ReleaseDay` as a function value. */
  function DayOf(tagNameRegexp: Capture, now: int): Dating {
    s => ReleaseDay(tagNameRegexp, now, s)
  }

  datatype RetentionInput = RetentionInput(
    dateRegexp: Capture,
    notDeleteDays: real,
    minNotDeleteTags: int)

  /** The first loop: the latest date among `tags`, starting from the zero
      time 0001-01-01 (so it is never earlier than that). */
  function LatestDay(tags: seq<string>, dayOf: Dating): (m: int)
    ensures m >= DayNumber(ZeroTime)
    ensures forall t :: t in tags && dayOf(t).Some? ==> dayOf(t).value <= m
    ensures m == DayNumber(ZeroTime) || exists t :: t in tags && dayOf(t).Some? && dayOf(t).value == m
  {
    if |tags| == 0 then DayNumber(ZeroTime)
    else
      var init := tags[..|tags| - 1];
      var tag := tags[|tags| - 1];
      var m := LatestDay(init, dayOf);
      assert tags == init + [tag];
      match dayOf(tag)
      case None => m
      case Some(day) => if day > m then day else m
  }

  /** The tags that carry a date, in their order. */
  function Dated(tags: seq<string>, dayOf: Dating): (r: seq<string>)
    ensures forall t :: t in r <==> t in tags && dayOf(t).Some?
    ensures multiset(r) <= multiset(tags)
  {
    FilterSubMultiset(tags, t => dayOf(t).Some?);
    Filter(tags, t => dayOf(t).Some?)
  }

  /** Go's `sort.Reverse(sort.StringSlice(...))` order: `a` comes no later
      than `b` when `a >= b` as strings. */
  predicate ReverseOrder(a: string, b: string) {
    LexLe(b, a)
  }

  lemma ReverseOrderIsTotal()
    ensures Sorting.TotalPreorder(ReverseOrder)
    ensures Sorting.Antisymmetric(ReverseOrder)
  {
    forall a, b ensures ReverseOrder(a, b) || ReverseOrder(b, a) {
      LexLeTotal(a, b);
    }
    forall a, b, c | ReverseOrder(a, b) && ReverseOrder(b, c) ensures ReverseOrder(a, c) {
      LexLeTransitive(c, b, a);
    }
    forall a, b | ReverseOrder(a, b) && ReverseOrder(b, a) ensures a == b {
      LexLeAntisymmetric(a, b);
    }
  }

  /** `allTagDate`: the dated tags, sorted in reverse string order. */
  function AllTagDate(tags: seq<string>, dayOf: Dating): (r: seq<string>)
    ensures Sorting.SortedBy(r, ReverseOrder)
    ensures multiset(r) == multiset(Dated(tags, dayOf))
    ensures forall t :: t in r <==> t in tags && dayOf(t).Some?
  {
    ReverseOrderIsTotal();
    var candidates := Dated(tags, dayOf);
    var r := Sorting.Sort(candidates, ReverseOrder);
    assert forall t :: t in r <==> t in multiset(r);
    assert forall t :: t in candidates <==> t in multiset(candidates);
    r
  }

  /** `tagDateMaxDate.Sub(tagDate).Hours() / 24 < NotDeleteDays`. */
  predicate InWindow(notDeleteDays: real, maxDay: int, tagDay: int) {
    DurationDays(Sub(DayStart(maxDay), DayStart(tagDay))) < notDeleteDays
  }

  /** The second loop: the dated tags within the window of the latest
      date. */
  function WindowKeep(allTagDate: seq<string>, dayOf: Dating, notDeleteDays: real, maxDay: int): (r: seq<string>)
    ensures forall t :: t in r <==> t in allTagDate && dayOf(t).Some? && InWindow(notDeleteDays, maxDay, dayOf(t).value)
    ensures Sorting.SortedBy(allTagDate, ReverseOrder) ==> Sorting.SortedBy(r, ReverseOrder)
    ensures multiset(r) <= multiset(allTagDate)
  {
    var keep := t => dayOf(t).Some? && InWindow(notDeleteDays, maxDay, dayOf(t).value);
    assert Sorting.SortedBy(allTagDate, ReverseOrder) ==> Sorting.SortedBy(Filter(allTagDate, keep), ReverseOrder) by {
      if Sorting.SortedBy(allTagDate, ReverseOrder) {
        Sorting.FilterSorted(allTagDate, keep, ReverseOrder);
      }
    }
    FilterSubMultiset(allTagDate, keep);
    Filter(allTagDate, keep)
  }

  /** The minimum-keep walk over arch-stripped names in reverse string
      order: each name with a date adds it to `days`; the walk stops at the
      first name whose date would make more than `limit` distinct dates.
      (The source keys dates by Unix seconds of midnight, which is the same
      as keying them by day number.) */
  function MinimumWalk(names: seq<string>, dayOf: Dating, limit: int, days: set<int>): (r: seq<string>)
    ensures forall s :: s in r ==> s in names && dayOf(s).Some?
  {
    if |names| == 0 then []
    else
      match dayOf(names[0])
      case None => MinimumWalk(names[1..], dayOf, limit, days)
      case Some(day) =>
        var days' := days + {day};
        if |days'| > limit then []
        else [names[0]] + MinimumWalk(names[1..], dayOf, limit, days')
  }

  /** `latestTags`: every tag whose stripped name the walk kept. */
  function FallbackKeep(allTagDate: seq<string>, minimum: seq<string>, archs: seq<string>): (r: seq<string>)
    ensures forall t :: t in r <==> t in allTagDate && GetTagWithoutArch(t, archs) in minimum
    ensures Sorting.SortedBy(allTagDate, ReverseOrder) ==> Sorting.SortedBy(r, ReverseOrder)
    ensures multiset(r) <= multiset(allTagDate)
  {
    var keep := t => GetTagWithoutArch(t, archs) in minimum;
    assert Sorting.SortedBy(allTagDate, ReverseOrder) ==> Sorting.SortedBy(Filter(allTagDate, keep), ReverseOrder) by {
      if Sorting.SortedBy(allTagDate, ReverseOrder) {
        Sorting.FilterSorted(allTagDate, keep, ReverseOrder);
      }
    }
    FilterSubMultiset(allTagDate, keep);
    Filter(allTagDate, keep)
  }

  /** The body of `GetNotDeletableTags` for a given dating of tags. Tags
      within `notDeleteDays` of the latest date are kept; when they carry
      fewer than `minNotDeleteTags` distinct stripped names, that result is
      replaced by the minimum-keep walk. No tag is listed more often than
      it occurs in `tags`. */
  function NotDeletable(tags: seq<string>, dayOf: Dating, notDeleteDays: real, minNotDeleteTags: int, archs: seq<string>): (r: seq<string>)
    ensures forall t :: t in r ==> t in tags && dayOf(t).Some?
    ensures Sorting.SortedBy(r, ReverseOrder)
    ensures multiset(r) <= multiset(tags)
  {
    var tagDateMaxDate := LatestDay(tags, dayOf);
    var allTagDate := AllTagDate(tags, dayOf);
    var tagsNotToDelete := WindowKeep(allTagDate, dayOf, notDeleteDays, tagDateMaxDate);
    if |GetTagsWithoutArch(tagsNotToDelete, archs)| < minNotDeleteTags then
      var allTagDateWOArch := GetTagsWithoutArch(allTagDate, archs);
      var tagsNotToDeleteMinimum := MinimumWalk(allTagDateWOArch, dayOf, minNotDeleteTags, {});
      FallbackKeep(allTagDate, tagsNotToDeleteMinimum, archs)
    else
      tagsNotToDelete
  }

  /** The tags that must not be deleted: only release tags of `tags` (ones
      `GetReleaseTag` accepts), listed in reverse string order. */
  function GetNotDeletableTags(input: RetentionInput, archs: seq<string>, now: int, tags: seq<string>): (r: seq<string>)
    ensures forall t :: t in r ==> t in tags && IsReleaseTag(input.dateRegexp, now, t)
    ensures Sorting.SortedBy(r, ReverseOrder)
    ensures multiset(r) <= multiset(tags)
  {
    NotDeletable(tags, DayOf(input.dateRegexp, now), input.notDeleteDays, input.minNotDeleteTags, archs)
  }
}
