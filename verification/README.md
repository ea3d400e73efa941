# gitlab-registry-cleaner: the retention decisions, in Dafny

gitlab-registry-cleaner removes old container images from a GitLab
registry and old folders from an object-storage bucket. This project
models the part of it that decides what to delete. It proves what those
decisions guarantee.

The model has four pieces:

- **Release retention** (`Api`, `Retention`, `ScenariosRelease`).
  `GetNotDeletableTags` of pkg/api/api.go picks the release tags that must
  survive. It dates every tag through a pattern, keeps the tags within
  `NotDeleteDays` of the newest date, and falls back to the first
  `MinNotDeleteTags` distinct dates met in reverse string order of the
  names when the window holds too few distinct names. The same module models the registry-path-to-project
  mapping, the architecture-suffix stripping and `CheckReleaseTag`.
- **Tag classification and scheduling** (`Internal`, `Types`). This is
  `getStaleDockerTags` and `getStaledSnapshotTags` of internal/internal.go.
  Repositories are grouped by GitLab project, and each tag gets a
  disposition from its branch, the release keep-set and the system-tag
  pattern. Every tag whose disposition is `ReleaseTag`, `BranchNotFound` or
  `BranchStale` is scheduled for deletion.
- **Bucket retention** (`BucketUtils`, `BucketRetention`, `BucketCleaner`,
  `BucketScenario`). Folders are grouped and numbered by a named-group
  regular expression. In each group all but the `maxSize` folders with the
  largest ids are deleted.
- **Supporting definitions**:
  - the `GitlabSluglify`, `StringInSlice` and `FormatURL` helpers (`Utils`);
  - calendar dates, day numbers and saturating durations (`Clock`);
  - `strconv.Atoi` (`Strconv`);
  - string, sequence and sorting primitives (`Strings`, `Sorting`);
  - the default tag patterns (`Patterns`).

Everything the Go code takes from outside becomes a parameter:

- the clock: `now`, in nanoseconds since 0000-01-01T00:00:00Z;
- the `-tag.arch` flag: `archs`;
- the registry listing: `tagsOf`;
- the GitLab lookup: `lookup`;
- regexp compilation: `compile`;
- the bucket listing: `list`;
- the bucket deletion: `deleteOk`.

A regular expression is modelled as its capture function (`string ->
Option<string>`), or as a match predicate, or, for the bucket pattern, as
its group names plus a submatch function. `Patterns` hand-writes the
default release and snapshot patterns. `Dating` (`string ->
Option<int>`) is the day number a tag's pattern and date assign. The
retention lemmas hold for any dating, and `Api.DayOf` is the one
`GetReleaseTag` gives.

Go maps whose iteration order matters are key sequences. The retention
results are shown not to depend on that order (`Retention.OrderIndependent`
and the bucket ranking lemmas). `PurgeBucket` visits its groups in the
order their first folder is listed; a successful purge deletes the same
folders in any order, but a failing one does not (see "Left out").

Where the design notes and the code differ, the model follows the code:

- The fallback fires when the window holds fewer than `MinNotDeleteTags`
  distinct arch-stripped names. It does not count tags or dates
  (pkg/api/api.go:114).
- The candidates are sorted by name, in reverse string order, not by date
  (pkg/api/api.go:92).
- A bucket item that the pattern does not match is counted in the group
  "" and is not ignored (pkg/bucketutils/bucketutils.go:77-88).

## Model

| member | source | states |
|---|---|---|
| Api.GetGitlabProjectPath | pkg/api/api.go:49-61 | Fails with the path error exactly when the path has fewer than three '/'-separated segments. Otherwise the result is the path up to its last '/', and the dropped remainder holds no '/'. |
| ApiFacts.ProjectPathOf | pkg/api/api.go:49-61 | Round trip: for a project path holding a '/' and an image name without one, the project path of `project + "/" + image` is `project`. |
| ApiFacts.ProjectPathTooShort | pkg/api/api.go:52-54 | A path with fewer than two '/' is always rejected. |
| ApiFacts.OneSlash | pkg/api/api.go:52-54 | Two '/'-free names joined by one '/' form a path that is rejected. |
| ApiFacts.ProjectPathExamples | pkg/api/api_test.go:43-75 | The accepted and rejected registry paths of the test, with the expected project paths. |
| Api.GetTagWithoutArch | pkg/api/api.go:153-164 | The result is a prefix of the tag. It is the tag itself when the tag carries none of the `-<arch>` suffixes. |
| ApiFacts.StripDefault | pkg/api/api.go:153-164 | With the default architectures, stripping removes a trailing "-amd64" once, then a trailing "-arm64" once. |
| ApiFacts.ArchOrderMatters | pkg/api/api.go:158-161 | Suffixes are removed one per architecture, in flag order: "x-arm64-amd64" becomes "x", but "x-amd64-arm64" becomes "x-amd64". Stripping is therefore not idempotent. |
| Internal.StripBare | pkg/api/api_test.go:196-211 | With the default architectures, a name shorter than six characters, or whose sixth-last character is not '-', is unchanged by stripping (the test's "test1"). |
| Internal.StripAmd64 | pkg/api/api_test.go:196-211 | Such a name with "-amd64" appended strips back to the name (the test's "test3-amd64"). |
| Internal.StripArm64 | pkg/api/api_test.go:196-211 | Such a name with "-arm64" appended strips back to the name (the test's "test2-arm64"). |
| Internal.DefaultStrip | pkg/api/api.go:153-164 | With the default architectures, "main" and "master", bare or followed by "-amd64" or "-arm64", strip to the bare name. |
| Api.StripAll | pkg/api/api.go:170-176 | Element by element, each tag is replaced by its stripped name. |
| Api.StripAllMembers | pkg/api/api.go:166-184 | A name is in the stripped list exactly when it is the stripped name of some input tag. |
| Api.GetTagsWithoutArch | pkg/api/api.go:166-184 | The stripped names without duplicates: exactly the stripped names of the input, each once, in order of first appearance, and no more of them than input tags. |
| Api.GetReleaseTag | pkg/api/api.go:191-209 | On success the tag name is kept. Its date is a valid calendar date whose `20060102` rendering is the pattern's capture, and it is not after `now`. |
| Api.GetReleaseTagErrors | pkg/api/api.go:191-209 | Which error, exactly when. TagNotMatched iff the pattern does not match. DateUnparsable iff the capture is no valid date's rendering. DateInFuture iff the date's midnight is after `now`. |
| Api.CheckReleaseTag | pkg/api/api.go:212-232 | A tag that `GetReleaseTag` rejects fails with that same error. An unparsable commit time fails with its own error. A pass needs an accepted tag and a commit time. |
| ApiFacts.CheckReleaseTagWithin | pkg/api/api.go:212-232 | For an accepted tag, the check passes iff the commit instant lies within `delta` days of the tag date's midnight, on either side. A gap of exactly `delta` days passes. |
| Api.RealAbs | pkg/api/api.go:225 | `math.Abs`: non-negative, and equal to `x` or `-x`. |
| Api.ReleaseDay | pkg/api/api.go:74-90 | Some exactly for the tags `GetReleaseTag` accepts, holding the day number of their date. |
| Api.LatestDay | pkg/api/api.go:74-90 | The newest date: at least the day of `time.Time{}` and at least every dated tag's day. It equals `time.Time{}`'s day or some dated tag's day. |
| Retention.LatestDayUnique | pkg/api/api.go:74-90 | The newest date depends only on which tags are present, not on their order or repetition. |
| Api.Dated | pkg/api/api.go:74-90 | Exactly the tags that carry a date. |
| Api.ReverseOrderIsTotal | pkg/api/api.go:92 | The sort order (reverse string order) is total, transitive and antisymmetric. |
| Api.AllTagDate | pkg/api/api.go:74-92 | Sorted in reverse string order, and a permutation of the dated tags. |
| Api.WindowKeep | pkg/api/api.go:96-111 | Exactly the candidates whose date lies strictly within `notDeleteDays` of the newest date. Sorted candidates give a sorted result. |
| Retention.WindowInDays | pkg/api/api.go:104-108 | The window test in whole days: a tag is inside iff its distance in days from the newest date is below `notDeleteDays`. A tag exactly `notDeleteDays` old is outside. |
| Retention.WindowCount | pkg/api/api.go:112-114 | The number the fallback test compares is the count of distinct stripped names among the window's tags. |
| Retention.KeepWithoutFallback | pkg/api/api.go:96-114 | When the window holds at least `minNotDeleteTags` distinct names, a tag is kept iff it carries a date inside the window. |
| Retention.LatestKept | pkg/api/api.go:96-114 | Without the fallback and with a positive window, every tag of the newest date is kept. |
| Retention.WindowByDate | pkg/api/api.go:96-114 | Without the fallback, two dated tags of the same day are both kept or both dropped. |
| Api.MinimumWalk | pkg/api/api.go:116-135 | The walk over stripped names only collects dated names from its input. |
| Retention.WalkShape | pkg/api/api.go:116-135 | The walk is the longest prefix of the dated names whose dates span at most `limit` distinct days. It stops at the name bringing in the (`limit`+1)-th date. |
| Retention.WalkCoverage | pkg/api/api.go:116-135 | The walk covers `limit` distinct dates, or every date there is when there are fewer. |
| Api.FallbackKeep | pkg/api/api.go:138-147 | Exactly the candidates whose stripped name is on the walk's list. Sorted candidates give a sorted result. |
| Retention.KeepWithFallback | pkg/api/api.go:112-148 | When the fallback fires, the window's result is discarded. A tag is kept iff it is dated and its stripped name lies within the first `minNotDeleteTags` distinct dates met in reverse string order of the stripped names. |
| Retention.FallbackKeepsVariants | pkg/api/api.go:138-147 | Under the fallback, a kept tag's dated arch variants (same stripped name) are kept too. |
| Retention.FallbackCoverage | pkg/api/api.go:112-148 | Under the fallback, the kept stripped names span `minNotDeleteTags` dates, or all dates when there are fewer. |
| Api.NotDeletable | pkg/api/api.go:71-151 | Every kept tag is an input tag carrying a date, listed no more often than in the input. The result is sorted in reverse string order. |
| Api.GetNotDeletableTags | pkg/api/api.go:71-151 | Every returned tag is an input tag that `GetReleaseTag` accepts under the input's pattern and `now`, listed no more often than in the input. The result is sorted in reverse string order. |
| Retention.OrderIndependent | pkg/api/api.go:71-151 | The result depends only on the multiset of input tags: any reordering of the map's keys gives the same list. |
| ApiFacts.ReleaseStripStable | pkg/api/api.go:116-122 | Stripping an arch suffix from a release tag keeps its capture. So the fallback dates a stripped name like the tag it came from. |
| ApiFacts.SnapshotStripStable | pkg/api/api.go:153-164 | A tag matching the default snapshot pattern has no arch suffix to strip. |
| Patterns.ReleaseTagPattern | internal/internal.go:44-51 | A capture of the default release pattern, when there is one, is eight ASCII digits. |
| Patterns.SnapshotTagPattern | internal/internal.go:44-51 | A capture of the default snapshot pattern, when there is one, is eight ASCII digits. |
| ScenariosRelease.ReleaseDated | pkg/api/api.go:191-209 | "release-" + a valid date's rendering + any newline-free rest is dated with that date, when the date is not after `now`. |
| ScenariosRelease.ReleaseFuture | pkg/api/api.go:201-203 | The same kind of tag with a date after `now` is rejected as DateInFuture. |
| ScenariosRelease.RejectedImpossibleDay | pkg/api/api_test.go:91 | "release-20220199" is rejected as DateUnparsable. |
| ScenariosRelease.RejectedNames | pkg/api/api_test.go:93-94 | "test-branch" and "test-20220318-branch" are rejected as TagNotMatched. |
| ScenariosRelease.FrequentDated | pkg/api/api_test.go:82-94 | Under the test clock, `GetReleaseTag` dates the test's tags 0, 1, 1, 1, 2, 9, 10, 19 and 20 days before 2022-03-20. The four fake tags get no date: an impossible day, a future date and two names the pattern rejects. |
| ScenariosRelease.FrequentWindow | pkg/api/api_test.go:96-105 | Within the scenario's dating, a dated tag is inside the 10-day window iff it is one of the six expected tags. The 10-day-old "release-20220310" is outside. |
| ScenariosRelease.FrequentShape | pkg/api/api_test.go:77-113 | For any dating with the scenario's relative dates, whose three newest tags are distinct and carry no arch suffix, `NotDeletable` keeps exactly the first six tags, each once. The window holds three distinct names, so the fallback does not fire. |
| ScenariosRelease.FrequentScenario | pkg/api/api_test.go:77-113 | `TestGetNotDeletableReleaseTagsFrequent`: the result holds exactly the six expected tags, each once (equal as multisets, so the test's sorted comparison succeeds). |
| Clock.ParseDate | pkg/api/api.go:196-199 | `time.Parse("20060102", ·)` on a capture: when it succeeds, the input is eight ASCII digits and the date is a valid calendar date. |
| Clock.FormatDate | pkg/api/api.go:196-199 | A date renders as eight ASCII digits. |
| Clock.ParseFormatDate | pkg/api/api.go:196-199 | Round trip: parsing a date's rendering gives the date back. |
| Clock.FormatParseDate | pkg/api/api.go:196-199 | Round trip: a string that parses is the rendering of its date. |
| Clock.DaysIn | pkg/api/api.go:196-199 | Month lengths lie between 28 and 31. |
| Clock.DayNumberNext | pkg/api/api.go:104 | Consecutive calendar dates have consecutive day numbers. |
| Clock.DayNumberMonotone | pkg/api/api.go:85 | Of two valid dates, the earlier has the smaller day number, so `After` on dates is `>` on day numbers. |
| Clock.DayNumberInjective | pkg/api/api.go:85 | Distinct dates have distinct day numbers. |
| Clock.Sub | pkg/api/api.go:104 | `Time.Sub`: the exact difference when it fits in an int64 of nanoseconds, clamped to the int64 bounds otherwise. |
| Clock.SubDays | pkg/api/api.go:104 | The hours between two midnights, divided by 24, are the difference of their day numbers, while that stays within the duration range. |
| Clock.SubDaysSaturated | pkg/api/api.go:104 | Beyond 106751 days the difference saturates: it reads as more than 106751 and less than 106752 days. |
| Types.String | pkg/types/types.go:19-33 | Each disposition's string is non-empty, so no disposition is the unassigned value, and the string parses back to the disposition. |
| Types.StringInjective | pkg/types/types_test.go:21-42 | Distinct dispositions have distinct strings. |
| Types.Parse | pkg/types/types.go:23-33 | The empty string names no disposition. |
| Internal.ProjectRepos | internal/internal.go:189-211 | Exactly the listed repositories that the locator places in the project. |
| Internal.GroupExact | internal/internal.go:189-211 | For any locator, a project is grouped iff some repository is located in it, and its group is exactly `ProjectRepos`, in listing order. |
| Internal.RepositoryGroup | internal/internal.go:189-211 | A repository lands in a project's group iff its registry path converts to that GitLab project path and the path is not ignored. A project is grouped iff some repository lands in it. |
| Internal.ProjectOrder | internal/internal.go:214 | The projects visited: each grouped project once, and nothing else. |
| Internal.Classify | internal/internal.go:249-289 | A Docker tag never ends `Unknown` and never gets a snapshot disposition. |
| Internal.ClassifyCases | internal/internal.go:249-289 | Each disposition and exactly when it is given: system pattern first, then release pattern with or without keep-set membership, then branch stale, present or missing. |
| Internal.ScheduledIff | internal/internal.go:291-310 | A tag is scheduled iff it is no system tag, and it is either a release tag outside the keep-set or not a release tag with its branch missing or stale. |
| Internal.DefaultSystemTags | internal/internal.go:44-51 | "main" and "master", bare or with an arch suffix, are system tags under the default pattern, whatever the branches. |
| Internal.AllTagsMembers | internal/internal.go:229-239 | A tag is in the project's listing iff some repository of the project lists it. |
| Internal.ProjectTags | internal/internal.go:229-239 | The project's tag names, each once: exactly the tags of its repositories. |
| Internal.ProjectKeep | internal/internal.go:241-246 | Every tag of the keep-set is a project tag that the release pattern dates. |
| Internal.ScheduleRepo | internal/internal.go:291-310 | A deletion of one repository is exactly a tag it lists whose disposition is scheduled, with that disposition. |
| Internal.ScheduleProjectMembers | internal/internal.go:291-310 | A deletion of a project is exactly a scheduled tag of one of its repositories. |
| Internal.StaleProjectTagsMembers | internal/internal.go:229-310 | One project's deletions: exactly the (repository, tag) pairs with a scheduled `Classify` disposition. |
| Internal.SameDispositionAcrossRepos | internal/internal.go:241-310 | A tag scheduled in one repository is scheduled, for the same reason, in every repository of the project that has it. |
| Internal.KeptNeverScheduled | internal/internal.go:272-310 | A tag of the keep-set is never scheduled for deletion. |
| Internal.StaleProjectsResult | internal/internal.go:214-311 | Walking the projects fails iff some project's branches cannot be listed, and the error names such a project. Projects GitLab does not know are skipped. On success, the deletions are exactly those of the projects whose branches were listed. |
| Internal.StaleDockerTagsResult | internal/internal.go:184-314 | `getStaleDockerTags` as a whole. It fails iff some grouped project's branches cannot be listed. On success, a deletion is exactly a tag of a repository of a project GitLab knows, whose `Classify` disposition, under that project's branches and keep-set, is scheduled. |
| Internal.SnapshotKeep | internal/internal.go:326-335 | A snapshot repository's keep-set holds only its tags that the snapshot pattern dates. |
| Internal.SnapshotRepoTags | internal/internal.go:336-350 | A snapshot repository's deletions are exactly its tags outside the keep-set, marked SnapshotStaled. |
| Internal.StaledSnapshotTagsMembers | internal/internal.go:317-355 | A snapshot deletion is exactly a tag of a snapshot repository that is outside that repository's keep-set. |
| Internal.UnmatchedSnapshotDeleted | internal/internal.go:326-350 | A tag of a snapshot repository that the snapshot pattern does not date is always deleted. |
| BucketUtils.Index | pkg/bucketutils/bucketutils.go:48-49 | `slices.Index`: -1 iff the name is absent, and otherwise its first position. |
| BucketUtils.NewBucketUtils | pkg/bucketutils/bucketutils.go:36-58 | Fails for an empty pattern, a pattern that does not compile, or one lacking the `group` or `id` name. On success the positions are those names' indexes. |
| BucketUtils.FindStringSubmatch | pkg/bucketutils/bucketutils.go:77-88 | The capture at the position when the pattern matches and the position exists. "" otherwise. |
| BucketUtils.GetGroups | pkg/bucketutils/bucketutils.go:67-75 | A key for every item's group and no other. Each count is the number of items in that group and is positive. |
| BucketUtils.GetGroupsTotal | pkg/bucketutils/bucketutils.go:67-75 | The group counts add up to the number of items. |
| BucketUtils.Members | pkg/bucketutils/bucketutils.go:90-95 | Exactly the items of the group, in listing order: the listing filtered by group. |
| BucketUtils.GroupItemsFails | pkg/bucketutils/bucketutils.go:96-104 | Numbering a group fails iff a member has a non-empty id that is not a number, and the error names such an id. |
| BucketUtils.GetGroupItems | pkg/bucketutils/bucketutils.go:90-113 | Fails iff a member of the group has a non-empty, non-numeric id, and the error names such an id. On success, one copy per member in order, carrying the member's value, the group, and the parsed id (the item's own id when the capture is empty). |
| BucketUtils.DropTop | pkg/bucketutils/bucketutils.go:125-133 | Sorted by descending id, the items after the first `limit` are dropped. Together with `limit` kept items they make up all items, and none has a larger id than a kept one. |
| BucketUtils.GetLastItemsGroupByID | pkg/bucketutils/bucketutils.go:115-134 | Fails iff the numbering fails, with that error. Nothing is returned when the group holds at most `limit` items. Otherwise all but `limit` items are returned, and no returned id exceeds a kept one. |
| BucketRetention.CountAbovePermutation | pkg/bucketutils/bucketutils.go:125-127 | The number of items above an id is the same in any permutation. |
| BucketRetention.CountAboveSorted | pkg/bucketutils/bucketutils.go:125-133 | In a list with distinct ids sorted by descending id, exactly `k` items lie above position `k`. |
| BucketRetention.DroppedIffBelowTop | pkg/bucketutils/bucketutils.go:125-133 | With distinct ids, an item lies past the first `limit` sorted items iff at least `limit` items have a larger id. |
| BucketRetention.LastItemsByRank | pkg/bucketutils/bucketutils.go:115-134 | For a group with distinct ids, a folder is returned for deletion iff at least `limit` folders of its group have a larger id. The result does not depend on the listing order. |
| BucketScenario.ExampleUtils | pkg/bucketutils/bucketutils_test.go:22-57 | The test's pattern compiles to `group` at position 1 and `id` at position 2. |
| BucketScenario.ExampleGroupItems | pkg/bucketutils/bucketutils_test.go:22-57 | Folders "test-0" to "test-9" all fall in group "test", with ids 0 to 9. |
| BucketScenario.BucketExample | pkg/bucketutils/bucketutils_test.go:22-57 | With a limit of 2, eight folders are returned, and neither "test-8" nor "test-9" is among them. |
| BucketCleaner.Validate | pkg/bucketcleaner/bucketcleaner.go:35-45 | Passes iff the pattern is non-empty and `maxSize` is positive. An empty pattern is reported first. |
| BucketCleaner.DeleteBucketFolder | pkg/bucketcleaner/bucketcleaner.go:58-75 | A dry run deletes nothing and succeeds. Otherwise the folder is deleted, or the deletion error is returned. |
| BucketCleaner.DeleteItems | pkg/bucketcleaner/bucketcleaner.go:115-122 | The folders are requested in order. Deletion stops at the first failure, which is the last folder requested and the one the error names. A dry run requests every folder and deletes nothing. |
| BucketCleaner.GroupOrder | pkg/bucketcleaner/bucketcleaner.go:109 | The groups visited: each group of the listing once. |
| BucketCleaner.Listed | pkg/bucketcleaner/bucketcleaner.go:96-102 | One item per listed prefix, carrying the prefix as its value. |
| BucketCleaner.PurgeBucket | pkg/bucketcleaner/bucketcleaner.go:77-127 | An empty bucket name and a failed listing are errors that delete nothing. A dry run never deletes. |
| BucketCleaner.DryRunDeletesNothing | pkg/bucketcleaner/bucketcleaner.go:58-75 | However many groups are purged, a dry run deletes nothing. |
| BucketCleaner.PurgeGroupsSelects | pkg/bucketcleaner/bucketcleaner.go:109-124 | Without an error, the requested folders are exactly those `GetLastItemsGroupByID` selects over the groups visited. |
| BucketCleaner.PurgeSucceeds | pkg/bucketcleaner/bucketcleaner.go:77-127 | A successful purge requests exactly the folders selected by group, and outside a dry run deletes exactly those. |
| Utils.GitlabSluglify | pkg/utils/utils.go:29-44 | At most 63 characters, all from `[a-z0-9-]`. The result is a run of the slug starting at its first or second character, and it is shorter than the text by more than two only when it was cut at 63. |
| Utils.TrimmedSlug | pkg/utils/utils.go:30-37 | Trimming one '-' from each end leaves the slug's run from `Lead` onward, at most two characters shorter. |
| Utils.Slug | pkg/utils/utils.go:30-33 | The slug has the text's length: every rune is replaced, none removed. |
| Utils.SlugAppend | pkg/utils/utils.go:30-33 | Slugging works character by character: the slug of a concatenation is the concatenation of the slugs. |
| Utils.SluglifyWordExamples | pkg/utils/utils_test.go:26-28 | The test's three wrapped-word examples produce the expected slugs, both as written and corrected. |
| Utils.SluglifyDigitsExample | pkg/utils/utils_test.go:29 | The test's 70-digit example is cut to its first 63 characters, both as written and corrected. |
| Utils.SluglifyWrapped | pkg/utils/utils.go:35-37 | A word of at most 61 characters whose slug neither starts nor ends with '-', wrapped in one non-slug character on each side, gives the word's slug. |
| Utils.SluglifyKeepsHyphens | pkg/utils/utils.go:35-41 | As written, the result can start or end with '-'. "##a" gives "-a", "a##" gives "a-", and a 64-character text can be cut on a '-'. |
| Utils.GitlabSluglifyFixed | pkg/utils/utils.go:23-44 | Corrected: at most 63 slug characters, neither first nor last a '-', and equal to the slug cut to 63 with only hyphens taken off its ends. |
| Utils.SluglifyFixedWrapped | pkg/utils/utils.go:23-44 | The corrected slug agrees with the written one on a slug wrapped in single non-slug characters. |
| Utils.Truncated | pkg/utils/utils.go:39-41 | The slug's first 63 characters, or all of it when shorter. |
| Utils.StringInSlice | pkg/utils/utils.go:47-55 | True iff some element equals the string. |
| Utils.FormatURL | pkg/utils/utils.go:58-60 | A prefix of the URL that does not end in '/'. Only slashes were cut. |
| Utils.FormatURLIdempotent | pkg/utils/utils.go:58-60 | Formatting twice equals formatting once. |
| Strconv.Atoi | pkg/bucketutils/bucketutils.go:97-104 | `strconv.Atoi`: Some iff an optional sign is followed by at least one ASCII digit and the value fits in an int64. The value is the decimal reading. |
| Strconv.AtoiItoa | pkg/bucketutils/bucketutils.go:97-104 | Round trip: every int64 is read back from its decimal rendering. |
| Strconv.AtoiRejects | pkg/bucketutils/bucketutils.go:97-104 | "", "-" and "1a" are rejected. |
| Strings.Split | pkg/api/api.go:50 | `strings.Split`: one more part than separators, and no part holds the separator. |
| Strings.JoinSplit | pkg/api/api.go:50-60 | Round trip: joining the parts with the separator gives the string back. |
| Strings.TrimPrefix | pkg/utils/utils.go:36 | Removes the prefix once when present, and otherwise changes nothing. |
| Strings.TrimSuffix | pkg/api/api.go:160 | Removes the suffix once when present, and otherwise changes nothing. |
| Strings.LexLeTotal | pkg/api/api.go:92 | Go's string order is total. |
| Strings.LexLeAntisymmetric | pkg/api/api.go:92 | Go's string order is antisymmetric. |
| Strings.LexLeTransitive | pkg/api/api.go:92 | Go's string order is transitive. |
| Strings.Dedup | pkg/api/api.go:166-184 | Duplicate-free, with the same members, in order of first appearance. |
| Sorting.Sort | pkg/api/api.go:92 | Sorted by the given total preorder, and a permutation of the input. |
| Sorting.SortedUnique | pkg/api/api.go:92 | Two sorted permutations of the same list under an antisymmetric order are equal, so any correct sort gives this result. |
| Sorting.FilterSorted | pkg/api/api.go:96-111 | Filtering a sorted list keeps it sorted. |

## Findings

| source | as written | input that shows it | evidently intended | confidence | as-written member | corrected member |
|---|---|---|---|---|---|---|
| pkg/utils/utils.go:35-41 | One '-' is trimmed from each end of the slug, and the 63-character cut comes after the trimming. The result can therefore start or end with '-'. | "##a" gives "-a"; "a##" gives "a-"; 62 × 'a' followed by "#b" gives 63 characters ending in '-' | The doc comment at pkg/utils/utils.go:23-28 promises a result whose first and last characters are not hyphens. That needs every leading and trailing '-' removed after the cut. | high, not executed | Utils.SluglifyKeepsHyphens | Utils.GitlabSluglifyFixed |

`Utils.GitlabSluglify` stays the model of the code as written. Nothing else
in the model depends on the slug.

## Left out

- Everything that talks to the outside: the GitLab and registry providers, the S3/MinIO client, metrics, flags, logging, `cmd/main.go` and the `Run` loops. Their results enter the model as parameters.
- Compilation and matching of arbitrary regular expressions. Patterns are capture functions; only the default release, snapshot and system patterns and the bucket test pattern are written out.
- RFC 3339 parsing of commit times. `CheckReleaseTag` takes the commit instant as an `Option<int>`, with None for a time that does not parse.
- Float rounding. `Duration.Hours()` and the `float64` settings are exact reals, so two instants a few nanoseconds apart near the day boundary are not distinguished as float64 would distinguish them.
- `unicode.ToLower` of non-ASCII letters in general. Only the outcome on the slug alphabet is modelled: every non-ASCII rune becomes '-', except U+212A (Kelvin sign) and U+0130 (capital I with dot above), which lower-case to 'k' and 'i'.
- Invalid UTF-8. Strings are sequences of characters.
- Go map iteration order. It is an input sequence. The retention results and the folders of a successful purge are proved independent of it.
- BucketCleaner.PurgeBucket: the groups are visited in first-listed order (`GroupOrder`), one of the orders Go's random map iteration may pick. On a failing purge, which folders were deleted before the failure and which error is reported depend on that order, and the model covers only this one.
- The two registry listings of internal/internal.go (one for grouping, one for the tags). They are one listing, `tagsOf`.
- Partial results returned together with an error. A failing run is modelled by its error only.
- Cancellation through `ctx.Err()` and the `listMax` page size of the bucket listing. The listing is the whole bucket.
- `GetEnv` and `GetVersion`, which read the environment and a build variable.
- internal/internal_test.go, which calls `internal.GetGitlabProjectPath` and `internal.GetNotDeletableReleaseTags`. internal/internal.go no longer defines either; their pkg/api counterparts are modelled.
- The snapshot, rare-release, `GetFormattedTags` and `CheckReleaseTag` tables of pkg/api/api_test.go. They are covered only by the general lemmas (`Retention.*`, `ApiFacts.CheckReleaseTagWithin`), not as concrete instances.
- BucketUtils.GetLastItemsGroupByID: requires a limit of at least 0, since the source slices with a negative limit and panics. It states the drop set up to ties, because `sort.Slice` leaves the order of equal ids unspecified.
- Sorting.Sort: one fixed stable insertion sort stands in for `sort.Slice`. `Sorting.SortedUnique` makes the result independent of the choice wherever the order is antisymmetric (string order); for bucket ids the claims are stated per item (`BucketRetention.LastItemsByRank`).
- ApiFacts.CheckReleaseTagWithin: stated only for tolerances up to 106751 days, the span an int64 `time.Duration` holds. Beyond that `Sub` saturates (`Clock.SubDaysSaturated`).
- Retention.WindowInDays: stated for windows up to 106751 days, for the same reason.
- ScenariosRelease.FrequentScenario: holds for every `now` from 2022-03-20 up to 9999-01-01. Outside that range the test's own fake future tag changes meaning.
- Strconv.Atoi: the range error and the syntax error of `strconv.Atoi` are both None. The source treats both alike (pkg/bucketutils/bucketutils.go:98-101).
- BucketCleaner.PurgeBucket: requires `maxSize` of at least 0, for the same slicing reason as `GetLastItemsGroupByID`. `Validate` rejects anything below 1.
