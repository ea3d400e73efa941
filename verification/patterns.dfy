/** Hand-written matchers for the default regular expressions of
    internal/internal.go. Go's RE2 syntax is used without flags, so `.` does
    not match a newline and `$` matches only at the end of the text; `\d`
    matches ASCII digits only. */
module Patterns {
  import opened Wrappers
  import opened Strings

  /** `^release-(\d{8}).*$` (flag `release.tag`): "release-", eight digits
      (captured), then anything without a newline. */
  function ReleaseTagPattern(s: string): (r: Option<string>)
    ensures r.Some? ==> |r.value| == 8 && AllDigits(r.value)
  {
    if |s| >= 16 && HasPrefix(s, "release-") && AllDigits(s[8..16]) && '\n' !in s[16..]
    then Some(s[8..16])
    else None
  }

  /** `^(\d{8})-snap$` (flag `snapshot.tag`): eight digits (captured) and
      "-snap". */
  function SnapshotTagPattern(s: string): (r: Option<string>)
    ensures r.Some? ==> |r.value| == 8 && AllDigits(r.value)
  {
    if |s| == 13 && AllDigits(s[..8]) && s[8..] == "-snap" then Some(s[..8]) else None
  }

  /** `^(main|master)$` (flag `system.tag`). */
  predicate SystemTagPattern(s: string) {
    s == "main" || s == "master"
  }

  /** `^devops/docker$` (flag `ignoreTags`). */
  predicate IgnoreRepositoryPattern(s: string) {
    s == "devops/docker"
  }

  /** `^devops/docker/mysql-.+$` (flag `snapshot.repository`). */
  predicate SnapshotRepositoryPattern(s: string) {
    |s| > 20 && HasPrefix(s, "devops/docker/mysql-") && '\n' !in s[20..]
  }
}
