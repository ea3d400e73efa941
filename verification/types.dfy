/** The dispositions of pkg/types/types.go. In Go a `TagType` is a string,
    and the classifier's "not yet assigned" value is the empty string; here
    the nine named constants are the constructors of `TagType`. The
    unassigned value does not arise: `Classify` returns a `TagType` for
    every tag. */
module Types {
  import opened Wrappers

  datatype TagType =
    | Unknown
    | BranchNotFound
    | ReleaseTagCanNotDelete
    | ReleaseTag
    | SystemTag
    | BranchStale
    | BranchNotStaled
    | SnapshotTagCanNotDelete
    | SnapshotStaled

  /** `TagType.String`: the underlying string, which is the constant's own
      name. It is never empty, so no named constant is the unassigned
      value, and `Parse` reads every disposition back from its string. */
  function String(t: TagType): (s: string)
    ensures |s| > 0
    ensures Parse(s) == Some(t)
  {
    match t
    case Unknown => "Unknown"
    case BranchNotFound => "BranchNotFound"
    case ReleaseTagCanNotDelete => "ReleaseTagCanNotDelete"
    case ReleaseTag => "ReleaseTag"
    case SystemTag => "SystemTag"
    case BranchStale => "BranchStale"
    case BranchNotStaled => "BranchNotStaled"
    case SnapshotTagCanNotDelete => "SnapshotTagCanNotDelete"
    case SnapshotStaled => "SnapshotStaled"
  }

  /** The named constant whose string is `s`, if any. */
  function Parse(s: string): (r: Option<TagType>)
    ensures s == "" ==> r.None?
  {
    if s == "Unknown" then Some(Unknown)
    else if s == "BranchNotFound" then Some(BranchNotFound)
    else if s == "ReleaseTagCanNotDelete" then Some(ReleaseTagCanNotDelete)
    else if s == "ReleaseTag" then Some(ReleaseTag)
    else if s == "SystemTag" then Some(SystemTag)
    else if s == "BranchStale" then Some(BranchStale)
    else if s == "BranchNotStaled" then Some(BranchNotStaled)
    else if s == "SnapshotTagCanNotDelete" then Some(SnapshotTagCanNotDelete)
    else if s == "SnapshotStaled" then Some(SnapshotStaled)
    else None
  }

  /** The nine constants have pairwise distinct strings. */
  lemma StringInjective(a: TagType, b: TagType)
    ensures String(a) == String(b) <==> a == b
  {
    if String(a) == String(b) {
      assert Some(a) == Parse(String(a)) == Parse(String(b)) == Some(b);
    }
  }

  /** A tag scheduled for deletion: the repository, the tag and why. */
  datatype DeleteTagInput = DeleteTagInput(repository: string, tag: string, tagType: TagType)
}
