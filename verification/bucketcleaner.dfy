/** pkg/bucketcleaner/bucketcleaner.go: configuration checks and the
    deletion plan of `PurgeBucket`.

    The S3 calls are parameters: `list(bucket, folder)` is the listing of
    the folders ("common prefixes") under `folder`, `None` when the listing
    fails; `deleteOk(bucket, folder)` tells whether the batch delete of a
    folder succeeds. The groups of `GetGroups` are visited in the order their
    first folder appears in the listing. Go visits the map in an unspecified
    order: `PurgeGroupsSelects` holds for any order of the groups, so the
    folders of a purge without errors do not depend on it, but what a
    failing purge deletes before it stops, and which error it reports, do. */
module BucketCleaner {
  import opened Wrappers
  import opened Strings
  import opened BucketUtils

  datatype BucketCleaner = BucketCleaner(pattern: string, maxSize: int, dryRun: bool)

  datatype CleanerError =
    | EmptyPattern
    | MaxSizeNotPositive
    | EmptyBucket
    | ListFailed
    | UtilsFailed(cause: BucketError)
    | GroupFailed(cause: BucketError)
    | DeleteFailed(folder: string)

  /** The configuration needs a pattern and a positive number of folders to
      keep per group. */
  function Validate(c: BucketCleaner): (r: Outcome<CleanerError>)
    ensures r == Pass <==> |c.pattern| > 0 && c.maxSize > 0
    ensures |c.pattern| == 0 ==> r == Fail(EmptyPattern)
    ensures |c.pattern| > 0 && c.maxSize <= 0 ==> r == Fail(MaxSizeNotPositive)
  {
    if |c.pattern| == 0 then Fail(EmptyPattern)
    else if c.maxSize <= 0 then Fail(MaxSizeNotPositive)
    else Pass
  }

  /** What a purge did: the folders it asked `deleteBucketFolder` to
      delete, in order, the folders actually deleted, and the error that
      stopped it, if any. */
  datatype Purge = Purge(requested: seq<string>, deleted: seq<string>, error: Option<CleanerError>)

  /** `deleteBucketFolder`: the folders deleted. In a dry run, none. */
  function DeleteBucketFolder(c: BucketCleaner, bucket: string, folder: string, deleteOk: (string, string) -> bool): (r: Result<seq<string>, CleanerError>)
    ensures c.dryRun ==> r == Success([])
    ensures !c.dryRun && deleteOk(bucket, folder) ==> r == Success([folder])
    ensures !c.dryRun && !deleteOk(bucket, folder) ==> r == Failure(DeleteFailed(folder))
  {
    if c.dryRun then Success([])
    else if deleteOk(bucket, folder) then Success([folder])
    else Failure(DeleteFailed(folder))
  }

  function Values(items: seq<BucketItem>): (r: seq<string>)
    ensures |r| == |items|
    ensures forall i :: 0 <= i < |items| ==> r[i] == items[i].value
  {
    if |items| == 0 then [] else [items[0].value] + Values(items[1..])
  }

  /** Delete the folders of `items` in order, stopping at the first failure. */
  function DeleteItems(c: BucketCleaner, bucket: string, items: seq<BucketItem>, deleteOk: (string, string) -> bool): (p: Purge)
    ensures p.error.None? ==> p.requested == Values(items)
    ensures p.error.Some? ==> |p.requested| > 0 && p.requested <= Values(items)
    ensures c.dryRun ==> p == Purge(Values(items), [], None)
    ensures !c.dryRun && p.error.None? ==> p.deleted == p.requested
    ensures !c.dryRun && p.error.Some? ==>
      && p.deleted == p.requested[..|p.requested| - 1]
      && p.error == Some(DeleteFailed(p.requested[|p.requested| - 1]))
  {
    if |items| == 0 then Purge([], [], None)
    else
      var folder := items[0].value;
      match DeleteBucketFolder(c, bucket, folder, deleteOk)
      case Failure(e) => Purge([folder], [], Some(e))
      case Success(deleted) =>
        var rest := DeleteItems(c, bucket, items[1..], deleteOk);
        assert Values(items) == [folder] + Values(items[1..]);
        Purge([folder] + rest.requested, deleted + rest.deleted, rest.error)
  }

  /** Append a later step of a purge, unless an earlier one stopped it. */
  function Then(first: Purge, second: Purge): Purge {
    if first.error.Some? then first
    else Purge(first.requested + second.requested, first.deleted + second.deleted, second.error)
  }

  /** The body of the loop over groups: for each group, delete all but its
      `maxSize` folders with the highest ids. */
  function PurgeGroups(c: BucketCleaner, b: BucketUtils, bucket: string, groups: seq<string>, deleteOk: (string, string) -> bool): (p: Purge)
    requires c.maxSize >= 0
  {
    if |groups| == 0 then Purge([], [], None)
    else
      match GetLastItemsGroupByID(b, groups[0], c.maxSize)
      case Failure(e) => Purge([], [], Some(GroupFailed(e)))
      case Success(items) =>
        Then(DeleteItems(c, bucket, items, deleteOk), PurgeGroups(c, b, bucket, groups[1..], deleteOk))
  }

  /** The groups of `b`, in the order their first folder is listed. */
  function GroupOrder(b: BucketUtils): (groups: seq<string>)
    ensures NoDup(groups)
    ensures forall g :: g in groups <==> g in GetGroups(b)
  {
    GroupsPresent(b, b.items);
    Dedup(GroupsOf(b, b.items))
  }

  function GroupsOf(b: BucketUtils, items: seq<BucketItem>): (r: seq<string>)
    ensures |r| == |items|
    ensures forall i :: 0 <= i < |items| ==> r[i] == GroupOf(b, items[i])
  {
    if |items| == 0 then [] else [GroupOf(b, items[0])] + GroupsOf(b, items[1..])
  }

  lemma {:induction false} GroupsPresent(b: BucketUtils, items: seq<BucketItem>)
    ensures forall g :: CountGroup(b, items, g) > 0 <==> g in GroupsOf(b, items)
  {
    if |items| > 0 {
      GroupsPresent(b, items[1..]);
      assert GroupsOf(b, items) == [GroupOf(b, items[0])] + GroupsOf(b, items[1..]);
    }
  }

  /** The listed folders as fresh bucket items. */
  function Listed(prefixes: seq<string>): (items: seq<BucketItem>)
    ensures Values(items) == prefixes
  {
    if |prefixes| == 0 then [] else [NewItem(prefixes[0])] + Listed(prefixes[1..])
  }

  /** `PurgeBucket`: an empty bucket name is rejected before anything is
      listed; then the listed folders are grouped by `c.pattern` and every
      group loses all but its `c.maxSize` folders with the highest ids. The
      source panics on a negative `maxSize`, which `Validate` rules out. */
  function PurgeBucket(c: BucketCleaner, bucket: string, folder: string, list: (string, string) -> Option<seq<string>>,
                       compile: string -> Option<Regexp>, deleteOk: (string, string) -> bool): (p: Purge)
    requires c.maxSize >= 0
    ensures |bucket| == 0 ==> p == Purge([], [], Some(EmptyBucket))
    ensures |bucket| > 0 && list(bucket, folder).None? ==> p == Purge([], [], Some(ListFailed))
    ensures c.dryRun ==> p.deleted == []
  {
    if |bucket| == 0 then Purge([], [], Some(EmptyBucket))
    else
      match list(bucket, folder)
      case None => Purge([], [], Some(ListFailed))
      case Some(prefixes) =>
        match NewBucketUtils(c.pattern, Listed(prefixes), compile)
        case Failure(e) => Purge([], [], Some(UtilsFailed(e)))
        case Success(b) =>
          DryRunDeletesNothing(c, b, bucket, GroupOrder(b), deleteOk);
          PurgeGroups(c, b, bucket, GroupOrder(b), deleteOk)
  }

  lemma {:induction false} DryRunDeletesNothing(c: BucketCleaner, b: BucketUtils, bucket: string, groups: seq<string>, deleteOk: (string, string) -> bool)
    requires c.maxSize >= 0
    ensures c.dryRun ==> PurgeGroups(c, b, bucket, groups, deleteOk).deleted == []
  {
    if |groups| > 0 {
      DryRunDeletesNothing(c, b, bucket, groups[1..], deleteOk);
    }
  }

  /** The folders a purge of `groups` selects: those `GetLastItemsGroupByID`
      returns for one of the groups. */
  ghost predicate Selected(b: BucketUtils, maxSize: int, groups: seq<string>, folder: string)
    requires maxSize >= 0
  {
    exists g, x :: g in groups && GetLastItemsGroupByID(b, g, maxSize).Success?
      && x in GetLastItemsGroupByID(b, g, maxSize).value && x.value == folder
  }

  lemma ValuesMember(items: seq<BucketItem>, v: string)
    ensures v in Values(items) <==> exists x :: x in items && x.value == v
  {
    if v in Values(items) {
      var i :| 0 <= i < |items| && Values(items)[i] == v;
      assert items[i] in items;
    }
  }

  /** A run over `groups` that meets no error asks to delete exactly the
      folders selected for those groups. */
  lemma {:induction false} PurgeGroupsSelects(c: BucketCleaner, b: BucketUtils, bucket: string, groups: seq<string>, deleteOk: (string, string) -> bool)
    requires c.maxSize >= 0
    requires PurgeGroups(c, b, bucket, groups, deleteOk).error.None?
    ensures forall v :: v in PurgeGroups(c, b, bucket, groups, deleteOk).requested <==> Selected(b, c.maxSize, groups, v)
  {
    if |groups| > 0 {
      var items := GetLastItemsGroupByID(b, groups[0], c.maxSize).value;
      PurgeGroupsSelects(c, b, bucket, groups[1..], deleteOk);
      var p := PurgeGroups(c, b, bucket, groups, deleteOk);
      var rest := PurgeGroups(c, b, bucket, groups[1..], deleteOk);
      assert p.requested == Values(items) + rest.requested;
      forall v ensures v in p.requested <==> Selected(b, c.maxSize, groups, v) {
        ValuesMember(items, v);
        if Selected(b, c.maxSize, groups, v) {
          var g, x :| g in groups && GetLastItemsGroupByID(b, g, c.maxSize).Success?
            && x in GetLastItemsGroupByID(b, g, c.maxSize).value && x.value == v;
          if g != groups[0] {
            assert g in groups[1..];
            assert Selected(b, c.maxSize, groups[1..], v);
          }
        }
        if v in rest.requested {
          assert Selected(b, c.maxSize, groups[1..], v);
          var g, x :| g in groups[1..] && GetLastItemsGroupByID(b, g, c.maxSize).Success?
            && x in GetLastItemsGroupByID(b, g, c.maxSize).value && x.value == v;
          assert g in groups;
        }
      }
    }
  }

  /** A purge that meets no error asks to delete exactly the folders that
      `GetLastItemsGroupByID(group, maxSize)` returns for some group of the
      listing, so the order the groups are visited in does not matter; and,
      outside a dry run, it deletes each of them. */
  lemma PurgeSucceeds(c: BucketCleaner, bucket: string, folder: string, list: (string, string) -> Option<seq<string>>,
                      compile: string -> Option<Regexp>, deleteOk: (string, string) -> bool)
    requires c.maxSize >= 0
    requires PurgeBucket(c, bucket, folder, list, compile, deleteOk).error.None?
    ensures |bucket| > 0 && list(bucket, folder).Some?
    ensures NewBucketUtils(c.pattern, Listed(list(bucket, folder).value), compile).Success?
    ensures var u := NewBucketUtils(c.pattern, Listed(list(bucket, folder).value), compile).value;
      forall v :: v in PurgeBucket(c, bucket, folder, list, compile, deleteOk).requested <==>
        exists g, x :: g in GetGroups(u) && GetLastItemsGroupByID(u, g, c.maxSize).Success?
          && x in GetLastItemsGroupByID(u, g, c.maxSize).value && x.value == v
    ensures var p := PurgeBucket(c, bucket, folder, list, compile, deleteOk);
      !c.dryRun ==> p.deleted == p.requested
  {
    var u := NewBucketUtils(c.pattern, Listed(list(bucket, folder).value), compile).value;
    assert PurgeBucket(c, bucket, folder, list, compile, deleteOk) == PurgeGroups(c, u, bucket, GroupOrder(u), deleteOk);
    PurgeGroupsSelects(c, u, bucket, GroupOrder(u), deleteOk);
    if !c.dryRun {
      PurgeGroupsDeletes(c, u, bucket, GroupOrder(u), deleteOk);
    }
  }

  lemma {:induction false} PurgeGroupsDeletes(c: BucketCleaner, b: BucketUtils, bucket: string, groups: seq<string>, deleteOk: (string, string) -> bool)
    requires c.maxSize >= 0 && !c.dryRun
    requires PurgeGroups(c, b, bucket, groups, deleteOk).error.None?
    ensures PurgeGroups(c, b, bucket, groups, deleteOk).deleted == PurgeGroups(c, b, bucket, groups, deleteOk).requested
  {
    if |groups| > 0 {
      PurgeGroupsDeletes(c, b, bucket, groups[1..], deleteOk);
    }
  }
}
