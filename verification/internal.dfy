/** The pure decisions of internal/internal.go: which registry repositories
    form which GitLab project, how each tag of a project is classified, which
    tags are scheduled for deletion, and which snapshot tags are.

    The registry, GitLab and logging are left out: the registry's tag
    listing is a parameter `tagsOf` (a listing error reads as no tags, as
    the source ignores it), and what GitLab reports about a project is a
    parameter `lookup`. A Go map of tags is the sequence of its keys; the
    order of the deletion list is not part of any contract here. */
module Internal {
  import opened Wrappers
  import opened Strings
  import opened Types
  import opened Utils
  import Api
  import Patterns
  import ApiFacts

  /** What `gitlab.GetProjectBranches` reports about a branch, keyed by the
      branch's slug: only whether its last commit is stale matters here. */
  datatype Branch = Branch(staled: bool)

  /** The flags the decisions read, with the regular expressions as
      matchers (`Capture` for the dated ones). */
  datatype Config = Config(
    releaseTagRegexp: Api.Capture,
    systemTagRegexp: string -> bool,
    ignoreRepositoryRegexp: string -> bool,
    snapshotRepositoryRegexp: string -> bool,
    snapshotTagRegexp: Api.Capture,
    releaseNotDeleteDays: real,
    minNotDeleteReleaseTags: int,
    snapshotNotDeleteDays: real,
    minNotDeleteSnapshotTags: int,
    archs: seq<string>)

  /** `defaultNotDeleteDays` and `defaultMinNotDeleteTags`. */
  const DefaultNotDeleteDays: real := 10.0
  const DefaultMinNotDeleteTags: int := 3

  /** The flags at their defaults. */
  const DefaultConfig: Config := Config(
    Patterns.ReleaseTagPattern,
    Patterns.SystemTagPattern,
    Patterns.IgnoreRepositoryPattern,
    Patterns.SnapshotRepositoryPattern,
    Patterns.SnapshotTagPattern,
    DefaultNotDeleteDays,
    DefaultMinNotDeleteTags,
    DefaultNotDeleteDays,
    DefaultMinNotDeleteTags,
    Api.DefaultArchs)

  // ---------------------------------------------------------------------
  // Repositories grouped by GitLab project.
  // ---------------------------------------------------------------------

  /** The GitLab project a registry repository belongs to: `None` when the
      path conversion fails or the project is ignored. */
  function ProjectOf(cfg: Config, repo: string): Option<string> {
    match Api.GetGitlabProjectPath(repo)
    case Failure(_) => None
    case Success(gitlabProjectPath) =>
      if cfg.ignoreRepositoryRegexp(gitlabProjectPath) then None else Some(gitlabProjectPath)
  }

  /** Any assignment of repositories to projects; the grouping below is
      stated for every one, and used with `ProjectOf`. */
  type Locator = string -> Option<string>

  function Locate(cfg: Config): Locator {
    repo => ProjectOf(cfg, repo)
  }

  /** Whether a repository belongs to `project`. */
  function InProject(locate: Locator, project: string): string -> bool {
    repo => locate(repo) == Some(project)
  }

  /** The repositories of `project`, in their order. */
  function ProjectRepos(repositories: seq<string>, locate: Locator, project: string): (r: seq<string>)
    ensures forall repo :: repo in r <==> repo in repositories && locate(repo) == Some(project)
  {
    Filter(repositories, InProject(locate, project))
  }

  /** The first loop of `getStaleDockerTags`: a map from project path to
      the repositories of that project, each appended in turn. */
  function Group(repositories: seq<string>, locate: Locator): map<string, seq<string>>
    decreases |repositories|
  {
    if |repositories| == 0 then map[]
    else
      var m := Group(repositories[..|repositories| - 1], locate);
      var repo := repositories[|repositories| - 1];
      match locate(repo)
      case None => m
      case Some(gitlabProjectPath) =>
        if gitlabProjectPath !in m then m[gitlabProjectPath := [repo]]
        else m[gitlabProjectPath := m[gitlabProjectPath] + [repo]]
  }

  /** A project has a group exactly when one of its repositories is listed,
      and its group is all of its repositories in their order. */
  lemma {:induction false} GroupExact(repositories: seq<string>, locate: Locator, project: string)
    ensures var m := Group(repositories, locate);
      && (project in m <==> ProjectRepos(repositories, locate, project) != [])
      && (project in m ==> m[project] == ProjectRepos(repositories, locate, project))
    decreases |repositories|
  {
    if |repositories| > 0 {
      var init := repositories[..|repositories| - 1];
      var repo := repositories[|repositories| - 1];
      assert repositories == init + [repo];
      GroupExact(init, locate, project);
      FilterAppend(init, [repo], InProject(locate, project));
      if locate(repo) == Some(project) {
        assert Filter([repo], InProject(locate, project)) == [repo];
      } else {
        assert Filter([repo], InProject(locate, project)) == [];
      }
    }
  }

  /** The repositories grouped by GitLab project. */
  function GroupRepositories(cfg: Config, repositories: seq<string>): map<string, seq<string>> {
    Group(repositories, Locate(cfg))
  }

  /** Every repository lands in the group of its project and in no other;
      repositories whose conversion fails or whose project is ignored land
      nowhere, and a project has a group exactly when it has a repository. */
  lemma RepositoryGroup(cfg: Config, repositories: seq<string>, repo: string, project: string)
    ensures var m := GroupRepositories(cfg, repositories);
      && (project in m <==> exists r :: r in repositories && ProjectOf(cfg, r) == Some(project))
      && (project in m ==> (repo in m[project] <==> repo in repositories && ProjectOf(cfg, repo) == Some(project)))
  {
    GroupExact(repositories, Locate(cfg), project);
    var members := ProjectRepos(repositories, Locate(cfg), project);
    if members != [] {
      assert members[0] in members;
    }
  }

  /** The project paths of the listed repositories, in listing order. */
  function Paths(repositories: seq<string>, locate: Locator): seq<string> {
    if |repositories| == 0 then []
    else
      match locate(repositories[0])
      case None => Paths(repositories[1..], locate)
      case Some(p) => [p] + Paths(repositories[1..], locate)
  }

  lemma {:induction false} PathsMember(repositories: seq<string>, locate: Locator, p: string) returns (repo: string)
    requires p in Paths(repositories, locate)
    ensures repo in repositories && locate(repo) == Some(p)
  {
    if locate(repositories[0]) == Some(p) {
      repo := repositories[0];
    } else {
      repo := PathsMember(repositories[1..], locate, p);
    }
  }

  lemma {:induction false} PathsHas(repositories: seq<string>, locate: Locator, repo: string)
    requires repo in repositories && locate(repo).Some?
    ensures locate(repo).value in Paths(repositories, locate)
  {
    if repositories[0] != repo {
      PathsHas(repositories[1..], locate, repo);
    }
  }

  /** The projects of the grouping, each once, in order of first
      appearance: the order they are visited in. */
  function ProjectOrder(repositories: seq<string>, locate: Locator): (r: seq<string>)
    ensures NoDup(r)
    ensures forall p :: p in r <==> p in Group(repositories, locate)
  {
    var paths := Paths(repositories, locate);
    forall p ensures p in paths <==> p in Group(repositories, locate) {
      GroupExact(repositories, locate, p);
      var members := ProjectRepos(repositories, locate, p);
      if p in paths {
        var repo := PathsMember(repositories, locate, p);
        assert repo in members;
      } else if members != [] {
        assert members[0] in members;
        PathsHas(repositories, locate, members[0]);
      }
    }
    Dedup(paths)
  }

  // ---------------------------------------------------------------------
  // Classification.
  // ---------------------------------------------------------------------

  /** The branch step: the disposition the branch named by the stripped tag
      gives. */
  function BranchDisposition(branches: map<string, Branch>, tagWithoutArch: string): TagType {
    if tagWithoutArch in branches then
      if branches[tagWithoutArch].staled then BranchStale else BranchNotStaled
    else BranchNotFound
  }

  /** The classification loop of `getStaleDockerTags` for one tag: the
      branch step, overridden by a release-pattern match on the full tag,
      overridden by a system-pattern match on the stripped tag. `keep` is
      the project's keep-set. The branch step always assigns a disposition,
      so the fallback to `Unknown` is never taken, and no snapshot
      disposition is given. */
  function Classify(cfg: Config, branches: map<string, Branch>, keep: seq<string>, tag: string): (r: TagType)
    ensures r != Unknown && r != SnapshotStaled && r != SnapshotTagCanNotDelete
  {
    var tagWithoutArch := Api.GetTagWithoutArch(tag, cfg.archs);
    var byBranch := BranchDisposition(branches, tagWithoutArch);
    var byRelease :=
      if cfg.releaseTagRegexp(tag).Some? then
        if StringInSlice(tag, keep) then ReleaseTagCanNotDelete else ReleaseTag
      else byBranch;
    if cfg.systemTagRegexp(tagWithoutArch) then SystemTag else byRelease
  }

  /** Each disposition and exactly when `Classify` gives it. */
  lemma ClassifyCases(cfg: Config, branches: map<string, Branch>, keep: seq<string>, tag: string)
    ensures var w := Api.GetTagWithoutArch(tag, cfg.archs);
      var system := cfg.systemTagRegexp(w);
      var release := cfg.releaseTagRegexp(tag).Some?;
      var r := Classify(cfg, branches, keep, tag);
      && (r == SystemTag <==> system)
      && (r == ReleaseTagCanNotDelete <==> !system && release && tag in keep)
      && (r == ReleaseTag <==> !system && release && tag !in keep)
      && (r == BranchStale <==> !system && !release && w in branches && branches[w].staled)
      && (r == BranchNotStaled <==> !system && !release && w in branches && !branches[w].staled)
      && (r == BranchNotFound <==> !system && !release && w !in branches)
  {
    if tag in keep {
      var i :| 0 <= i < |keep| && keep[i] == tag;
    }
  }

  /** The dispositions `getStaleDockerTags` schedules for deletion. */
  predicate Scheduled(t: TagType) {
    t == ReleaseTag || t == BranchNotFound || t == BranchStale
  }

  /** A tag is scheduled exactly when it is not a system tag, and either it
      is a release tag outside the keep-set or it is no release tag and its
      branch is missing or stale. */
  lemma ScheduledIff(cfg: Config, branches: map<string, Branch>, keep: seq<string>, tag: string)
    ensures var w := Api.GetTagWithoutArch(tag, cfg.archs);
      Scheduled(Classify(cfg, branches, keep, tag)) <==>
        && !cfg.systemTagRegexp(w)
        && (cfg.releaseTagRegexp(tag).Some? ==> tag !in keep)
        && (cfg.releaseTagRegexp(tag).None? ==> w !in branches || branches[w].staled)
  {
    ClassifyCases(cfg, branches, keep, tag);
  }

  // ---------------------------------------------------------------------
  // Deletion selection for one project.
  // ---------------------------------------------------------------------

  /** Every tag of the listed repositories, in listing order. */
  function AllTags(dockerRepos: seq<string>, tagsOf: string -> seq<string>): seq<string> {
    if |dockerRepos| == 0 then [] else tagsOf(dockerRepos[0]) + AllTags(dockerRepos[1..], tagsOf)
  }

  lemma {:induction false} AllTagsMembers(dockerRepos: seq<string>, tagsOf: string -> seq<string>, tag: string)
    ensures tag in AllTags(dockerRepos, tagsOf) <==> exists repo :: repo in dockerRepos && tag in tagsOf(repo)
  {
    if |dockerRepos| > 0 {
      AllTagsMembers(dockerRepos[1..], tagsOf, tag);
      if tag in tagsOf(dockerRepos[0]) {
        assert dockerRepos[0] in dockerRepos;
      }
      if exists repo :: repo in dockerRepos[1..] && tag in tagsOf(repo) {
        var repo :| repo in dockerRepos[1..] && tag in tagsOf(repo);
        assert repo in dockerRepos;
      }
      if exists repo :: repo in dockerRepos && tag in tagsOf(repo) {
        var repo :| repo in dockerRepos && tag in tagsOf(repo);
        if repo != dockerRepos[0] {
          assert repo in dockerRepos[1..];
        }
      }
    }
  }

  /** `projectAllDockerTags`: the tag names of all the project's
      repositories, each once. */
  function ProjectTags(dockerRepos: seq<string>, tagsOf: string -> seq<string>): (r: seq<string>)
    ensures NoDup(r)
    ensures forall tag :: tag in r <==> exists repo :: repo in dockerRepos && tag in tagsOf(repo)
  {
    forall tag ensures tag in AllTags(dockerRepos, tagsOf) <==> exists repo :: repo in dockerRepos && tag in tagsOf(repo) {
      AllTagsMembers(dockerRepos, tagsOf, tag);
    }
    Dedup(AllTags(dockerRepos, tagsOf))
  }

  /** The project's keep-set: `GetNotDeletableTags` with the release flags
      over all the project's tag names. */
  function ProjectKeep(cfg: Config, now: int, dockerRepos: seq<string>, tagsOf: string -> seq<string>): (r: seq<string>)
    ensures forall tag :: tag in r ==>
      && Api.IsReleaseTag(cfg.releaseTagRegexp, now, tag)
      && exists repo :: repo in dockerRepos && tag in tagsOf(repo)
  {
    var input := Api.RetentionInput(cfg.releaseTagRegexp, cfg.releaseNotDeleteDays, cfg.minNotDeleteReleaseTags);
    Api.GetNotDeletableTags(input, cfg.archs, now, ProjectTags(dockerRepos, tagsOf))
  }

  /** The deletions `ScheduleProject` lists for one repository. */
  function ScheduleRepo(repo: string, tags: seq<string>, disposition: string -> TagType): (r: seq<DeleteTagInput>)
    ensures forall e :: e in r <==>
      && e.repository == repo && e.tag in tags
      && e.tagType == disposition(e.tag) && Scheduled(e.tagType)
  {
    if |tags| == 0 then []
    else
      var tagType := disposition(tags[0]);
      var here := if Scheduled(tagType) then [DeleteTagInput(repo, tags[0], tagType)] else [];
      here + ScheduleRepo(repo, tags[1..], disposition)
  }

  /** The last loop of `getStaleDockerTags` for one project: every tag of
      every repository whose disposition is scheduled. */
  function ScheduleProject(dockerRepos: seq<string>, tagsOf: string -> seq<string>, disposition: string -> TagType): seq<DeleteTagInput> {
    if |dockerRepos| == 0 then []
    else ScheduleRepo(dockerRepos[0], tagsOf(dockerRepos[0]), disposition) + ScheduleProject(dockerRepos[1..], tagsOf, disposition)
  }

  lemma {:induction false} ScheduleProjectMembers(dockerRepos: seq<string>, tagsOf: string -> seq<string>, disposition: string -> TagType, e: DeleteTagInput)
    ensures e in ScheduleProject(dockerRepos, tagsOf, disposition) <==>
      && e.repository in dockerRepos && e.tag in tagsOf(e.repository)
      && e.tagType == disposition(e.tag) && Scheduled(e.tagType)
  {
    if |dockerRepos| > 0 {
      ScheduleProjectMembers(dockerRepos[1..], tagsOf, disposition, e);
      if e.repository in dockerRepos && e.repository != dockerRepos[0] {
        assert e.repository in dockerRepos[1..];
      }
    }
  }

  /** One project's share of `getStaleDockerTags`, given its branches. */
  function StaleProjectTags(cfg: Config, now: int, branches: map<string, Branch>, dockerRepos: seq<string>, tagsOf: string -> seq<string>): seq<DeleteTagInput> {
    var keep := ProjectKeep(cfg, now, dockerRepos, tagsOf);
    ScheduleProject(dockerRepos, tagsOf, tag => Classify(cfg, branches, keep, tag))
  }

  /** A deletion of a project is exactly a tag of one of its repositories
      whose disposition, against the one keep-set of the project, is
      scheduled. */
  lemma StaleProjectTagsMembers(cfg: Config, now: int, branches: map<string, Branch>, dockerRepos: seq<string>, tagsOf: string -> seq<string>, e: DeleteTagInput)
    ensures e in StaleProjectTags(cfg, now, branches, dockerRepos, tagsOf) <==>
      && e.repository in dockerRepos && e.tag in tagsOf(e.repository)
      && e.tagType == Classify(cfg, branches, ProjectKeep(cfg, now, dockerRepos, tagsOf), e.tag)
      && Scheduled(e.tagType)
  {
    var keep := ProjectKeep(cfg, now, dockerRepos, tagsOf);
    ScheduleProjectMembers(dockerRepos, tagsOf, tag => Classify(cfg, branches, keep, tag), e);
  }

  /** The keep-set is computed once per project, so a tag scheduled in one
      repository of the project is scheduled, for the same reason, in every
      other repository of the project that has it. */
  lemma SameDispositionAcrossRepos(cfg: Config, now: int, branches: map<string, Branch>, dockerRepos: seq<string>, tagsOf: string -> seq<string>, e: DeleteTagInput, other: string)
    requires e in StaleProjectTags(cfg, now, branches, dockerRepos, tagsOf)
    requires other in dockerRepos && e.tag in tagsOf(other)
    ensures DeleteTagInput(other, e.tag, e.tagType) in StaleProjectTags(cfg, now, branches, dockerRepos, tagsOf)
  {
    StaleProjectTagsMembers(cfg, now, branches, dockerRepos, tagsOf, e);
    StaleProjectTagsMembers(cfg, now, branches, dockerRepos, tagsOf, DeleteTagInput(other, e.tag, e.tagType));
  }

  /** A tag of the keep-set is never scheduled for deletion: it matches the
      release pattern, so it is either protected as a kept release tag or a
      system tag. */
  lemma KeptNeverScheduled(cfg: Config, now: int, branches: map<string, Branch>, dockerRepos: seq<string>, tagsOf: string -> seq<string>, tag: string)
    requires tag in ProjectKeep(cfg, now, dockerRepos, tagsOf)
    ensures !Scheduled(Classify(cfg, branches, ProjectKeep(cfg, now, dockerRepos, tagsOf), tag))
  {
    ClassifyCases(cfg, branches, ProjectKeep(cfg, now, dockerRepos, tagsOf), tag);
    assert cfg.releaseTagRegexp(tag).Some?;
  }

  // ---------------------------------------------------------------------
  // getStaleDockerTags.
  // ---------------------------------------------------------------------

  /** What GitLab reports for a project path: no such project (the project
      is skipped), a failure to list its branches (the whole run fails), or
      its branches. */
  datatype ProjectLookup = ProjectNotFound | BranchesFailed | Branches(branches: map<string, Branch>)

  datatype StaleError = BranchesUnavailable(project: string)

  /** The projects visited in turn; the first whose branches cannot be
      listed ends the walk with an error. */
  function StaleProjects(cfg: Config, now: int, groups: map<string, seq<string>>, projects: seq<string>, lookup: string -> ProjectLookup, tagsOf: string -> seq<string>): (r: Result<seq<DeleteTagInput>, StaleError>)
    requires forall p :: p in projects ==> p in groups
  {
    if |projects| == 0 then Success([])
    else
      var p := projects[0];
      match lookup(p)
      case ProjectNotFound => StaleProjects(cfg, now, groups, projects[1..], lookup, tagsOf)
      case BranchesFailed => Failure(BranchesUnavailable(p))
      case Branches(branches) =>
        var rest :- StaleProjects(cfg, now, groups, projects[1..], lookup, tagsOf);
        Success(StaleProjectTags(cfg, now, branches, groups[p], tagsOf) + rest)
  }

  lemma {:induction false} StaleProjectsResult(cfg: Config, now: int, groups: map<string, seq<string>>, projects: seq<string>, lookup: string -> ProjectLookup, tagsOf: string -> seq<string>, e: DeleteTagInput)
    requires forall p :: p in projects ==> p in groups
    ensures var r := StaleProjects(cfg, now, groups, projects, lookup, tagsOf);
      && (r.Failure? <==> exists p :: p in projects && lookup(p).BranchesFailed?)
      && (r.Failure? ==> r.error.project in projects && lookup(r.error.project).BranchesFailed?)
      && (r.Success? ==> (e in r.value <==>
            exists p :: p in projects && lookup(p).Branches? && e in StaleProjectTags(cfg, now, lookup(p).branches, groups[p], tagsOf)))
  {
    if |projects| > 0 {
      StaleProjectsResult(cfg, now, groups, projects[1..], lookup, tagsOf, e);
      var p := projects[0];
      assert forall q :: q in projects <==> q == p || q in projects[1..];
    }
  }

  /** `getStaleDockerTags`: group the repositories by project, then
      schedule each project's deletions. */
  function StaleDockerTags(cfg: Config, now: int, repositories: seq<string>, lookup: string -> ProjectLookup, tagsOf: string -> seq<string>): Result<seq<DeleteTagInput>, StaleError> {
    var groups := GroupRepositories(cfg, repositories);
    StaleProjects(cfg, now, groups, ProjectOrder(repositories, Locate(cfg)), lookup, tagsOf)
  }

  /** The run fails exactly when the branches of some grouped project cannot
      be listed. Otherwise a deletion is exactly a scheduled tag of a
      repository of a project GitLab knows, classified against that
      project's branches and keep-set; in particular it is never a system
      tag and never a kept release tag. */
  lemma StaleDockerTagsResult(cfg: Config, now: int, repositories: seq<string>, lookup: string -> ProjectLookup, tagsOf: string -> seq<string>, e: DeleteTagInput)
    ensures var groups := GroupRepositories(cfg, repositories);
      var r := StaleDockerTags(cfg, now, repositories, lookup, tagsOf);
      && (r.Failure? <==> exists p :: p in groups && lookup(p).BranchesFailed?)
      && (r.Success? ==> (e in r.value <==>
            exists p :: p in groups && lookup(p).Branches? &&
              var branches := lookup(p).branches;
              && e.repository in groups[p] && e.tag in tagsOf(e.repository)
              && e.tagType == Classify(cfg, branches, ProjectKeep(cfg, now, groups[p], tagsOf), e.tag)
              && Scheduled(e.tagType)))
  {
    var groups := GroupRepositories(cfg, repositories);
    var projects := ProjectOrder(repositories, Locate(cfg));
    StaleProjectsResult(cfg, now, groups, projects, lookup, tagsOf, e);
    forall p | p in groups && lookup(p).Branches? {
      StaleProjectTagsMembers(cfg, now, lookup(p).branches, groups[p], tagsOf, e);
    }
  }

  // ---------------------------------------------------------------------
  // getStaledSnashotsTags.
  // ---------------------------------------------------------------------

  /** The keep-set of one snapshot repository: `GetNotDeletableTags` with
      the snapshot flags over its tag names. */
  function SnapshotKeep(cfg: Config, now: int, tags: seq<string>): (r: seq<string>)
    ensures forall tag :: tag in r ==> tag in tags && Api.IsReleaseTag(cfg.snapshotTagRegexp, now, tag)
  {
    var input := Api.RetentionInput(cfg.snapshotTagRegexp, cfg.snapshotNotDeleteDays, cfg.minNotDeleteSnapshotTags);
    Api.GetNotDeletableTags(input, cfg.archs, now, Dedup(tags))
  }

  /** Every tag starts as `SnapshotStaled`; the kept ones become
      `SnapshotTagCanNotDelete`. */
  function SnapshotDisposition(keep: seq<string>, tag: string): TagType {
    if StringInSlice(tag, keep) then SnapshotTagCanNotDelete else SnapshotStaled
  }

  /** One snapshot repository: its tags still `SnapshotStaled`. */
  function SnapshotRepoTags(repo: string, tags: seq<string>, keep: seq<string>): (r: seq<DeleteTagInput>)
    ensures forall e :: e in r <==>
      e.repository == repo && e.tag in tags && e.tag !in keep && e.tagType == SnapshotStaled
  {
    if |tags| == 0 then []
    else
      var tagType := SnapshotDisposition(keep, tags[0]);
      var here := if tagType == SnapshotStaled then [DeleteTagInput(repo, tags[0], tagType)] else [];
      here + SnapshotRepoTags(repo, tags[1..], keep)
  }

  /** `getStaledSnashotsTags`: every repository matching the snapshot
      pattern, each with its own keep-set. */
  function StaledSnapshotTags(cfg: Config, now: int, repositories: seq<string>, tagsOf: string -> seq<string>): seq<DeleteTagInput> {
    if |repositories| == 0 then []
    else
      var repo := repositories[0];
      var here :=
        if cfg.snapshotRepositoryRegexp(repo) then
          SnapshotRepoTags(repo, Dedup(tagsOf(repo)), SnapshotKeep(cfg, now, tagsOf(repo)))
        else [];
      here + StaledSnapshotTags(cfg, now, repositories[1..], tagsOf)
  }

  /** A snapshot deletion is exactly a tag of a listed snapshot repository
      that is not in that repository's keep-set. */
  lemma {:induction false} StaledSnapshotTagsMembers(cfg: Config, now: int, repositories: seq<string>, tagsOf: string -> seq<string>, e: DeleteTagInput)
    ensures e in StaledSnapshotTags(cfg, now, repositories, tagsOf) <==>
      && e.repository in repositories && cfg.snapshotRepositoryRegexp(e.repository)
      && e.tag in tagsOf(e.repository)
      && e.tag !in SnapshotKeep(cfg, now, tagsOf(e.repository))
      && e.tagType == SnapshotStaled
  {
    if |repositories| > 0 {
      StaledSnapshotTagsMembers(cfg, now, repositories[1..], tagsOf, e);
      if e.repository in repositories && e.repository != repositories[0] {
        assert e.repository in repositories[1..];
      }
    }
  }

  /** A tag of a snapshot repository that does not match the snapshot
      pattern at all is deleted too. */
  lemma UnmatchedSnapshotDeleted(cfg: Config, now: int, repositories: seq<string>, tagsOf: string -> seq<string>, repo: string, tag: string)
    requires repo in repositories && cfg.snapshotRepositoryRegexp(repo)
    requires tag in tagsOf(repo) && cfg.snapshotTagRegexp(tag).None?
    ensures DeleteTagInput(repo, tag, SnapshotStaled) in StaledSnapshotTags(cfg, now, repositories, tagsOf)
  {
    StaledSnapshotTagsMembers(cfg, now, repositories, tagsOf, DeleteTagInput(repo, tag, SnapshotStaled));
    Api.GetReleaseTagErrors(cfg.snapshotTagRegexp, now, tag);
  }

  // ---------------------------------------------------------------------
  // The default flags.
  // ---------------------------------------------------------------------

  /** With the default flags, "main" and "master", bare or with an arch
      suffix, are system tags whatever their branches and the keep-set. */
  lemma DefaultSystemTags(branches: map<string, Branch>, keep: seq<string>, name: string, suffix: string)
    requires name == "main" || name == "master"
    requires suffix == "" || suffix == "-amd64" || suffix == "-arm64"
    ensures Classify(DefaultConfig, branches, keep, name + suffix) == SystemTag
  {
    DefaultStrip(name, suffix);
  }

  lemma DefaultStrip(name: string, suffix: string)
    requires name == "main" || name == "master"
    requires suffix == "" || suffix == "-amd64" || suffix == "-arm64"
    ensures Api.GetTagWithoutArch(name + suffix, Api.DefaultArchs) == name
  {
    assert name[0] == 'm';
    if suffix == "-amd64" {
      StripAmd64(name);
    } else if suffix == "-arm64" {
      StripArm64(name);
    } else {
      assert name + suffix == name;
      StripBare(name);
    }
  }

  /** A name that does not itself end in an arch suffix. */
  predicate NoArchEnd(name: string) {
    |name| < 6 || name[|name| - 6] != '-'
  }

  lemma StripBare(name: string)
    requires NoArchEnd(name)
    ensures Api.GetTagWithoutArch(name, Api.DefaultArchs) == name
  {
    ApiFacts.StripDefault(name);
    if |name| >= 6 {
      assert name[|name| - 6..][0] == name[|name| - 6];
    }
  }

  lemma StripAmd64(name: string)
    requires NoArchEnd(name)
    ensures Api.GetTagWithoutArch(name + "-amd64", Api.DefaultArchs) == name
  {
    var tag := name + "-amd64";
    ApiFacts.StripDefault(tag);
    assert tag[|tag| - 6..] == "-amd64" && tag[..|tag| - 6] == name;
    if |name| >= 6 {
      assert name[|name| - 6..][0] == name[|name| - 6];
    }
  }

  lemma StripArm64(name: string)
    requires NoArchEnd(name)
    ensures Api.GetTagWithoutArch(name + "-arm64", Api.DefaultArchs) == name
  {
    var tag := name + "-arm64";
    ApiFacts.StripDefault(tag);
    assert tag[|tag| - 6..] == "-arm64" && tag[..|tag| - 6] == name;
    assert tag[|tag| - 6..] != "-amd64" by {
      assert tag[|tag| - 4] == 'r';
    }
  }

}
