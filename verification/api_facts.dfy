/** Facts about the helpers of pkg/api/api.go that relate them to the
    default patterns and to plain arithmetic. */
module ApiFacts {
  import opened Wrappers
  import opened Strings
  import opened Clock
  import opened Api
  import opened Patterns

  /** The CI gate in integer terms: for a tag the parser accepts and a
      tolerance of at most 106751 days, the check passes exactly when the
      commit instant is within `delta` whole days (of 24 hours) of midnight
      of the tag's date, either way. */
  lemma CheckReleaseTagWithin(re: Capture, now: int, tagName: string, commit: int, delta: int)
    requires IsReleaseTag(re, now, tagName)
    requires 0 <= delta <= MaxDurationDays
    ensures CheckReleaseTag(re, now, tagName, Some(commit), delta).Pass? <==>
      -delta * NanosPerDay <= commit - DayStart(TagDay(re, now, tagName)) <= delta * NanosPerDay
  {
    var start := DayStart(TagDay(re, now, tagName));
    var x := commit - start;
    var days := RealAbs(DurationDays(Sub(commit, start)));
    if MinDuration <= x <= MaxDuration {
      assert Sub(commit, start) == x;
      ScaledCompare(if x < 0 then -x else x, delta);
      assert days == (if x < 0 then -x else x) as real / NanosPerDay as real;
    } else {
      assert days >= MaxDuration as real / NanosPerDay as real;
      assert MaxDuration > (MaxDurationDays + 1) * NanosPerDay - NanosPerDay;
      assert MaxDuration as real / NanosPerDay as real > MaxDurationDays as real;
    }
  }

  /** `n / 86400e9 > delta` on reals is `n > delta * 86400e9` on integers. */
  lemma ScaledCompare(n: int, delta: int)
    ensures n as real / NanosPerDay as real > delta as real <==> n > delta * NanosPerDay
  {
    var q := n as real / NanosPerDay as real;
    assert q * NanosPerDay as real == n as real;
  }

  /** One arch suffix never reaches into the eight captured digits of the
      default release pattern, so trimming it keeps the capture. */
  lemma ReleaseTrimStable(t: string, suffix: string)
    requires ReleaseTagPattern(t).Some?
    requires 0 < |suffix| <= 8 && suffix[0] == '-'
    ensures ReleaseTagPattern(TrimSuffix(t, suffix)) == ReleaseTagPattern(t)
  {
    if HasSuffix(t, suffix) {
      var u := TrimSuffix(t, suffix);
      var start := |t| - |suffix|;
      assert t[start] == '-';
      assert forall i :: 8 <= i < 16 ==> IsDigit(t[i]) by {
        forall i | 8 <= i < 16 ensures IsDigit(t[i]) {
          assert t[i] == t[8..16][i - 8];
        }
      }
      assert start >= 16;
      assert u[..8] == t[..8];
      assert u[8..16] == t[8..16];
      assert forall i :: 16 <= i < |u| ==> u[i] == t[i];
    }
  }

  /** For the default architectures, a tag and its arch-stripped name carry
      the same release date under the default release pattern. */
  lemma ReleaseStripStable(t: string)
    requires ReleaseTagPattern(t).Some?
    ensures ReleaseTagPattern(GetTagWithoutArch(t, DefaultArchs)) == ReleaseTagPattern(t)
  {
    var u := TrimSuffix(t, "-amd64");
    ReleaseTrimStable(t, "-amd64");
    ReleaseTrimStable(u, "-arm64");
    StripDefault(t);
  }

  /** With the default architectures, stripping trims "-amd64" and then
      "-arm64". */
  lemma StripDefault(t: string)
    ensures GetTagWithoutArch(t, DefaultArchs) == TrimSuffix(TrimSuffix(t, "-amd64"), "-arm64")
  {
    assert DefaultArchs[0] == "amd64" && DefaultArchs[1..] == ["arm64"];
    assert ["arm64"][1..] == [];
    assert "-" + "amd64" == "-amd64" && "-" + "arm64" == "-arm64";
  }

  /** A snapshot tag has no arch suffix, so stripping leaves it as it is. */
  lemma SnapshotStripStable(t: string)
    requires SnapshotTagPattern(t).Some?
    ensures GetTagWithoutArch(t, DefaultArchs) == t
  {
    assert t[8..] == "-snap";
    assert !HasSuffix(t, "-amd64") by {
      assert t[|t| - 1] == 'p';
    }
    assert !HasSuffix(t, "-arm64") by {
      assert t[|t| - 1] == 'p';
    }
  }

  /** The suffixes are trimmed in the order given, once each, so the result
      depends on that order and stripping is not idempotent. */
  lemma ArchOrderMatters()
    ensures GetTagWithoutArch("x-arm64-amd64", DefaultArchs) == "x"
    ensures GetTagWithoutArch("x-amd64-arm64", DefaultArchs) == "x-amd64"
    ensures GetTagWithoutArch("x-amd64", DefaultArchs) == "x"
  {
    StripArmAmd();
    StripAmdArm();
    StripAmd();
  }

  lemma StripArmAmd()
    ensures GetTagWithoutArch("x-arm64-amd64", DefaultArchs) == "x"
  {
    StripDefault("x-arm64-amd64");
    assert HasSuffix("x-arm64-amd64", "-amd64");
    assert "x-arm64-amd64"[..7] == "x-arm64";
    assert HasSuffix("x-arm64", "-arm64");
    assert "x-arm64"[..1] == "x";
  }

  lemma StripAmdArm()
    ensures GetTagWithoutArch("x-amd64-arm64", DefaultArchs) == "x-amd64"
  {
    StripDefault("x-amd64-arm64");
    assert !HasSuffix("x-amd64-arm64", "-amd64");
    assert HasSuffix("x-amd64-arm64", "-arm64");
    assert "x-amd64-arm64"[..7] == "x-amd64";
  }

  lemma StripAmd()
    ensures GetTagWithoutArch("x-amd64", DefaultArchs) == "x"
  {
    StripDefault("x-amd64");
    assert HasSuffix("x-amd64", "-amd64");
    assert "x-amd64"[..1] == "x";
    assert !HasSuffix("x", "-arm64");
  }


  /** The project path of `project + "/" + image`, for an image name without
      `/` and a project path with at least one `/`, is `project`. */
  lemma ProjectPathOf(project: string, image: string)
    requires '/' in project && '/' !in image
    ensures GetGitlabProjectPath(project + "/" + image) == Success(project)
  {
    var path := project + "/" + image;
    CountCharPositive(project, '/');
    CountCharPositive(image, '/');
    CountCharAppend(project, "/", '/');
    CountCharAppend(project + "/", image, '/');
    var r := GetGitlabProjectPath(path);
    assert path[..|project|] == project;
    assert path[|project|] == '/';
    assert forall i :: |project| < i < |path| ==> path[i] == image[i - |project| - 1];
    assert |r.value| == |project|;
  }

  /** A path with fewer than two `/` has no project path. */
  lemma ProjectPathTooShort(path: string)
    requires CountChar(path, '/') < 2
    ensures GetGitlabProjectPath(path) == Failure(PathTooShort)
  {
  }

  /** The registry paths of the source's tests: three accepted, three
      rejected. */
  lemma ProjectPathExamples()
    ensures GetGitlabProjectPath("test/test/test/test") == Success("test/test/test")
    ensures GetGitlabProjectPath("test/test/test") == Success("test/test")
    ensures GetGitlabProjectPath("#@/#@/&&") == Success("#@/#@")
    ensures GetGitlabProjectPath("test").Failure?
    ensures GetGitlabProjectPath("test/test").Failure?
    ensures GetGitlabProjectPath("test/test:test").Failure?
  {
    PathFour();
    PathThree();
    PathSymbols();
    PathOne();
    PathTwo();
    PathColon();
  }

  lemma PathFour()
    ensures GetGitlabProjectPath("test/test/test/test") == Success("test/test/test")
  {
    assert "test/test/test/test" == "test/test/test" + "/" + "test";
    assert "test/test/test"[4] == '/';
    ProjectPathOf("test/test/test", "test");
  }

  lemma PathThree()
    ensures GetGitlabProjectPath("test/test/test") == Success("test/test")
  {
    assert "test/test/test" == "test/test" + "/" + "test";
    assert "test/test"[4] == '/';
    ProjectPathOf("test/test", "test");
  }

  lemma PathSymbols()
    ensures GetGitlabProjectPath("#@/#@/&&") == Success("#@/#@")
  {
    assert "#@/#@/&&" == "#@/#@" + "/" + "&&";
    assert "#@/#@"[2] == '/';
    ProjectPathOf("#@/#@", "&&");
  }

  lemma PathOne()
    ensures GetGitlabProjectPath("test").Failure?
  {
    CountCharPositive("test", '/');
    ProjectPathTooShort("test");
  }

  lemma PathTwo()
    ensures GetGitlabProjectPath("test/test").Failure?
  {
    assert "test/test" == "test" + "/" + "test";
    OneSlash("test", "test");
  }

  lemma PathColon()
    ensures GetGitlabProjectPath("test/test:test").Failure?
  {
    assert "test/test:test" == "test" + "/" + "test:test";
    OneSlash("test", "test:test");
  }

  /** Two names without `/` joined by one `/` have no project path. */
  lemma OneSlash(a: string, b: string)
    requires '/' !in a && '/' !in b
    ensures GetGitlabProjectPath(a + "/" + b).Failure?
  {
    CountCharPositive(a, '/');
    CountCharPositive(b, '/');
    CountCharAppend(a, "/", '/');
    CountCharAppend(a + "/", b, '/');
    ProjectPathTooShort(a + "/" + b);
  }

}
