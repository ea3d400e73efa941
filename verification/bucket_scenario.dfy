/** The example of pkg/bucketutils/bucketutils_test.go: ten folders
    "test-0" .. "test-9", the pattern `(?P<group>test)-(?P<id>[0-9]+)` and a
    limit of 2. The eight folders other than "test-8" and "test-9" are the
    ones returned for deletion. */
module BucketScenario {
  import opened Wrappers
  import opened Strings
  import opened Strconv
  import opened BucketUtils
  import opened BucketRetention

  const TestPattern: string := "(?P<group>test)-(?P<id>[0-9]+)"

  /** The length of the run of digits starting at `i`. */
  function DigitRun(s: string, i: nat): (n: nat)
    requires i <= |s|
    ensures i + n <= |s| && AllDigits(s[i..i + n])
    ensures i + n == |s| || !IsDigit(s[i + n])
    decreases |s| - i
  {
    if i == |s| || !IsDigit(s[i]) then 0
    else
      var n := DigitRun(s, i + 1);
      assert s[i..i + 1 + n] == [s[i]] + s[i + 1..i + 1 + n];
      1 + n
  }

  /** The leftmost match of `test-[0-9]+` at or after `i`, with the greedy
      digit run: whole match, `group` and `id`. */
  function FindFrom(s: string, i: nat): Option<seq<string>>
    decreases |s| - i
  {
    if i + 6 > |s| then None
    else if s[i..i + 5] == "test-" && IsDigit(s[i + 5]) then
      var n := DigitRun(s, i + 5);
      Some([s[i..i + 5 + n], "test", s[i + 5..i + 5 + n]])
    else FindFrom(s, i + 1)
  }

  /** `TestPattern` compiled. */
  function TestRegexp(): Regexp {
    Regexp(["", "group", "id"], s => FindFrom(s, 0))
  }

  /** The folder "test-k". */
  function TestFolder(k: nat): string
    requires k < 10
  {
    "test-" + [DigitChar(k)]
  }

  const TestItems: seq<BucketItem> := seq(10, k requires 0 <= k < 10 => NewItem(TestFolder(k)))

  lemma FolderMatches(k: nat)
    requires k < 10
    ensures FindFrom(TestFolder(k), 0) == Some([TestFolder(k), "test", [DigitChar(k)]])
  {
    var s := TestFolder(k);
    assert s[0..5] == "test-";
    assert IsDigit(s[5]);
    assert DigitRun(s, 6) == 0;
    assert DigitRun(s, 5) == 1;
    assert s[0..6] == s;
    assert s[5..6] == [DigitChar(k)];
  }

  lemma DigitAtoi(k: nat)
    requires k < 10
    ensures Atoi([DigitChar(k)]) == Some(k)
  {
    assert Unsigned([DigitChar(k)]) == [DigitChar(k)];
  }

  /** Every folder falls in group "test" with its digit as id. */
  lemma FolderCaptures(b: BucketUtils, k: nat)
    requires b.re == TestRegexp() && b.groupPosition == 1 && b.idPosition == 2
    requires k < 10
    ensures GroupOf(b, NewItem(TestFolder(k))) == "test"
    ensures IdOf(b, NewItem(TestFolder(k))) == [DigitChar(k)]
  {
    FolderMatches(k);
  }

  lemma {:induction false} AllMembers(b: BucketUtils, items: seq<BucketItem>)
    requires forall i :: 0 <= i < |items| ==> GroupOf(b, items[i]) == "test"
    ensures Members(b, items, "test") == items
  {
    if |items| > 0 {
      AllMembers(b, items[1..]);
    }
  }

  /** With ids 0 .. n-1 at their own positions, `n - 1 - v` items lie above
      id `v`. */
  lemma {:induction false} CountAboveIdentity(s: seq<BucketItem>, offset: int, v: int)
    requires forall i :: 0 <= i < |s| ==> s[i].id == offset + i
    requires offset <= v < offset + |s|
    ensures CountAbove(s, v) == offset + |s| - 1 - v
  {
    if v > offset {
      CountAboveIdentity(s[1..], offset + 1, v);
    } else {
      AllAbove(s[1..], v);
    }
  }

  lemma ExampleUtils(compile: string -> Option<Regexp>)
    requires compile(TestPattern) == Some(TestRegexp())
    ensures var r := NewBucketUtils(TestPattern, TestItems, compile);
      && r.Success?
      && r.value.items == TestItems && r.value.re == TestRegexp()
      && r.value.groupPosition == 1 && r.value.idPosition == 2
  {
    var names := TestRegexp().subexpNames;
    assert names[0] != "group" && names[0] != "id" && names[1] != "id";
    assert Index(names, "group") == 1;
    assert Index(names, "id") == 2;
  }

  lemma ExampleGroupItems(b: BucketUtils)
    requires b.items == TestItems && b.re == TestRegexp() && b.groupPosition == 1 && b.idPosition == 2
    ensures var r := GetGroupItems(b, "test");
      && r.Success?
      && |r.value| == 10
      && forall i :: 0 <= i < 10 ==> r.value[i].id == i && r.value[i].value == TestFolder(i)
  {
    forall i | 0 <= i < |TestItems| ensures GroupOf(b, TestItems[i]) == "test" && IdOf(b, TestItems[i]) != "" && Atoi(IdOf(b, TestItems[i])) == Some(i) {
      FolderCaptures(b, i);
      DigitAtoi(i);
    }
    AllMembers(b, TestItems);
    NumberedCopies(b, "test", TestItems);
  }

  /** When the members of a group carry the ids 0, 1, ... in order, the
      copies do too. */
  lemma NumberedCopies(b: BucketUtils, group: string, items: seq<BucketItem>)
    requires Members(b, b.items, group) == items
    requires forall i :: 0 <= i < |items| ==> IdOf(b, items[i]) != "" && Atoi(IdOf(b, items[i])) == Some(i)
    ensures var r := GetGroupItems(b, group);
      && r.Success?
      && |r.value| == |items|
      && forall i :: 0 <= i < |items| ==> r.value[i].id == i && r.value[i].value == items[i].value
  {
    var r := GetGroupItems(b, group);
    forall i | 0 <= i < |items| ensures r.value[i].id == i && r.value[i].value == items[i].value {
      assert IsCopy(b, group, items[i], r.value[i]);
    }
  }

  lemma LowFolder(i: nat)
    requires i < 8
    ensures TestFolder(i) != "test-8" && TestFolder(i) != "test-9"
  {
    assert TestFolder(i)[5] == DigitChar(i);
    assert "test-8"[5] == '8' && "test-9"[5] == '9';
  }

  /** Of the group with ids 0 .. 9, the folders with ids 8 and 9 stay. */
  lemma ExampleDrop(b: BucketUtils)
    requires var r := GetGroupItems(b, "test");
      && r.Success?
      && |r.value| == 10
      && forall i :: 0 <= i < 10 ==> r.value[i].id == i && r.value[i].value == TestFolder(i)
    ensures var r := GetLastItemsGroupByID(b, "test", 2);
      && r.Success?
      && |r.value| == 8
      && forall item :: item in r.value ==> item.value != "test-8" && item.value != "test-9"
  {
    var items := GetGroupItems(b, "test").value;
    assert DistinctIds(items);
    forall x | x in GetLastItemsGroupByID(b, "test", 2).value ensures x.value != "test-8" && x.value != "test-9" {
      LastItemsByRank(b, "test", 2, x);
      KeptIsLow(items, x);
    }
  }

  /** A folder with two higher ids above it is not "test-8" or "test-9". */
  lemma KeptIsLow(items: seq<BucketItem>, x: BucketItem)
    requires |items| == 10
    requires forall i :: 0 <= i < 10 ==> items[i].id == i && items[i].value == TestFolder(i)
    requires x in items && CountAbove(items, x.id) >= 2
    ensures x.value != "test-8" && x.value != "test-9"
  {
    var i :| 0 <= i < 10 && items[i] == x;
    CountAboveIdentity(items, 0, i);
    LowFolder(i);
  }

  /** The test of pkg/bucketutils/bucketutils_test.go: eight folders are
      returned, and neither "test-8" nor "test-9" is among them. */
  lemma BucketExample(compile: string -> Option<Regexp>)
    requires compile(TestPattern) == Some(TestRegexp())
    ensures NewBucketUtils(TestPattern, TestItems, compile).Success?
    ensures var r := GetLastItemsGroupByID(NewBucketUtils(TestPattern, TestItems, compile).value, "test", 2);
      && r.Success?
      && |r.value| == 8
      && forall item :: item in r.value ==> item.value != "test-8" && item.value != "test-9"
  {
    ExampleUtils(compile);
    ExampleGroupItems(NewBucketUtils(TestPattern, TestItems, compile).value);
    ExampleDrop(NewBucketUtils(TestPattern, TestItems, compile).value);
  }
}
