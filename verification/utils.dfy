/** The string helpers of pkg/utils/utils.go: GitLab slug generation, slice
    membership and trailing-slash trimming. Strings are sequences of Unicode
    scalar values (runes); after the replacement step of the slug every rune
    is ASCII, so the slug's length in runes is its length in bytes. */
module Utils {
  import opened Strings

  /** `maxGitlabSluglifyLength`. */
  const MaxGitlabSluglifyLength: nat := 63

  // ---------------------------------------------------------------------
  // Trimming a repeated character.
  // ---------------------------------------------------------------------

  /** Every character of `s` is `c`. */
  predicate AllChar(s: string, c: char) {
    forall i :: 0 <= i < |s| ==> s[i] == c
  }

  /** Go's `strings.TrimRight(s, cutset)` for a one-character cutset: drop
      every trailing `c`. */
  function TrimRight(s: string, c: char): (r: string)
    ensures |r| <= |s| && s[..|r|] == r
    ensures r == [] || r[|r| - 1] != c
    ensures AllChar(s[|r|..], c)
  {
    if |s| > 0 && s[|s| - 1] == c then
      assert s[|TrimRight(s[..|s| - 1], c)|..] == s[..|s| - 1][|TrimRight(s[..|s| - 1], c)|..] + [c];
      TrimRight(s[..|s| - 1], c)
    else s
  }

  /** Go's `strings.TrimLeft(s, cutset)` for a one-character cutset: drop
      every leading `c`. */
  function TrimLeft(s: string, c: char): (r: string)
    ensures |r| <= |s| && s[|s| - |r|..] == r
    ensures r == [] || r[0] != c
    ensures AllChar(s[..|s| - |r|], c)
  {
    if |s| > 0 && s[0] == c then TrimLeft(s[1..], c) else s
  }

  // ---------------------------------------------------------------------
  // GitLab slugs.
  // ---------------------------------------------------------------------

  /** A character a slug may contain: `[a-z0-9-]`. */
  predicate IsSlugChar(c: char) {
    'a' <= c <= 'z' || '0' <= c <= '9' || c == '-'
  }

  /** One rune after `strings.ToLower` and the replacement of `[^a-z0-9]`
      by "-". Besides 'A'..'Z', exactly two runes have an ASCII lower case:
      the Kelvin sign U+212A ('k') and U+0130, capital I with dot above
      ('i'); every other rune outside `[a-z0-9]` becomes '-'. */
  function SlugRune(c: char): (r: char)
    ensures IsSlugChar(r)
  {
    if 'a' <= c <= 'z' || '0' <= c <= '9' then c
    else if 'A' <= c <= 'Z' then (c as int + 32) as char
    else if c == '\U{212A}' then 'k'
    else if c == '\U{0130}' then 'i'
    else '-'
  }

  /** The text lower-cased with every rune outside `[a-z0-9]` replaced. */
  function Slug(text: string): (s: string)
    ensures |s| == |text|
  {
    seq(|text|, i requires 0 <= i < |text| => SlugRune(text[i]))
  }

  /** A text already in slug form is its own slug. */
  lemma SlugOfSlugChars(text: string)
    requires forall i :: 0 <= i < |text| ==> 'a' <= text[i] <= 'z' || '0' <= text[i] <= '9'
    ensures Slug(text) == text
  {
  }

  /** How many characters `GitlabSluglify` trims from the front: one when the
      first rune becomes '-'. */
  function Lead(text: string): (n: nat)
    ensures n <= 1 && n <= |text|
  {
    if |text| > 0 && SlugRune(text[0]) == '-' then 1 else 0
  }

  /** `GitlabSluglify` as written: the slug, with one '-' trimmed from each
      end, then cut to 63 characters. The result is a run of the slug that
      starts at its first or second character; at most one character is
      trimmed from each end unless the cut shortened it. */
  function GitlabSluglify(text: string): (r: string)
    ensures |r| <= MaxGitlabSluglifyLength
    ensures forall i :: 0 <= i < |r| ==> IsSlugChar(r[i])
    ensures Lead(text) + |r| <= |text| && r == Slug(text)[Lead(text)..Lead(text) + |r|]
    ensures |r| == MaxGitlabSluglifyLength || |text| - 2 <= |r|
  {
    var trimmed := TrimSuffix(TrimPrefix(Slug(text), "-"), "-");
    TrimmedSlug(text);
    if |trimmed| > MaxGitlabSluglifyLength then
      assert forall k :: 0 <= k < MaxGitlabSluglifyLength ==> trimmed[0..MaxGitlabSluglifyLength][k] == trimmed[k];
      trimmed[0..MaxGitlabSluglifyLength]
    else trimmed
  }

  /** The slug with one '-' trimmed from each end is the run of the slug
      starting at `Lead(text)`, at most two characters shorter. */
  lemma TrimmedSlug(text: string)
    ensures var t := TrimSuffix(TrimPrefix(Slug(text), "-"), "-");
      && Lead(text) + |t| <= |text| && t == Slug(text)[Lead(text)..Lead(text) + |t|]
      && |text| - 2 <= |t|
      && forall k :: 0 <= k < |t| ==> IsSlugChar(t[k])
  {
    var slug := Slug(text);
    TrimOneHyphen(slug);
    assert |slug| > 0 ==> slug[0] == SlugRune(text[0]);
    var t := TrimSuffix(TrimPrefix(slug, "-"), "-");
    SlugChars(text);
    assert forall k :: 0 <= k < |t| ==> t[k] == slug[Lead(text) + k];
  }

  /** One '-' trimmed from each end of `s` leaves the run of `s` starting
      after the leading '-', if any, at most two characters shorter. */
  lemma TrimOneHyphen(s: string)
    ensures var lead := if |s| > 0 && s[0] == '-' then 1 else 0;
      var t := TrimSuffix(TrimPrefix(s, "-"), "-");
      && lead + |t| <= |s| && t == s[lead..lead + |t|] && |s| - 2 <= |t|
  {
    var lead := if |s| > 0 && s[0] == '-' then 1 else 0;
    TrimHyphenPrefix(s);
    var front := TrimPrefix(s, "-");
    TrimHyphenSuffix(front);
  }

  lemma SlugChars(text: string)
    ensures forall k :: 0 <= k < |text| ==> IsSlugChar(Slug(text)[k])
  {
  }

  lemma TrimHyphenPrefix(s: string)
    ensures var k := if |s| > 0 && s[0] == '-' then 1 else 0;
      TrimPrefix(s, "-") == s[k..]
  {
    if |s| > 0 && s[0] == '-' {
      assert s[..1] == "-";
    } else if |s| > 0 {
      assert s[..1] != "-" by { assert s[..1][0] == s[0]; }
    }
  }

  lemma TrimHyphenSuffix(s: string)
    ensures var k := if |s| > 0 && s[|s| - 1] == '-' then 1 else 0;
      TrimSuffix(s, "-") == s[..|s| - k]
  {
    if |s| > 0 && s[|s| - 1] == '-' {
      assert s[|s| - 1..] == "-";
    } else if |s| > 0 {
      assert s[|s| - 1..] != "-" by { assert s[|s| - 1..][0] == s[|s| - 1]; }
    }
  }

  lemma SlugAppend(a: string, b: string)
    ensures Slug(a + b) == Slug(a) + Slug(b)
  {
  }

  /** A text wrapped in one replaced rune on each side, whose own slug has
      no hyphen at either end, loses exactly the two wrapping hyphens. */
  lemma SluglifyWrapped(c: char, w: string)
    requires SlugRune(c) == '-' && 0 < |w| <= MaxGitlabSluglifyLength - 2
    requires Slug(w)[0] != '-' && Slug(w)[|w| - 1] != '-'
    ensures GitlabSluglify([c] + w + [c]) == Slug(w)
  {
    SlugAppend([c] + w, [c]);
    SlugAppend([c], w);
    assert Slug([c] + w + [c]) == ['-'] + Slug(w) + ['-'];
  }

  /** The same for the corrected slug. */
  lemma SluglifyFixedWrapped(c: char, w: string)
    requires SlugRune(c) == '-' && 0 < |w| <= MaxGitlabSluglifyLength - 2
    requires Slug(w)[0] != '-' && Slug(w)[|w| - 1] != '-'
    ensures GitlabSluglifyFixed([c] + w + [c]) == Slug(w)
  {
    SlugAppend([c] + w, [c]);
    SlugAppend([c], w);
    assert Truncated([c] + w + [c]) == ['-'] + Slug(w) + ['-'];
    TrimHyphensWrapped(Slug(w));
  }

  /** A run without a hyphen at either end, wrapped in one hyphen on each
      side, is what `TrimHyphens` gives back. */
  lemma TrimHyphensWrapped(v: string)
    requires |v| > 0 && v[0] != '-' && v[|v| - 1] != '-'
    ensures TrimHyphens(['-'] + v + ['-']) == v
  {
    var t := ['-'] + v + ['-'];
    assert t[1..] == v + ['-'];
    assert TrimLeft(t, '-') == v + ['-'];
    assert (v + ['-'])[..|v|] == v;
    assert TrimRight(v + ['-'], '-') == v;
  }

  /** The first three examples of pkg/utils/utils_test.go, for both the
      slug as written and the corrected one. */
  lemma SluglifyWordExamples()
    ensures GitlabSluglify("$" + ("test/" + "test/" + "test/" + "test") + "$") == "test-" + "test-" + "test-" + "test"
    ensures GitlabSluglify("@" + ("test/" + "test/" + "test") + "@") == "test-" + "test-" + "test"
    ensures GitlabSluglify("#" + "test" + "#") == "test"
    ensures GitlabSluglifyFixed("$" + ("test/" + "test/" + "test/" + "test") + "$") == "test-" + "test-" + "test-" + "test"
    ensures GitlabSluglifyFixed("@" + ("test/" + "test/" + "test") + "@") == "test-" + "test-" + "test"
    ensures GitlabSluglifyFixed("#" + "test" + "#") == "test"
  {
    assert Slug("test/") == "test-";
    assert Slug("test") == "test";
    SlugAppend("test/" + "test/" + "test/", "test");
    SlugAppend("test/" + "test/", "test/");
    SlugAppend("test/" + "test/", "test");
    SlugAppend("test/", "test/");
    SlugAppend("test/", "test");
    SluglifyWrapped('$', "test/" + "test/" + "test/" + "test");
    SluglifyWrapped('@', "test/" + "test/" + "test");
    SluglifyWrapped('#', "test");
    SluglifyFixedWrapped('$', "test/" + "test/" + "test/" + "test");
    SluglifyFixedWrapped('@', "test/" + "test/" + "test");
    SluglifyFixedWrapped('#', "test");
  }

  /** The fourth example of pkg/utils/utils_test.go: seventy digits are cut
      to their first sixty-three, by both slugs. */
  lemma SluglifyDigitsExample()
    ensures var d := "1234567890";
      && GitlabSluglify(d + d + d + d + d + d + d) == d + d + d + d + d + d + "123"
      && GitlabSluglifyFixed(d + d + d + d + d + d + d) == d + d + d + d + d + d + "123"
  {
    var d := "1234567890";
    SlugOfSlugChars(d);
    var a := d + d + d + d + d + d;
    SlugAppend(d, d);
    SlugAppend(d + d, d);
    SlugAppend(d + d + d, d);
    SlugAppend(d + d + d + d, d);
    SlugAppend(d + d + d + d + d, d);
    SlugAppend(a, d);
    assert Slug(a + d) == a + d;
    assert (a + d)[0] == '1' && (a + d)[69] == '0';
    assert (a + d)[..63] == a + "123" by {
      assert (a + d)[..63] == a + d[..3];
    }
  }

  /** The documented promise "first/last character is not a hyphen" fails:
      only one '-' is trimmed from each end, and the cut to 63 characters
      comes after the trimming and can end on a '-'. */
  lemma SluglifyKeepsHyphens(text: string)
    requires |text| == 64 && forall i :: 0 <= i < 62 ==> text[i] == 'a'
    requires text[62] == '#' && text[63] == 'b'
    ensures GitlabSluglify("##a") == "-a"
    ensures GitlabSluglify("a##") == "a-"
    ensures GitlabSluglify(text)[62] == '-'
  {
    SluglifyLeadingHyphen();
    SluglifyTrailingHyphen();
    SluglifyCutHyphen(text);
  }

  lemma SluglifyLeadingHyphen()
    ensures GitlabSluglify("##a") == "-a"
  {
    assert Slug("##a") == "--a";
    TrimHyphenPrefix("--a");
    TrimHyphenSuffix("-a");
  }

  lemma SluglifyTrailingHyphen()
    ensures GitlabSluglify("a##") == "a-"
  {
    assert Slug("a##") == "a--";
    TrimHyphenPrefix("a--");
    TrimHyphenSuffix("a--");
  }

  lemma SluglifyCutHyphen(text: string)
    requires |text| == 64 && forall i :: 0 <= i < 62 ==> text[i] == 'a'
    requires text[62] == '#' && text[63] == 'b'
    ensures |GitlabSluglify(text)| == MaxGitlabSluglifyLength && GitlabSluglify(text)[62] == '-'
  {
    var s := Slug(text);
    assert s[0] == 'a' && s[62] == '-' && s[63] == 'b';
    TrimHyphenPrefix(s);
    TrimHyphenSuffix(s);
    assert TrimSuffix(TrimPrefix(s, "-"), "-") == s;
  }

  /** The slug cut to 63 characters, before any trimming. */
  function Truncated(text: string): (t: string)
    ensures |t| <= MaxGitlabSluglifyLength && |t| <= |text|
    ensures t == Slug(text)[..|t|]
    ensures forall k :: 0 <= k < |t| ==> IsSlugChar(t[k])
    ensures |t| == MaxGitlabSluglifyLength || |t| == |text|
  {
    var s := Slug(text);
    if |s| > MaxGitlabSluglifyLength then s[..MaxGitlabSluglifyLength] else s
  }

  /** `r` is the run of `t` starting at `i`, and everything of `t` before
      and after it is '-'. */
  predicate HyphensAround(t: string, r: string, i: int) {
    0 <= i && i + |r| <= |t| && r == t[i..i + |r|] && AllChar(t[..i], '-') && AllChar(t[i + |r|..], '-')
  }

  /** Every leading and trailing '-' of `t` removed. */
  function TrimHyphens(t: string): (r: string)
    ensures r == [] || (r[0] != '-' && r[|r| - 1] != '-')
    ensures exists i :: HyphensAround(t, r, i)
  {
    var left := TrimLeft(t, '-');
    var r := TrimRight(left, '-');
    var i := |t| - |left|;
    assert left == t[i..];
    assert r == t[i..i + |r|];
    assert AllChar(t[i + |r|..], '-') by {
      assert t[i + |r|..] == left[|r|..];
    }
    assert r != [] ==> r[0] == left[0];
    assert HyphensAround(t, r, i);
    r
  }

  /** The slug as GitLab computes it (`Gitlab::Utils.slugify`): cut to 63
      characters, then every leading and trailing '-' removed. The result is
      the cut slug with only hyphens taken off its ends, and it neither
      starts nor ends with a hyphen. */
  function GitlabSluglifyFixed(text: string): (r: string)
    ensures |r| <= MaxGitlabSluglifyLength
    ensures forall i :: 0 <= i < |r| ==> IsSlugChar(r[i])
    ensures r == [] || (r[0] != '-' && r[|r| - 1] != '-')
    ensures exists i :: HyphensAround(Truncated(text), r, i)
  {
    var t := Truncated(text);
    var r := TrimHyphens(t);
    var i :| HyphensAround(t, r, i);
    RunSlugChars(t, r, i);
    r
  }

  lemma RunSlugChars(t: string, r: string, i: int)
    requires HyphensAround(t, r, i)
    requires forall k :: 0 <= k < |t| ==> IsSlugChar(t[k])
    ensures |r| <= |t|
    ensures forall k :: 0 <= k < |r| ==> IsSlugChar(r[k])
  {
    assert forall k :: 0 <= k < |r| ==> r[k] == t[i + k];
  }

  // ---------------------------------------------------------------------
  // Membership and URLs.
  // ---------------------------------------------------------------------

  /** `StringInSlice`: whether some element of `list` equals `str`. */
  function StringInSlice(str: string, list: seq<string>): (r: bool)
    ensures r <==> exists i :: 0 <= i < |list| && list[i] == str
  {
    if |list| == 0 then false
    else if list[0] == str then true
    else
      var found := StringInSlice(str, list[1..]);
      assert found ==> exists i :: 0 <= i < |list| && list[i] == str by {
        if found {
          var i :| 0 <= i < |list[1..]| && list[1..][i] == str;
          assert list[i + 1] == str;
        }
      }
      found
  }

  /** `FormatURL`: the URL with every trailing '/' removed. The result is a
      prefix of the URL, does not end in '/', and only slashes were cut. */
  function FormatURL(url: string): (r: string)
    ensures |r| <= |url| && url[..|r|] == r
    ensures r == [] || r[|r| - 1] != '/'
    ensures AllChar(url[|r|..], '/')
  {
    TrimRight(url, '/')
  }

  /** Formatting a formatted URL changes nothing. */
  lemma FormatURLIdempotent(url: string)
    ensures FormatURL(FormatURL(url)) == FormatURL(url)
  {
  }
}
