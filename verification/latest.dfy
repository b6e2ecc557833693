/**
 `get_latest_version`: fetch both feeds, take the last entry of each, and
 yield the greater of the two parsed versions. A network error on either
 fetch yields nothing; an empty list or an unparsable entry raises, and the
 exception leaves the generator before anything is yielded.
 */
module Latest {
  import opened Wrappers
  import opened Versions
  import opened VersionText
  import opened Tags
  import opened Digits

  /**
   The outcome of one HTTP request: the decoded body, or an `HTTPError` or
   `URLError`, the only exceptions the selection catches.
   */
  datatype Fetch<+T> = Fetched(body: T) | NetworkError

  /** The exceptions the selection lets escape. */
  datatype Exception =
    | IndexError                    // `[-1]` on an empty list
    | InvalidVersion(text: string)  // `packaging.version.parse` rejected the text

  /** What the generator does: yields one version, returns without yielding, or raises. */
  datatype Lookup =
    | Yielded(version: Release)
    | NothingYielded
    | Raised(error: Exception)

  function Last(s: seq<string>): string
    requires |s| > 0
  {
    s[|s| - 1]
  }

  /**
   `if latest_version > latest_tag`: the conda-forge version only when it is
   strictly greater, the tag otherwise.
   */
  function Select(latestVersion: Release, latestTag: Release): (v: Release)
    ensures v == latestVersion || v == latestTag
    ensures AtLeast(v, latestVersion) && AtLeast(v, latestTag)
    ensures Compare(latestVersion, latestTag) == Equal ==> v == latestTag
  {
    CompareReflexive(latestVersion);
    CompareReflexive(latestTag);
    CompareFlip(latestVersion, latestTag);
    if Newer(latestVersion, latestTag) then latestVersion else latestTag
  }

  datatype Result = Parsed(version: Release) | Failed(error: Exception)

  /**
   `packaging.version.parse(versions[-1])`: the parsed last entry, or the
   exception the indexing or the parse raises.
   */
  function ParseLast(versions: seq<string>): (r: Result)
    ensures r.Parsed? <==> |versions| > 0 && WellFormed(Last(versions))
    ensures r == Failed(IndexError) <==> |versions| == 0
    ensures r.Failed? && |versions| > 0 ==> r.error == InvalidVersion(Last(versions))
  {
    if |versions| == 0 then Failed(IndexError)
    else
      ParseDefined(versions[|versions| - 1]);
      match Parse(versions[|versions| - 1])
      case None => Failed(InvalidVersion(versions[|versions| - 1]))
      case Some(v) => Parsed(v)
  }

  /** A last entry that is the rendering of a release, `v`-prefixed or not, parses to that release. */
  lemma ParseLastRendered(versions: seq<string>, v: Release)
    requires |versions| > 0 && |v| > 0
    requires Last(versions) == Render(v) || Last(versions) == "v" + Render(v)
    ensures ParseLast(versions) == Parsed(v)
  {
    PrefixedRoundTrip(v);
  }

  /**
   The whole of `get_latest_version`. The conda-forge entry is evaluated
   first (`cf_versions[-1]`), so its exception wins when both lists are bad.
   */
  function GetLatestVersion(tags: Fetch<seq<TagItem>>, conda: Fetch<CondaPackage>): (r: Lookup)
    ensures r.NothingYielded? <==> tags.NetworkError? || conda.NetworkError?
    ensures r.Yielded? ==>
              && tags.Fetched? && conda.Fetched?
              && ParseLast(CondaForgeReleases(conda.body)).Parsed?
              && ParseLast(GithubTags(tags.body)).Parsed?
    ensures r.Yielded? ==>
              var cf := ParseLast(CondaForgeReleases(conda.body)).version;
              var gh := ParseLast(GithubTags(tags.body)).version;
              (r.version == cf || r.version == gh) && AtLeast(r.version, cf) && AtLeast(r.version, gh)
    ensures r.Raised? <==>
              && tags.Fetched? && conda.Fetched?
              && (ParseLast(CondaForgeReleases(conda.body)).Failed? || ParseLast(GithubTags(tags.body)).Failed?)
    ensures r.Raised? && ParseLast(CondaForgeReleases(conda.body)).Failed? ==>
              r.error == ParseLast(CondaForgeReleases(conda.body)).error
    ensures r.Raised? && ParseLast(CondaForgeReleases(conda.body)).Parsed? ==>
              r.error == ParseLast(GithubTags(tags.body)).error
  {
    if tags.NetworkError? || conda.NetworkError? then NothingYielded
    else
      match ParseLast(CondaForgeReleases(conda.body))
      case Failed(e) => Raised(e)
      case Parsed(latestVersion) =>
        match ParseLast(GithubTags(tags.body))
        case Failed(e) => Raised(e)
        case Parsed(latestTag) => Yielded(Select(latestVersion, latestTag))
  }

  /**
   End to end over the raw responses: when the first named item of the tag
   listing and the last conda-forge entry both parse, the yield
   is the greater of the two, the tag on a tie.
   */
  lemma LatestOfResponses(data: seq<TagItem>, j: nat, package: CondaPackage, tag: Release, cf: Release)
    requires j < |data| && Named(data[j])
    requires forall i :: 0 <= i < j ==> !Named(data[i])
    requires Parse(StripV(data[j].name.value)) == Some(tag)
    requires package.versions.Some? && |package.versions.value| > 0
    requires Parse(Last(package.versions.value)) == Some(cf)
    ensures GetLatestVersion(Fetched(data), Fetched(package)).Yielded?
    ensures var v := GetLatestVersion(Fetched(data), Fetched(package)).version;
            && (v == cf || v == tag)
            && AtLeast(v, cf) && AtLeast(v, tag)
            && (Newer(cf, tag) <==> v == cf && v != tag)
  {
    GithubTagsLast(data, j);
    CompareReflexive(cf);
  }

  /**
   A package entry without a `versions` key reads as the empty list, so the
   selection raises `IndexError` instead of yielding.
   */
  lemma MissingVersionsRaise(data: seq<TagItem>, package: CondaPackage)
    requires package.versions.None?
    ensures GetLatestVersion(Fetched(data), Fetched(package)) == Raised(IndexError)
  {
  }

  /**
   A worked case: the first listed tag `v0.4.5` beats the conda-forge `0.4.3`, and
   the yield is 0.4.5.
   */
  lemma NewestTagWins()
    ensures GetLatestVersion(
              Fetched([TagItem(Some("v0.4.5")), TagItem(None), TagItem(Some("v0.4.4"))]),
              Fetched(CondaPackage(Some(["0.4.2", "0.4.3"])))) == Yielded([0, 4, 5])
  {
    var data := [TagItem(Some("v0.4.5")), TagItem(None), TagItem(Some("v0.4.4"))];
    var cf := ["0.4.2", "0.4.3"];
    GithubTagsLast(data, 0);
    RenderSmall(0, 4, 5);
    RenderSmall(0, 4, 3);
    assert Last(GithubTags(data)) == Render([0, 4, 5]);
    assert Last(cf) == Render([0, 4, 3]);
    ParseLastRendered(GithubTags(data), [0, 4, 5]);
    ParseLastRendered(cf, [0, 4, 3]);
    assert CondaForgeReleases(CondaPackage(Some(cf))) == cf;
    assert Compare([0, 4, 3], [0, 4, 5]) == Less by {
      assert Tail([0, 4, 3]) == [4, 3] && Tail([0, 4, 5]) == [4, 5];
      assert Tail([4, 3]) == [3] && Tail([4, 5]) == [5];
    }
  }

  lemma RenderSmall(a: nat, b: nat, c: nat)
    requires a < 10 && b < 10 && c < 10
    ensures Render([a, b, c]) == [DigitChar(a), '.', DigitChar(b), '.', DigitChar(c)]
  {
    assert [a, b, c][1..] == [b, c];
    assert [b, c][1..] == [c];
    assert Render([c]) == [DigitChar(c)];
    assert Render([b, c]) == [DigitChar(b)] + "." + [DigitChar(c)];
    assert Render([a, b, c]) == [DigitChar(a)] + "." + Render([b, c]);
  }
}
