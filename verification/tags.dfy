/**
 The two release feeds as lists of version strings: the tag listing of the code
 host (`github_tags`) and the package index entry (`conda_forge_releases`). The
 HTTP request and the JSON decoding are not modelled; the decoded responses are
 the inputs.
 */
module Tags {
  import opened Wrappers

  /** One object of the tag listing; `name` is `None` when the key is missing or null. */
  datatype TagItem = TagItem(name: Option<string>)

  /** The decoded package index entry; `versions` is `None` when the key is missing. */
  datatype CondaPackage = CondaPackage(versions: Option<seq<string>>)

  /** `if version:` — the name is present and is not the empty string. */
  predicate Named(item: TagItem) {
    item.name.Some? && |item.name.value| > 0
  }

  /** Removes one leading `v`, and only one. */
  function StripV(s: string): (r: string)
    ensures "v" + r == s || (r == s && (|s| == 0 || s[0] != 'v'))
  {
    if |s| > 0 && s[0] == 'v' then s[1..] else s
  }

  /** The tag name an item contributes, if any. */
  function Contribution(item: TagItem): seq<string> {
    if Named(item) then [StripV(item.name.value)] else []
  }

  /**
   `github_tags`: the kept names, one leading `v` stripped, in reverse of the
   order the listing gives them. The recursion peels the LAST item, which the
   source's loop appends last and `reversed` then puts first.
   */
  function GithubTags(data: seq<TagItem>): (versions: seq<string>)
    ensures |versions| <= |data|
    decreases |data|
  {
    if |data| == 0 then []
    else Contribution(data[|data| - 1]) + GithubTags(data[..|data| - 1])
  }

  /** `conda_forge_releases`: `data.get('versions', [])`. */
  function CondaForgeReleases(package: CondaPackage): seq<string> {
    match package.versions
    case None => []
    case Some(vs) => vs
  }

  ghost function NamedIndices(data: seq<TagItem>): set<nat> {
    set j: nat | j < |data| && Named(data[j])
  }

  // ---------------------------------------------------------------------------
  // Properties of the tag normalisation.
  // ---------------------------------------------------------------------------

  /** A string is listed exactly when some named item strips to it. */
  lemma {:induction false} GithubTagsMembers(data: seq<TagItem>, s: string)
    ensures s in GithubTags(data) <==>
              exists j :: 0 <= j < |data| && Named(data[j]) && s == StripV(data[j].name.value)
    decreases |data|
  {
    if |data| > 0 {
      var n := |data| - 1;
      var prefix := data[..n];
      GithubTagsMembers(prefix, s);
      if s in GithubTags(prefix) {
        var j :| 0 <= j < |prefix| && Named(prefix[j]) && s == StripV(prefix[j].name.value);
        assert data[j] == prefix[j];
      }
      if exists j :: 0 <= j < |data| && Named(data[j]) && s == StripV(data[j].name.value) {
        var j :| 0 <= j < |data| && Named(data[j]) && s == StripV(data[j].name.value);
        if j < n {
          assert prefix[j] == data[j];
        }
      }
    }
  }

  /** One entry per item with a non-empty name: nothing else is dropped. */
  lemma {:induction false} GithubTagsCount(data: seq<TagItem>)
    ensures |GithubTags(data)| == |NamedIndices(data)|
    decreases |data|
  {
    if |data| == 0 {
      assert NamedIndices(data) == {};
    } else {
      var n := |data| - 1;
      var prefix := data[..n];
      GithubTagsCount(prefix);
      if Named(data[n]) {
        assert NamedIndices(data) == NamedIndices(prefix) + {n};
      } else {
        assert NamedIndices(data) == NamedIndices(prefix);
      }
    }
  }

  /** The order is reversed: a later page of the listing comes first in the result. */
  lemma {:induction false} GithubTagsConcat(a: seq<TagItem>, b: seq<TagItem>)
    ensures GithubTags(a + b) == GithubTags(b) + GithubTags(a)
    decreases |b|
  {
    if |b| == 0 {
      assert a + b == a;
    } else {
      var n := |b| - 1;
      assert (a + b)[..|a + b| - 1] == a + b[..n];
      assert (a + b)[|a + b| - 1] == b[n];
      GithubTagsConcat(a, b[..n]);
    }
  }

  /**
   The last element of the result is the first named item of the listing
   (whatever the listing puts first), with its `v` stripped; the result is empty exactly
   when no item is named.
   */
  lemma {:induction false} GithubTagsLast(data: seq<TagItem>, j: nat)
    requires j < |data| && Named(data[j])
    requires forall i :: 0 <= i < j ==> !Named(data[i])
    ensures |GithubTags(data)| > 0
    ensures GithubTags(data)[|GithubTags(data)| - 1] == StripV(data[j].name.value)
    decreases |data|
  {
    var n := |data| - 1;
    if j == n {
      GithubTagsNone(data[..n]);
    } else {
      GithubTagsLast(data[..n], j);
    }
  }

  /** A listing with no named item yields nothing. */
  lemma {:induction false} GithubTagsNone(data: seq<TagItem>)
    requires forall i :: 0 <= i < |data| ==> !Named(data[i])
    ensures GithubTags(data) == []
    decreases |data|
  {
    if |data| > 0 {
      GithubTagsNone(data[..|data| - 1]);
    }
  }
}
