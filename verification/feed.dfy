/**
  The per-record choices of `generate_rss` (main.py:172-192): the entry
  title is `v` followed by the version; the link is the commit-pinned
  blob URL of CHANGELOG.md when the record has a commit id, otherwise the
  release-tag URL of the version; the guid is the link, marked as a
  permalink; a publication date is set only when the record has a date.
  Entries are plain values here; the feed object they are added to is not
  part of this model.
*/
module Feed {
  import opened Wrappers
  import opened Text
  import opened Changelog

  const RepoOwner: string := "anthropics"
  const RepoName: string := "claude-code"
  const FilePath: string := "CHANGELOG.md"

  const RepoUrl: string := "https://github.com/" + RepoOwner + "/" + RepoName
  const BlobPrefix: string := RepoUrl + "/blob/"
  const BlobSuffix: string := "/" + FilePath
  const ReleasePrefix: string := RepoUrl + "/releases/tag/v"

  datatype FeedEntry = FeedEntry(title: string, link: string, description: string,
                                 guid: string, guidIsPermaLink: bool, pubDate: Option<string>)

  /** What an entry's link points at. */
  datatype LinkTarget = Commit(oid: string) | Release(version: string) | Elsewhere

  /** The blob of CHANGELOG.md at commit `oid`. */
  function CommitLink(oid: string): string {
    BlobPrefix + oid + BlobSuffix
  }

  /** The release page of tag `v<version>`. */
  function ReleaseLink(version: string): string {
    ReleasePrefix + version
  }

  /** The commit when the record has a truthy commit id, else the release of its version. */
  function TargetOf(v: VersionRecord): LinkTarget {
    if Truthy(v.oid) then Commit(v.oid.value) else Release(v.version)
  }

  /** `link_url`: the commit's blob when the record has a truthy commit id, else the release page of its version. */
  function EntryLink(v: VersionRecord): string {
    if Truthy(v.oid) then CommitLink(v.oid.value) else ReleaseLink(v.version)
  }

  /** The entry `generate_rss` adds for one record. */
  function EntryOf(v: VersionRecord): FeedEntry {
    var link := EntryLink(v);
    FeedEntry("v" + v.version, link, v.description, link, true, if Truthy(v.date) then v.date else None)
  }

  function Entries(vs: seq<VersionRecord>): (es: seq<FeedEntry>)
    ensures |es| == |vs|
  {
    seq(|vs|, i requires 0 <= i < |vs| => EntryOf(vs[i]))
  }

  /** Reading a link back: the commit or the version it names. */
  function ParseLink(link: string): LinkTarget {
    if |link| >= |BlobPrefix| + |BlobSuffix| && link[..|BlobPrefix|] == BlobPrefix
       && link[|link| - |BlobSuffix|..] == BlobSuffix
    then Commit(link[|BlobPrefix|..|link| - |BlobSuffix|])
    else if |link| >= |ReleasePrefix| && link[..|ReleasePrefix|] == ReleasePrefix
    then Release(link[|ReleasePrefix|..])
    else Elsewhere
  }

  /** A commit link reads back as its commit id. */
  lemma CommitLinkRoundTrip(oid: string)
    ensures ParseLink(CommitLink(oid)) == Commit(oid)
  {
    var link := CommitLink(oid);
    assert link[..|BlobPrefix|] == BlobPrefix;
    assert link[|link| - |BlobSuffix|..] == BlobSuffix;
    assert link[|BlobPrefix|..|link| - |BlobSuffix|] == oid;
  }

  /** A release link reads back as its version: it is not a blob link, since the two differ right after the repository URL. */
  lemma ReleaseLinkRoundTrip(version: string)
    ensures ParseLink(ReleaseLink(version)) == Release(version)
  {
    var link := ReleaseLink(version);
    var n := |RepoUrl| + 1;
    assert link[n] == 'r' && BlobPrefix[n] == 'b';
    assert link[..|ReleasePrefix|] == ReleasePrefix;
    assert link[|ReleasePrefix|..] == version;
  }

  /** The link, and so the guid, names exactly the target the record selects. */
  lemma EntryLinkRoundTrip(v: VersionRecord)
    ensures ParseLink(EntryOf(v).link) == TargetOf(v)
    ensures EntryOf(v).guid == EntryOf(v).link && EntryOf(v).guidIsPermaLink
  {
    if Truthy(v.oid) { CommitLinkRoundTrip(v.oid.value); } else { ReleaseLinkRoundTrip(v.version); }
  }

  /** Two records get the same guid exactly when they select the same commit, or, both without a commit id, the same version. */
  lemma GuidsEqualIff(v: VersionRecord, w: VersionRecord)
    ensures EntryOf(v).guid == EntryOf(w).guid <==> TargetOf(v) == TargetOf(w)
  {
    EntryLinkRoundTrip(v);
    EntryLinkRoundTrip(w);
  }

  /** The title carries the version behind a `v`, and the description is the record's, unchanged. */
  lemma TitleAndDescription(v: VersionRecord)
    ensures |EntryOf(v).title| == |v.version| + 1 && EntryOf(v).title[0] == 'v'
    ensures EntryOf(v).title[1..] == v.version
    ensures EntryOf(v).description == v.description
  {
    assert ("v" + v.version)[1..] == v.version;
  }

  /** A publication date is set exactly when the record's date is a non-empty string, and it is that date. */
  lemma PubDateIff(v: VersionRecord)
    ensures EntryOf(v).pubDate.Some? <==> Truthy(v.date)
    ensures EntryOf(v).pubDate.Some? ==> EntryOf(v).pubDate == v.date
  {
  }
}
