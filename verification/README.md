# Changelog-to-RSS core, modelled in Dafny

`main.py` fetches `CHANGELOG.md` together with its git blame, turns every
`## X.Y.Z` section into a version record and writes an RSS feed with one
entry per version. This project models its core:

- the **blame index** (`parse_changelog`, main.py:100-112): each blame range,
  1-based and inclusive, writes its commit date and commit id into every
  0-based line position it covers, a later range overwriting an earlier one
  (module `Blame`, the loop as the method `BuildIndex`);
- the **version-header recogniser** `re.match(r"^##\s+(\d+\.\d+\.\d+)", line)`
  (main.py:125, 138), modelled as greedy runs of whitespace and digits
  (module `VersionHeader`);
- the **segmenter** (main.py:114-162): the one-pass state machine that
  closes a record at each header and at the end of the document (module
  `Changelog`, the loop as the method `SegmentLines`). Its results are
  specified by `Records`, which cuts the document at its header positions.
  The module `ChangelogFacts` states what the records are in terms of the
  document's lines;
- the **date sort** `versions.sort(key=lambda x: x['date'] or "")`
  (main.py:210), modelled as an in-place insertion sort on an array
  (module `DateSort`). It is proved sorted, a permutation and stable. Any
  stable sort by that key gives the same list;
- the **per-record feed projection** of `generate_rss` (main.py:172-192):
  title, link, guid, description and publication date (module `Feed`);
- the **pipeline** of `main` (main.py:200-214): parse, sort, project (module
  `FeedPipeline`);
- worked examples on concrete lines and a small document (module
  `Scenarios`).

Python truthiness is modelled exactly where the source relies on it.
`if current_version`, `if v['oid']` and `if v['date']` treat `None` and
`""` alike (`Text.Truthy`). The sort key maps both to `""`.

The guid of an entry is its link. Two records whose header lines were last
touched by the same commit therefore share one guid, even though the source
comments call it unique. `Feed.GuidsEqualIff` states exactly when guids
coincide. The model follows the code.

## Model

| member | source | states |
|---|---|---|
| Blame.Fill | main.py:111-112 | the loop `for i in range(lo, hi)` writes exactly the keys in [lo, hi), each with the same value; nothing when lo >= hi |
| Blame.Span | main.py:104-112 | one range writes exactly the 0-based lines from startingLine-1 up to endingLine-1 |
| Blame.IndexOf | main.py:103-112 | the index of a list of ranges is the index of all but the last, overwritten by the last range's span |
| Blame.LastCover | main.py:104-112 | the chosen range covers the line, and no later range does |
| Blame.IndexLookup | main.py:103-112 | a line is indexed iff some range covers it, and then it holds the date and commit id of the last range covering it (last write wins) |
| Blame.EmptyRangeWritesNothing | main.py:106-111 | a range whose start lies after its end leaves the index unchanged |
| Blame.DisjointLookup | main.py:103-112 | with non-overlapping ranges, every covered line holds the data of the one range covering it |
| Blame.BuildIndex | main.py:103-112 | the nested loops build exactly the index that `IndexOf` specifies |
| VersionHeader.MatchHeader | main.py:125 | a match always captures a non-empty version |
| VersionHeader.SpaceRunMaximal | main.py:125 | `\s+` is read greedily: the run is all whitespace and stops at a non-whitespace character or the end |
| VersionHeader.DigitRunMaximal | main.py:125 | `\d+` is read greedily: the run is all digits and stops at a non-digit or the end |
| VersionHeader.MatchHeaderVersion | main.py:138 | `group(1)` of every match is `major.minor.patch`, each part a non-empty digit string |
| VersionHeader.MatchHeaderLayout | main.py:125 | every matching line is `##`, then whitespace, then the captured version, then a non-digit or the end of the line |
| VersionHeader.MatchHeaderComplete | main.py:125 | conversely, every line of that layout with a well-formed version matches and captures exactly that version |
| VersionHeader.LayoutRuns | main.py:125 | on a line of the header layout, the whitespace and digit runs the recogniser measures are those of the layout |
| VersionHeader.RunsVersion | main.py:138 | on measured runs of digits, dot, digits, dot, digits, the captured text splits into three digit parts at the two dots |
| VersionHeader.RunsEnd | main.py:125 | on those runs, the capture ends right after the third digit run |
| Changelog.MatchesAt | main.py:124-125 | the match recorded for line j is the recogniser's result on line j |
| Changelog.MatchesNonEmpty | main.py:127-129 | a matching line opens a truthy current version |
| Changelog.HeaderPositions | main.py:124-127 | the header positions are matching lines in strictly increasing order |
| Changelog.HeaderPositionsExact | main.py:124-127 | every matching line is a header position, and the positions strictly increase |
| Changelog.DateAt | main.py:142-148 | the date of a header is the indexed date of its line, or None when the line is not indexed |
| Changelog.OidAt | main.py:142-148 | the commit id of a header is the indexed commit id of its line, or None when the line is not indexed |
| Changelog.Segments | main.py:114-162 | one record per header position, each from its header to the next header or the end |
| Changelog.Records | main.py:114-162 | the document's records: its segments under the recogniser's matches, one per header line |
| Changelog.Closed | main.py:153-160 | the records with the open one appended when the current version is truthy, as at each header and at the end |
| Changelog.Step | main.py:125-151 | a header closes the open record and opens one with the header's date and commit id; a body line joins a truthy open record or is dropped |
| Changelog.SegmentsSnoc | main.py:127-135 | closing the record opened at h when line j is reached appends that record to those closed before h |
| Changelog.HeaderStep | main.py:127-148 | a header line closes the open record and opens one with the header's date and commit id, keeping the segmenter invariant |
| Changelog.BodyStep | main.py:150-151 | any other line joins the open record's body, or is dropped before the first header, keeping the invariant |
| Changelog.FinalStep | main.py:153-160 | at the end of the document, closing the open record yields all the records |
| Changelog.ScanMeetsState | main.py:124-151 | after each line, the segmenter's variables hold the records closed so far and the open record's header, date, commit id and body |
| Changelog.ScanRecords | main.py:114-162 | running the state machine over the whole document and closing the last record gives exactly `Records` |
| Changelog.MatchLine | main.py:125 | the match computed for line i is the recorded match of that line |
| Changelog.SegmentLines | main.py:114-162 | the loop returns exactly the records of the document |
| Changelog.ParseChangelog | main.py:91-162 | `parse_changelog` returns the records of the document against the blame index of its ranges |
| ChangelogFacts.HeaderLinesExact | main.py:124-127 | the header positions are exactly the matching lines, each once, in document order |
| ChangelogFacts.RecordCount | main.py:124-162 | there is one record per header line |
| ChangelogFacts.NoHeaderNoRecords | main.py:150-160 | a document without a header line gives no record |
| ChangelogFacts.RecordAt | main.py:124-162 | record k has the version of the k-th header, the date and commit id indexed at that header line, and the stripped join of the lines strictly up to the next header or the end as its description |
| ChangelogFacts.NoMatchBetween | main.py:150-151 | no line inside a record's body matches |
| ChangelogFacts.DescriptionAt | main.py:134 | a record's description is its body lines, newline-joined and stripped |
| ChangelogFacts.EmptyDescriptionIff | main.py:134 | a description is empty iff every line of its body is whitespace only |
| ChangelogFacts.ConsecutiveHeaders | main.py:129-139 | a header directly followed by another header gets an empty description |
| ChangelogFacts.PreambleMatches | main.py:150 | documents that differ only in lines before p, none a header, match line for line |
| ChangelogFacts.PreambleIgnored | main.py:150-151 | lines before the first header never reach any record |
| Text.StripLeft | main.py:134 | strip removes a prefix and leaves a result empty or starting with a non-whitespace character |
| Text.StripRight | main.py:134 | strip removes a suffix and leaves a result empty or ending with a non-whitespace character |
| Text.Strip | main.py:134 | the stripped text is no longer than the original and neither starts nor ends with whitespace |
| Text.StripInfix | main.py:134 | the stripped text is a contiguous part of the original, with only whitespace removed on either side |
| Text.StripEmptyIff | main.py:134 | stripping gives the empty string iff the text is all whitespace |
| Text.StripIdempotent | main.py:134 | stripping twice is stripping once |
| Text.JoinedEmptyIff | main.py:134 | the stripped newline-join of lines is empty iff every line is whitespace only |
| Text.SplitJoin | main.py:134 | splitting a newline-join of newline-free lines at newlines gives the lines back |
| Text.JoinSplit | main.py:134 | newline-joining the pieces of a text split at newlines gives the text back |
| Text.Join | main.py:134 | `"\n".join`: no lines give the empty string, one line gives that line |
| Text.Truthy | main.py:129 | Python truthiness of an optional string: present and non-empty |
| Text.StripAround | main.py:134 | stripping whitespace from both sides of a text that begins and ends with non-whitespace gives that text |
| DateSort.StrLeRefl | main.py:210 | string order on sort keys is reflexive |
| DateSort.StrLeTotal | main.py:210 | string order on sort keys is total |
| DateSort.StrLeAntisym | main.py:210 | string order on sort keys is antisymmetric |
| DateSort.StrLeTrans | main.py:210 | string order on sort keys is transitive |
| DateSort.SortKey | main.py:210 | the key `x['date'] or ""`: the date when present, else the empty string |
| DateSort.StrLe | main.py:210 | Python's `<=` on strings, lexicographic by code point with a proper prefix first |
| DateSort.StrLeFirstDifference | main.py:210 | two strings compare as their characters at the first position where they differ |
| DateSort.InsertionSort | main.py:210 | each record inserted behind the records whose key is not greater; the length is kept |
| DateSort.InsertionSortSwaps | main.py:210 | two records out of key order are swapped |
| DateSort.InsertPermutes | main.py:210 | inserting adds exactly the inserted record |
| DateSort.InsertSorted | main.py:210 | inserting into a sorted list keeps it sorted |
| DateSort.InsertKeepsKeyOrder | main.py:210 | inserting places the new record after every record with its key |
| DateSort.InsertionSortPermutes | main.py:210 | the sorted list is a permutation of the input |
| DateSort.InsertionSortSorted | main.py:210 | the sorted list is in ascending key order, `None` counting as `""` |
| DateSort.InsertionSortStable | main.py:210 | records with equal keys keep their relative order |
| DateSort.UndatedFirst | main.py:210 | in a sorted list, records without a date come before every dated record |
| DateSort.SortedUnique | main.py:210 | two sorted lists agreeing on the order of each key's records are equal |
| DateSort.StableSortIsInsertionSort | main.py:210 | every stable sort by the key gives the same list as insertion sort |
| DateSort.InsertAt | main.py:210 | one insertion step on the array puts a[n] into the sorted prefix and leaves the rest unchanged |
| DateSort.SortByDate | main.py:210 | the in-place sort leaves the array holding the stable sort of its old contents |
| Feed.Entries | main.py:172-173 | one entry is added per record |
| Feed.EntryLink | main.py:177-181 | the commit link when the commit id is truthy, else the release link of the version |
| Feed.EntryOf | main.py:172-192 | the entry for one record: title, link, description, the link as permalink guid, and the date when truthy |
| Feed.CommitLinkRoundTrip | main.py:177-178 | a commit link reads back as its commit id |
| Feed.ReleaseLinkRoundTrip | main.py:179-181 | a release link reads back as its version and is never mistaken for a commit link |
| Feed.EntryLinkRoundTrip | main.py:176-187 | the link and guid name the commit when the record has a truthy commit id, else the version's release; the guid is the link, as a permalink |
| Feed.GuidsEqualIff | main.py:187 | two entries share a guid iff they select the same commit, or, both without a commit id, the same version |
| Feed.TitleAndDescription | main.py:174-184 | the title is `v` followed by the version, and the description is the record's |
| Feed.PubDateIff | main.py:189-192 | a publication date is set iff the record's date is a non-empty string, and then it is that date |
| FeedPipeline.BuildFeed | main.py:200-213 | parse, sort and project produce the entries of the sorted records |
| FeedPipeline.FeedSize | main.py:205-213 | the feed has one entry per header line of the document |
| FeedPipeline.FeedIsStableSort | main.py:210 | entries are added for the parsed records sorted by date, as a permutation, stably |
| FeedPipeline.UndatedEntriesFirst | main.py:210 | entries are added undated first: an entry without a publication date has only undated entries added before it |
| FeedPipeline.UndatedProjectedFirst | main.py:189-192 | projecting a date-sorted list keeps undated entries first |
| FeedPipeline.RecordBlame | main.py:142-148 | a record's date and commit id are those of the last blame range covering its header line, or None when none does |
| Scenarios.SpacedHeader | main.py:125 | `## ` followed by a well-formed version captures that version |
| Scenarios.DocHeaderAt | main.py:124-125 | the sample document's header lines `## 2.0.74` and `## 2.0.73` capture their versions |
| Scenarios.WideHeader | main.py:125 | `##   10.20.30`, with three spaces and two-digit parts, captures `10.20.30` |
| Scenarios.UnitSeparatorHeader | main.py:125-134 | the unit separator U+001F counts as whitespace after `##`, and a body of the separators U+001F and U+001C strips to an empty description |
| Scenarios.FourthPartIgnored | main.py:125 | `## 1.2.3.4` captures only `1.2.3` |
| Scenarios.TrailingLettersIgnored | main.py:125 | a tab counts as whitespace and letters after the version are ignored |
| Scenarios.OtherLinesDoNotMatch | main.py:125 | a title line, a blank line and plain text do not match |
| Scenarios.DocMatches | main.py:124-125 | in the sample document only the two version headers match, capturing their versions |
| Scenarios.DocHeaderLines | main.py:124-127 | in the sample document the headers are the third and sixth lines |
| Scenarios.DocIndex | main.py:103-112 | two one-line ranges index their lines at 0-based positions 2 and 5 |
| Scenarios.DocDescriptions | main.py:134 | the bodies of the sample document's records strip to `Fix X` and `Fix Y` |
| Scenarios.OneLineBody | main.py:134 | a body of one word-bounded line, alone or followed by a blank line, strips to that line |
| Scenarios.DocFirstRecord | main.py:114-162 | the sample document's first record is version 2.0.74, dated 2024-01-02, commit `abc`, described `Fix X` |
| Scenarios.DocSecondRecord | main.py:114-162 | its second record is version 2.0.73, dated 2024-01-01, commit `def`, described `Fix Y` |
| Scenarios.DocRecords | main.py:91-162 | the sample document parses to exactly those two records, in document order |
| Scenarios.DocSorted | main.py:210 | sorting the sample records by date puts 2.0.73 before 2.0.74 |

## Left out

- `fetch_changelog_blame` (main.py:15-89): the GraphQL request, the token check, `sys.exit` and the reading of the response are I/O. The model starts from the document's lines and the list of blame ranges.
- `text.splitlines()` (main.py:96): the document is taken as its sequence of lines. Splitting at the other line boundaries Python recognises is not modelled.
- `\s`, `\d` and `str.strip` are modelled on the ASCII range: whitespace is space, tab, newline, vertical tab, form feed, carriage return and the separators U+001C to U+001F; digits are `0`-`9`. Whitespace and digits beyond ASCII are not modelled.
- Feed.PubDateIff: the publication date is the committed-date string itself. The `datetime.fromisoformat` parse (main.py:191) and its failure on a malformed date are not modelled.
- `FeedGenerator` (main.py:165-169, 173, 194): the feed object, its metadata, its `fg.link` to the branch, the XML serialisation and the order in which it emits entries are library code. Entries are plain values in the order they are added. `add_entry` prepends by default, so `feed.xml` lists them in reverse order of addition: newest first, undated last.
- Writing `feed.xml` and every `print` (main.py:196-198, 201-214) are I/O.
- `GITHUB_TOKEN` and `BRANCH` (main.py:9, 13) are configuration used only by the parts left out above.
