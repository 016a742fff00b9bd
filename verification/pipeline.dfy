/**
  `main` (main.py:200-214) without the fetch and the file write: parse the
  document against its blame ranges, sort the records by date, and build
  one feed entry per record, in that order.
*/
module FeedPipeline {
  import opened Wrappers
  import opened Text
  import opened Blame
  import opened Changelog
  import opened ChangelogFacts
  import opened DateSort
  import opened Feed

  /** The entries for a document and its blame ranges. */
  function FeedOf(ranges: seq<LineRange>, lines: seq<string>): seq<FeedEntry> {
    Entries(InsertionSort(Records(lines, IndexOf(ranges))))
  }

  /** Parse, sort in place, project. */
  method BuildFeed(ranges: seq<LineRange>, lines: seq<string>) returns (entries: seq<FeedEntry>)
    ensures entries == FeedOf(ranges, lines)
  {
    var versions := ParseChangelog(ranges, lines);
    var a := new VersionRecord[|versions|](i requires 0 <= i < |versions| => versions[i]);
    assert a[..] == versions;
    SortByDate(a);
    entries := Entries(a[..]);
  }

  /** The feed has one entry per header line of the document. */
  lemma FeedSize(ranges: seq<LineRange>, lines: seq<string>)
    ensures |FeedOf(ranges, lines)| == HeaderCount(lines)
  {
    RecordCount(lines, IndexOf(ranges));
  }

  /** The feed lists the parsed records sorted by date: the same records, in key order, those sharing a key in parse order. */
  lemma FeedIsStableSort(ranges: seq<LineRange>, lines: seq<string>)
    ensures var records := Records(lines, IndexOf(ranges));
            var sorted := InsertionSort(records);
            && FeedOf(ranges, lines) == Entries(sorted)
            && multiset(sorted) == multiset(records)
            && Sorted(sorted)
            && forall k :: WithKey(sorted, k) == WithKey(records, k)
  {
    var records := Records(lines, IndexOf(ranges));
    InsertionSortPermutes(records);
    InsertionSortSorted(records);
    forall k ensures WithKey(InsertionSort(records), k) == WithKey(records, k) {
      InsertionSortStable(records, k);
    }
  }

  /** Entries without a publication date come before every entry with one. */
  lemma UndatedEntriesFirst(ranges: seq<LineRange>, lines: seq<string>, i: nat, j: nat)
    requires i < j < |FeedOf(ranges, lines)|
    requires FeedOf(ranges, lines)[j].pubDate.None?
    ensures FeedOf(ranges, lines)[i].pubDate.None?
  {
    var sorted := InsertionSort(Records(lines, IndexOf(ranges)));
    InsertionSortSorted(Records(lines, IndexOf(ranges)));
    UndatedProjectedFirst(sorted, i, j);
  }

  /** In the projection of a list sorted by date, an entry without a publication date has none before it. */
  lemma UndatedProjectedFirst(sorted: seq<VersionRecord>, i: nat, j: nat)
    requires Sorted(sorted) && i < j < |sorted|
    requires Entries(sorted)[j].pubDate.None?
    ensures Entries(sorted)[i].pubDate.None?
  {
    assert Entries(sorted)[j] == EntryOf(sorted[j]);
    assert SortKey(sorted[j]) == "";
    UndatedFirst(sorted, i, j);
    assert Entries(sorted)[i] == EntryOf(sorted[i]);
  }

  /** A record's date and commit id are those of the last blame range covering its header line, or None when no range does. */
  lemma RecordBlame(ranges: seq<LineRange>, lines: seq<string>, k: nat)
    requires k < |Records(lines, IndexOf(ranges))|
    ensures var r := Records(lines, IndexOf(ranges))[k];
            var c := LastCover(ranges, HeaderLines(lines)[k]);
            && (c >= 0 ==> r.date == Some(ranges[c].committedDate) && r.oid == Some(ranges[c].oid))
            && (c < 0 ==> r.date == None && r.oid == None)
  {
    RecordAt(lines, IndexOf(ranges), k);
    IndexLookup(ranges, HeaderLines(lines)[k]);
  }
}
