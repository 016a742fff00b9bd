/**
  Worked examples: the header recogniser on individual lines, and a small
  document (a title, a blank line, two version sections) with one blame
  range for each header line, whose header positions and line index are
  computed in full.
*/
module Scenarios {
  import opened Wrappers
  import opened Text
  import opened Blame
  import opened VersionHeader
  import opened Changelog
  import opened ChangelogFacts
  import opened DateSort

  const Doc: seq<string> := ["# Changelog", "", "## 2.0.74", "Fix X", "", "## 2.0.73", "Fix Y"]
  const Ranges: seq<LineRange> := [LineRange(3, 3, "2024-01-02", "abc"), LineRange(6, 6, "2024-01-01", "def")]

  /** `## ` followed by a well-formed version captures that version. */
  lemma SpacedHeader(v: string, i: int, j: int)
    requires VersionSplit(v, i, j)
    ensures MatchHeader("## " + v) == Some(v)
  {
    var line := "## " + v;
    assert line[..2] == "##" && line[2..3] == " " && line[3..3 + |v|] == v;
    MatchHeaderComplete(line, 3, v, i, j);
  }

  /** The sample document's header lines capture their versions. */
  lemma DocHeaderAt(j: nat)
    requires j == 2 || j == 5
    ensures MatchHeader(Doc[j]) == DocMatchResults[j]
  {
    var v := DocMatchResults[j].value;
    assert v[..1] == "2" && v[2..3] == "0" && |v| == 6 && (v[4..] == "74" || v[4..] == "73");
    SpacedHeader(v, 1, 3);
    assert Doc[j] == "## " + v;
  }

  /** Several spaces and multi-digit parts. */
  lemma WideHeader()
    ensures MatchHeader("##   10.20.30") == Some("10.20.30")
  {
    var line, v := "##   10.20.30", "10.20.30";
    assert line[..2] == "##" && line[2..5] == "   " && line[5..13] == v;
    assert v[..2] == "10" && v[3..5] == "20" && v[6..] == "30";
    MatchHeaderComplete(line, 5, v, 2, 5);
  }

  /** The separators U+001C to U+001F count as whitespace, for `\s` after `##` and for `strip` on a body. */
  lemma UnitSeparatorHeader(body: seq<string>)
    requires body == ["\U{1F}", "\U{1C}"]
    ensures MatchHeader("##\U{1F}1.2.3") == Some("1.2.3")
    ensures Strip(Join(body)) == ""
  {
    var line, v := "##\U{1F}1.2.3", "1.2.3";
    assert line[..2] == "##" && line[2] == '\U{1F}' && |line[2..3]| == 1 && line[3..8] == v;
    assert v[..1] == "1" && v[2..3] == "2" && v[4..] == "3";
    MatchHeaderComplete(line, 3, v, 1, 3);
    assert AllSpace(body[0]) && AllSpace(body[1]);
    JoinedEmptyIff(body);
  }




  /** A fourth version part after the third is not captured. */
  lemma FourthPartIgnored()
    ensures MatchHeader("## 1.2.3.4") == Some("1.2.3")
  {
    var line, v := "## 1.2.3.4", "1.2.3";
    assert line[..2] == "##" && line[2..3] == " " && line[3..8] == v;
    assert v[..1] == "1" && v[2..3] == "2" && v[4..] == "3";
    MatchHeaderComplete(line, 3, v, 1, 3);
  }

  /** Letters right after the version are not captured, and a tab counts as whitespace. */
  lemma TrailingLettersIgnored()
    ensures MatchHeader("##\t1.2.3abc") == Some("1.2.3")
  {
    var line, v := "##\t1.2.3abc", "1.2.3";
    assert line[..2] == "##" && line[2] == '\t' && |line[2..3]| == 1 && line[3..8] == v;
    assert v[..1] == "1" && v[2..3] == "2" && v[4..] == "3";
    MatchHeaderComplete(line, 3, v, 1, 3);
  }

  lemma OtherLinesDoNotMatch()
    ensures MatchHeader("# Changelog") == None && MatchHeader("") == None
    ensures MatchHeader("Fix X") == None && MatchHeader("Fix Y") == None
  {
  }

  const DocMatchResults: seq<Option<string>> := [None, None, Some("2.0.74"), None, None, Some("2.0.73"), None]

  lemma DocMatchAt(j: nat)
    requires j < |Doc|
    ensures MatchHeader(Doc[j]) == DocMatchResults[j]
  {
    OtherLinesDoNotMatch();
    if j == 2 || j == 5 { DocHeaderAt(j); }
  }

  lemma DocMatches()
    ensures Matches(Doc) == DocMatchResults
  {
    forall j | 0 <= j < |Doc| ensures Matches(Doc)[j] == DocMatchResults[j] {
      MatchesAt(Doc, j);
      DocMatchAt(j);
    }
  }

  lemma DocPositions()
    ensures HeaderPositions(DocMatchResults) == [2, 5]
  {
    var ms := DocMatchResults;
    PositionsNone(ms, 2);
    PositionsAfter(ms, 2, 5);
    PositionsAfter(ms, 5, 7);
    assert ms[..7] == ms;
  }

  /** The document's header lines are its third and sixth lines. */
  lemma DocHeaderLines()
    ensures HeaderLines(Doc) == [2, 5]
  {
    DocMatches();
    DocPositions();
  }

  const DocIndexValue: LineIndex := map[2 := LineInfo("2024-01-02", "abc"), 5 := LineInfo("2024-01-01", "def")]

  /** Each one-line range, 1-based, indexes its line at the 0-based position one below. */
  lemma DocIndex()
    ensures IndexOf(Ranges) == DocIndexValue
  {
    assert Ranges[..1] == [Ranges[0]];
    assert Fill(2, 3, LineInfo("2024-01-02", "abc")) == map[2 := LineInfo("2024-01-02", "abc")];
    assert Fill(5, 6, LineInfo("2024-01-01", "def")) == map[5 := LineInfo("2024-01-01", "def")];
  }

  const DocRecordsValue: seq<VersionRecord> :=
    [VersionRecord("2.0.74", Some("2024-01-02"), Some("abc"), "Fix X"),
     VersionRecord("2.0.73", Some("2024-01-01"), Some("def"), "Fix Y")]

  /** The bodies of the sample document's two records, joined and stripped. */
  lemma DocDescriptions(lines: seq<string>)
    requires lines == Doc
    ensures Strip(Join(lines[3..5])) == "Fix X"
    ensures Strip(Join(lines[6..7])) == "Fix Y"
  {
    assert lines[3..5] == ["Fix X", ""] && lines[6..7] == ["Fix Y"];
    OneLineBody(lines[3..5], "Fix X");
    OneLineBody(lines[6..7], "Fix Y");
  }

  /** A body of one word-bounded line, alone or followed by a blank line, strips to that line. */
  lemma OneLineBody(body: seq<string>, w: string)
    requires body == [w] || body == [w, ""]
    requires w != [] && !IsSpace(w[0]) && !IsSpace(w[|w| - 1])
    ensures Strip(Join(body)) == w
  {
    if body == [w] {
      assert Join(body) == "" + w + "";
      StripAround("", w, "");
    } else {
      assert Join(body) == "" + w + "\n";
      StripAround("", w, "\n");
    }
  }

  /** A record, from its header's match, the blame data at its header line and its stripped body. */
  lemma RecordFromParts(lines: seq<string>, index: LineIndex, ms: seq<Option<string>>, hs: seq<nat>, k: nat,
                        v: string, date: Option<string>, oid: Option<string>, desc: string)
    requires Matches(lines) == ms && HeaderPositions(ms) == hs && k < |hs|
    requires ms[hs[k]] == Some(v) && DateAt(index, hs[k]) == date && OidAt(index, hs[k]) == oid
    requires Strip(Join(lines[hs[k] + 1..BodyEnd(hs, k, |lines|)])) == desc
    ensures |Records(lines, index)| == |hs|
    ensures Records(lines, index)[k] == VersionRecord(v, date, oid, desc)
  {
  }

  /** The sample document's first record: version 2.0.74, headed at 0-based line 2, its body up to line 5. */
  lemma DocFirstRecord(lines: seq<string>)
    requires lines == Doc
    ensures |Records(lines, DocIndexValue)| == 2
    ensures Records(lines, DocIndexValue)[0] == DocRecordsValue[0]
  {
    assert Matches(lines) == DocMatchResults by { DocMatches(); }
    assert HeaderPositions(DocMatchResults) == [2, 5] by { DocPositions(); }
    assert DateAt(DocIndexValue, 2) == Some("2024-01-02") && OidAt(DocIndexValue, 2) == Some("abc");
    assert BodyEnd([2, 5], 0, |lines|) == 5;
    assert Strip(Join(lines[3..5])) == "Fix X" by { DocDescriptions(lines); }
    RecordFromParts(lines, DocIndexValue, DocMatchResults, [2, 5], 0, "2.0.74", Some("2024-01-02"), Some("abc"), "Fix X");
  }

  /** The sample document's second record: version 2.0.73, headed at 0-based line 5, its body up to the end. */
  lemma DocSecondRecord(lines: seq<string>)
    requires lines == Doc
    ensures |Records(lines, DocIndexValue)| == 2
    ensures Records(lines, DocIndexValue)[1] == DocRecordsValue[1]
  {
    assert Matches(lines) == DocMatchResults by { DocMatches(); }
    assert HeaderPositions(DocMatchResults) == [2, 5] by { DocPositions(); }
    assert DateAt(DocIndexValue, 5) == Some("2024-01-01") && OidAt(DocIndexValue, 5) == Some("def");
    assert BodyEnd([2, 5], 1, |lines|) == 7;
    assert Strip(Join(lines[6..7])) == "Fix Y" by { DocDescriptions(lines); }
    RecordFromParts(lines, DocIndexValue, DocMatchResults, [2, 5], 1, "2.0.73", Some("2024-01-01"), Some("def"), "Fix Y");
  }

  /** The sample document yields its two versions in document order. The document is passed as `lines`, equal to
      `Doc`, so that the verifier reasons about it through the lemmas above rather than by evaluating the literal. */
  lemma DocRecords(lines: seq<string>)
    requires lines == Doc
    ensures Records(lines, IndexOf(Ranges)) == DocRecordsValue
  {
    DocIndex();
    DocFirstRecord(lines);
    DocSecondRecord(lines);
  }

  /** Sorting by date puts 2.0.73, committed a day earlier, before 2.0.74. */
  lemma DocSorted()
    ensures InsertionSort(DocRecordsValue) == [DocRecordsValue[1], DocRecordsValue[0]]
  {
    var a, b := "2024-01-02", "2024-01-01";
    assert a[..9] == b[..9] && a[9] == '2' && b[9] == '1';
    StrLeFirstDifference(a, b, 9);
    InsertionSortSwaps(DocRecordsValue[0], DocRecordsValue[1]);
  }
}
