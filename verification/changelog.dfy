/**
  `parse_changelog` (main.py:91-162): the blame index followed by the
  segmenter, a two-state machine over the lines of the document. Lines
  before the first version header are dropped; each header closes the
  record under construction and opens a new one whose date and commit id
  are the index entry at the header's own 0-based position; every other
  line goes to the current description buffer, which is joined with
  newlines and stripped when its record is closed.

  The specification is stated over the lines together with the result of
  matching the header pattern against each of them (`Matches`), so that
  the segmentation reasoning does not depend on how the pattern is matched.
*/
module Changelog {
  import opened Wrappers
  import opened Text
  import opened Blame
  import opened VersionHeader

  datatype VersionRecord = VersionRecord(version: string, date: Option<string>, oid: Option<string>, description: string)

  /** `line_data_map.get(h)["date"]`, or None when the line is not indexed. */
  function DateAt(index: LineIndex, h: int): Option<string> {
    if h in index then Some(index[h].date) else None
  }

  /** `line_data_map.get(h)["oid"]`, or None when the line is not indexed. */
  function OidAt(index: LineIndex, h: int): Option<string> {
    if h in index then Some(index[h].oid) else None
  }

  /** The header match of every line of the document. */
  function Matches(lines: seq<string>): (ms: seq<Option<string>>)
    ensures |ms| == |lines|
  {
    if lines == [] then [] else Matches(lines[..|lines| - 1]) + [MatchHeader(lines[|lines| - 1])]
  }

  /** The match recorded for line `j` is the match of that line. */
  lemma {:induction false} MatchesAt(lines: seq<string>, j: nat)
    requires j < |lines|
    ensures Matches(lines)[j] == MatchHeader(lines[j])
  {
    if j < |lines| - 1 {
      MatchesAt(lines[..|lines| - 1], j);
    }
  }

  /** A matching line captures a non-empty version. */
  lemma MatchesNonEmpty(lines: seq<string>, j: nat)
    requires j < |lines|
    ensures Matches(lines)[j].Some? ==> Matches(lines)[j].value != ""
  {
    MatchesAt(lines, j);
  }

  /** The positions of the matching lines, in document order. */
  function HeaderPositions(ms: seq<Option<string>>): (hs: seq<nat>)
    ensures forall k :: 0 <= k < |hs| ==> hs[k] < |ms| && ms[hs[k]].Some?
    ensures forall k :: 0 < k < |hs| ==> hs[k - 1] < hs[k]
  {
    if ms == [] then []
    else
      var n := |ms| - 1;
      var prev := HeaderPositions(ms[..n]);
      assert forall j :: 0 <= j < n ==> ms[..n][j] == ms[j];
      prev + (if ms[n].Some? then [n] else [])
  }

  /** The positions are strictly increasing, and every matching line is among them. */
  lemma {:induction false} HeaderPositionsExact(ms: seq<Option<string>>)
    ensures forall k, l :: 0 <= k < l < |HeaderPositions(ms)| ==> HeaderPositions(ms)[k] < HeaderPositions(ms)[l]
    ensures forall j :: 0 <= j < |ms| && ms[j].Some? ==> j in HeaderPositions(ms)
  {
    if ms != [] {
      var n := |ms| - 1;
      HeaderPositionsExact(ms[..n]);
      assert forall j :: 0 <= j < n ==> ms[..n][j] == ms[j];
    }
  }

  /** Where the body of the k-th record ends: the next header, or the end of the document. */
  function BodyEnd(hs: seq<nat>, k: nat, n: nat): nat
    requires k < |hs|
  {
    if k + 1 < |hs| then hs[k + 1] else n
  }

  /** The record opened by the header at `h` whose body runs up to, not including, line `e`. */
  function RecordOf(lines: seq<string>, ms: seq<Option<string>>, index: LineIndex, h: nat, e: nat): VersionRecord
    requires |ms| == |lines| && h < e <= |lines| && ms[h].Some?
  {
    VersionRecord(ms[h].value, DateAt(index, h), OidAt(index, h), Strip(Join(lines[h + 1..e])))
  }

  /** One record per matching line, in document order, each body running to the next header. */
  function Segments(lines: seq<string>, ms: seq<Option<string>>, index: LineIndex): (rs: seq<VersionRecord>)
    requires |ms| == |lines|
    ensures |rs| == |HeaderPositions(ms)|
  {
    var hs := HeaderPositions(ms);
    seq(|hs|, k requires 0 <= k < |hs| => RecordOf(lines, ms, index, hs[k], BodyEnd(hs, k, |lines|)))
  }

  /** The records `parse_changelog` returns for a document and a line index. */
  function Records(lines: seq<string>, index: LineIndex): (rs: seq<VersionRecord>)
    ensures |rs| == |HeaderPositions(Matches(lines))|
  {
    Segments(lines, Matches(lines), index)
  }

  /** Reading one more line adds its position when it matches. */
  lemma HeaderPositionsStep(ms: seq<Option<string>>, i: nat)
    requires i < |ms|
    ensures HeaderPositions(ms[..i + 1]) == HeaderPositions(ms[..i]) + (if ms[i].Some? then [i] else [])
  {
    assert ms[..i + 1][..i] == ms[..i];
  }

  /** With no match among the first `j` lines there are no header positions. */
  lemma {:induction false} PositionsNone(ms: seq<Option<string>>, j: nat)
    requires j <= |ms|
    requires forall x :: 0 <= x < j ==> ms[x].None?
    ensures HeaderPositions(ms[..j]) == []
  {
    if j > 0 {
      PositionsNone(ms, j - 1);
      HeaderPositionsStep(ms, j - 1);
    }
  }

  /** A match at `h` followed by non-matching lines up to `j` is the last header position of the first `j` lines. */
  lemma {:induction false} PositionsAfter(ms: seq<Option<string>>, h: nat, j: nat)
    requires h < j <= |ms| && ms[h].Some?
    requires forall x :: h < x < j ==> ms[x].None?
    ensures HeaderPositions(ms[..j]) == HeaderPositions(ms[..h]) + [h]
  {
    HeaderPositionsStep(ms, j - 1);
    if j > h + 1 {
      PositionsAfter(ms, h, j - 1);
    }
  }

  /** A record only looks at the lines from its header to the end of its body. */
  lemma RecordOfPrefix(lines: seq<string>, ms: seq<Option<string>>, index: LineIndex, h: nat, e: nat, n: nat)
    requires |ms| == |lines| && h < e <= n <= |lines| && ms[h].Some?
    ensures ms[..n][h] == ms[h]
    ensures RecordOf(lines[..n], ms[..n], index, h, e) == RecordOf(lines, ms, index, h, e)
  {
    assert lines[..n][h + 1..e] == lines[h + 1..e];
  }

  /** The records of the first `j` lines, when the last header before `j` is at `h`: those before `h`, then `h`'s. */
  lemma SegmentsSnoc(lines: seq<string>, ms: seq<Option<string>>, index: LineIndex, h: nat, j: nat)
    requires |ms| == |lines| && h < j <= |lines| && ms[h].Some?
    requires forall x :: h < x < j ==> ms[x].None?
    ensures Segments(lines[..j], ms[..j], index) == Segments(lines[..h], ms[..h], index) + [RecordOf(lines, ms, index, h, j)]
  {
    PositionsAfter(ms, h, j);
    var rs := Segments(lines[..j], ms[..j], index);
    var prev := Segments(lines[..h], ms[..h], index);
    var last := RecordOf(lines, ms, index, h, j);
    assert |rs| == |prev| + 1;
    forall k | 0 <= k < |rs| ensures rs[k] == (prev + [last])[k] {
      if k < |prev| {
        SnocEarlier(lines, ms, index, h, j, k);
        assert (prev + [last])[k] == prev[k];
      } else {
        SnocLast(lines, ms, index, h, j);
        assert (prev + [last])[k] == last;
      }
    }
  }

  /** A record closed before `h` is the same whether the document is cut at `h` or at `j`. */
  lemma SnocEarlier(lines: seq<string>, ms: seq<Option<string>>, index: LineIndex, h: nat, j: nat, k: nat)
    requires |ms| == |lines| && h < j <= |lines| && ms[h].Some?
    requires HeaderPositions(ms[..j]) == HeaderPositions(ms[..h]) + [h]
    requires k < |HeaderPositions(ms[..h])|
    ensures Segments(lines[..j], ms[..j], index)[k] == Segments(lines[..h], ms[..h], index)[k]
  {
    var before := HeaderPositions(ms[..h]);
    var hs := HeaderPositions(ms[..j]);
    var e := BodyEnd(hs, k, j);
    assert hs[k] == before[k] && e == BodyEnd(before, k, h);
    assert Segments(lines[..j], ms[..j], index)[k] == RecordOf(lines[..j], ms[..j], index, hs[k], e);
    assert Segments(lines[..h], ms[..h], index)[k] == RecordOf(lines[..h], ms[..h], index, hs[k], e);
    RecordOfPrefix(lines, ms, index, hs[k], e, j);
    RecordOfPrefix(lines, ms, index, hs[k], e, h);
  }

  /** The record opened at `h` runs to `j`. */
  lemma SnocLast(lines: seq<string>, ms: seq<Option<string>>, index: LineIndex, h: nat, j: nat)
    requires |ms| == |lines| && h < j <= |lines| && ms[h].Some?
    requires HeaderPositions(ms[..j]) == HeaderPositions(ms[..h]) + [h]
    ensures Segments(lines[..j], ms[..j], index)[|HeaderPositions(ms[..h])|] == RecordOf(lines, ms, index, h, j)
  {
    var hs := HeaderPositions(ms[..j]);
    var n := |HeaderPositions(ms[..h])|;
    assert hs[n] == h && BodyEnd(hs, n, |lines[..j]|) == j;
    assert Segments(lines[..j], ms[..j], index)[n] == RecordOf(lines[..j], ms[..j], index, h, j);
    RecordOfPrefix(lines, ms, index, h, j, j);
  }

  /** `re.match(r"^##\s+(\d+\.\d+\.\d+)", line)` on line `i`. */
  method MatchLine(lines: seq<string>, i: nat) returns (m: Option<string>)
    requires i < |lines|
    ensures m == Matches(lines)[i]
  {
    m := MatchHeader(lines[i]);
    MatchesAt(lines, i);
  }

  /** `parse_changelog`: the index of main.py:100-112, then the state machine of main.py:114-162 over it. */
  method ParseChangelog(ranges: seq<LineRange>, lines: seq<string>) returns (versions: seq<VersionRecord>)
    ensures versions == Records(lines, IndexOf(ranges))
  {
    var index := BuildIndex(ranges);
    versions := SegmentLines(lines, index);
  }

  /** The variables of the state machine: the closed records, the record under construction, and the last header line so far
      (-1 before the first one). */
  datatype ScanState = ScanState(versions: seq<VersionRecord>, currentVersion: Option<string>, currentDesc: seq<string>,
                                 currentDate: Option<string>, currentOid: Option<string>, last: int)

  /** The closed records once the record under construction, if any, is closed too. */
  function Closed(s: ScanState): seq<VersionRecord> {
    if Truthy(s.currentVersion)
    then s.versions + [VersionRecord(s.currentVersion.value, s.currentDate, s.currentOid, Strip(Join(s.currentDesc)))]
    else s.versions
  }

  /** One transition on line `i`: a header closes the record under construction and opens one; any other line joins
      the open record's body, or is dropped when none is open. */
  function Step(lines: seq<string>, ms: seq<Option<string>>, index: LineIndex, s: ScanState, i: nat): ScanState
    requires |ms| == |lines| && i < |lines|
  {
    if ms[i].Some? then ScanState(Closed(s), ms[i], [], DateAt(index, i), OidAt(index, i), i)
    else if Truthy(s.currentVersion) then s.(currentDesc := s.currentDesc + [lines[i]])
    else s
  }

  /** The state after the first `i` lines, one transition per line. */
  ghost function Scan(lines: seq<string>, ms: seq<Option<string>>, index: LineIndex, i: nat): ScanState
    requires |ms| == |lines| && i <= |lines|
  {
    if i == 0 then ScanState([], None, [], None, None, -1)
    else Step(lines, ms, index, Scan(lines, ms, index, i - 1), i - 1)
  }

  /** What the segmenter holds after reading the first `i` lines: the closed records are the segments before the
      last header, and the open record is that header's, with the lines after it as its body. */
  ghost predicate SegmenterState(lines: seq<string>, ms: seq<Option<string>>, index: LineIndex, i: nat, s: ScanState)
  {
    var h := s.last;
    && |ms| == |lines|
    && -1 <= h < i <= |lines|
    && (forall x :: h < x < i ==> ms[x].None?)
    && (h == -1 ==> s.currentVersion == None && s.versions == [])
    && (h >= 0 ==>
          && ms[h].Some? && s.currentVersion == ms[h] && ms[h].value != ""
          && s.currentDate == DateAt(index, h) && s.currentOid == OidAt(index, h)
          && s.currentDesc == lines[h + 1..i]
          && s.versions == Segments(lines[..h], ms[..h], index))
  }

  /** A header line closes the record under construction, if any, and opens a new one. */
  lemma HeaderStep(lines: seq<string>, ms: seq<Option<string>>, index: LineIndex, i: nat, s: ScanState)
    requires i < |lines|
    requires SegmenterState(lines, ms, index, i, s)
    requires ms[i].Some? && ms[i].value != ""
    ensures SegmenterState(lines, ms, index, i + 1, Step(lines, ms, index, s, i))
  {
    if s.last >= 0 {
      SegmentsSnoc(lines, ms, index, s.last, i);
    } else {
      PositionsNone(ms, i);
    }
  }

  /** Any other line joins the body of the record under construction, or is dropped before the first header. */
  lemma BodyStep(lines: seq<string>, ms: seq<Option<string>>, index: LineIndex, i: nat, s: ScanState)
    requires i < |lines|
    requires SegmenterState(lines, ms, index, i, s)
    requires ms[i].None?
    ensures SegmenterState(lines, ms, index, i + 1, Step(lines, ms, index, s, i))
  {
    if s.last >= 0 {
      assert lines[s.last + 1..i + 1] == lines[s.last + 1..i] + [lines[i]];
    }
  }

  /** At the end of the document, closing the record under construction gives all the records. */
  lemma FinalStep(lines: seq<string>, ms: seq<Option<string>>, index: LineIndex, s: ScanState)
    requires SegmenterState(lines, ms, index, |lines|, s)
    ensures Closed(s) == Segments(lines, ms, index)
  {
    var n := |lines|;
    assert Segments(lines[..n], ms[..n], index) == Segments(lines, ms, index) by {
      assert lines[..n] == lines && ms[..n] == ms;
    }
    if s.last >= 0 {
      FinalOpen(lines, ms, index, s);
    } else {
      PositionsNone(ms, n);
    }
  }

  /** With a record open, closing it appends the segment running from its header to the end. */
  lemma FinalOpen(lines: seq<string>, ms: seq<Option<string>>, index: LineIndex, s: ScanState)
    requires SegmenterState(lines, ms, index, |lines|, s) && s.last >= 0
    ensures Closed(s) == Segments(lines[..|lines|], ms[..|lines|], index)
  {
    assert Closed(s) == s.versions + [RecordOf(lines, ms, index, s.last, |lines|)];
    SegmentsSnoc(lines, ms, index, s.last, |lines|);
  }

  /** Every match captures a non-empty version. */
  ghost predicate NonEmptyMatches(ms: seq<Option<string>>) {
    forall j :: 0 <= j < |ms| && ms[j].Some? ==> ms[j].value != ""
  }

  /** Every state the machine reaches holds the segmentation of the lines read so far. */
  lemma {:induction false} ScanMeetsState(lines: seq<string>, ms: seq<Option<string>>, index: LineIndex, i: nat)
    requires |ms| == |lines| && i <= |lines| && NonEmptyMatches(ms)
    ensures SegmenterState(lines, ms, index, i, Scan(lines, ms, index, i))
  {
    if i > 0 {
      ScanMeetsState(lines, ms, index, i - 1);
      var s := Scan(lines, ms, index, i - 1);
      if ms[i - 1].Some? {
        HeaderStep(lines, ms, index, i - 1, s);
      } else {
        BodyStep(lines, ms, index, i - 1, s);
      }
    }
  }

  /** Running the machine over the whole document and closing the last record gives the records. */
  lemma ScanRecords(lines: seq<string>, index: LineIndex)
    ensures Closed(Scan(lines, Matches(lines), index, |lines|)) == Records(lines, index)
  {
    var ms := Matches(lines);
    forall j | 0 <= j < |ms| && ms[j].Some? ensures ms[j].value != "" {
      MatchesNonEmpty(lines, j);
    }
    ScanMeetsState(lines, ms, index, |lines|);
    FinalStep(lines, ms, index, Scan(lines, ms, index, |lines|));
  }

  /** The state machine of main.py:114-162: one pass over the lines, closing a record at each header and at the end. */
  method SegmentLines(lines: seq<string>, index: LineIndex) returns (versions: seq<VersionRecord>)
    ensures versions == Records(lines, index)
  {
    ghost var ms := Matches(lines);
    versions := [];
    var currentVersion: Option<string> := None;
    var currentDesc: seq<string> := [];
    var currentDate: Option<string> := None;
    var currentOid: Option<string> := None;
    ghost var state := ScanState(versions, currentVersion, currentDesc, currentDate, currentOid, -1);
    var i := 0;
    while i < |lines|
      invariant i <= |lines| && state == Scan(lines, ms, index, i)
      invariant state.versions == versions && state.currentVersion == currentVersion && state.currentDesc == currentDesc
      invariant state.currentDate == currentDate && state.currentOid == currentOid
    {
      var line := lines[i];
      var versionMatch := MatchLine(lines, i);
      if versionMatch.Some? {
        if Truthy(currentVersion) {
          versions := versions + [VersionRecord(currentVersion.value, currentDate, currentOid, Strip(Join(currentDesc)))];
        }
        currentVersion := versionMatch;
        currentDesc := [];
        currentDate := DateAt(index, i);
        currentOid := OidAt(index, i);
      } else if Truthy(currentVersion) {
        currentDesc := currentDesc + [line];
      }
      state := Step(lines, ms, index, state, i);
      i := i + 1;
    }
    if Truthy(currentVersion) {
      versions := versions + [VersionRecord(currentVersion.value, currentDate, currentOid, Strip(Join(currentDesc)))];
    }
    ScanRecords(lines, index);
  }
}
