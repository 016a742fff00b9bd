/**
  What `parse_changelog` (main.py:91-162) promises about the records it
  returns, stated over the header recogniser rather than over the
  per-line match results: one record per header line, in document order;
  the version is the captured `major.minor.patch` of its header; the date
  and commit id come from the index entry at the header's own position;
  the description is the stripped, newline-joined text strictly between
  the header and the next one (or the end of the document).
*/
module ChangelogFacts {
  import opened Wrappers
  import opened Text
  import opened Blame
  import opened VersionHeader
  import opened Changelog

  /** The number of header lines of a document. */
  function HeaderCount(lines: seq<string>): (n: nat)
    ensures n <= |lines|
  {
    if lines == [] then 0
    else HeaderCount(lines[..|lines| - 1]) + (if IsHeader(lines[|lines| - 1]) then 1 else 0)
  }

  /** The header positions of a document. */
  function HeaderLines(lines: seq<string>): seq<nat> {
    HeaderPositions(Matches(lines))
  }

  /** The header positions are the header lines, each once, in document order. */
  lemma HeaderLinesExact(lines: seq<string>)
    ensures forall k :: 0 <= k < |HeaderLines(lines)| ==>
              HeaderLines(lines)[k] < |lines| && IsHeader(lines[HeaderLines(lines)[k]])
    ensures forall k, l :: 0 <= k < l < |HeaderLines(lines)| ==> HeaderLines(lines)[k] < HeaderLines(lines)[l]
    ensures forall j :: 0 <= j < |lines| && IsHeader(lines[j]) ==> j in HeaderLines(lines)
  {
    var ms := Matches(lines);
    var hs := HeaderLines(lines);
    HeaderPositionsExact(ms);
    forall k | 0 <= k < |hs| ensures IsHeader(lines[hs[k]]) {
      MatchesAt(lines, hs[k]);
    }
    forall j | 0 <= j < |lines| && IsHeader(lines[j]) ensures j in hs {
      MatchesAt(lines, j);
    }
  }

  /** Reading one more line extends the matches by that line's match. */
  lemma MatchesPrefix(lines: seq<string>)
    requires lines != []
    ensures Matches(lines)[..|lines| - 1] == Matches(lines[..|lines| - 1])
  {
  }

  /** One record per header line. */
  lemma {:induction false} RecordCount(lines: seq<string>, index: LineIndex)
    ensures |Records(lines, index)| == HeaderCount(lines)
  {
    if lines != [] {
      var n := |lines| - 1;
      var ms := Matches(lines);
      RecordCount(lines[..n], index);
      MatchesPrefix(lines);
      HeaderPositionsStep(ms, n);
      assert ms[..n + 1] == ms;
      MatchesAt(lines, n);
    }
  }

  /** A document without a header line gives no records. */
  lemma NoHeaderNoRecords(lines: seq<string>, index: LineIndex)
    requires forall j :: 0 <= j < |lines| ==> !IsHeader(lines[j])
    ensures Records(lines, index) == []
  {
    HeaderCountZero(lines);
    RecordCount(lines, index);
  }

  lemma {:induction false} HeaderCountZero(lines: seq<string>)
    requires forall j :: 0 <= j < |lines| ==> !IsHeader(lines[j])
    ensures HeaderCount(lines) == 0
  {
    if lines != [] {
      HeaderCountZero(lines[..|lines| - 1]);
    }
  }

  /** The k-th record, against the k-th header line `h` and the line `e` where its body stops. */
  lemma RecordAt(lines: seq<string>, index: LineIndex, k: nat)
    requires k < |Records(lines, index)|
    ensures var hs := HeaderLines(lines);
            var h := hs[k];
            var e := BodyEnd(hs, k, |lines|);
            var r := Records(lines, index)[k];
            && h < e <= |lines| && IsHeader(lines[h])
            && (e == |lines| || IsHeader(lines[e]))
            && (forall x :: h < x < e ==> !IsHeader(lines[x]))
            && r.version == HeaderVersion(lines[h]) && IsVersion(r.version)
            && r.date == DateAt(index, h) && r.oid == OidAt(index, h)
            && r.description == Strip(Join(lines[h + 1..e]))
  {
    var ms := Matches(lines);
    var hs := HeaderLines(lines);
    var h := hs[k];
    var e := BodyEnd(hs, k, |lines|);
    MatchesAt(lines, h);
    MatchHeaderVersion(lines[h]);
    if e < |lines| {
      MatchesAt(lines, e);
    }
    NoMatchBetween(ms, k);
    forall x | h < x < e ensures !IsHeader(lines[x]) {
      MatchesAt(lines, x);
    }
  }

  /** No line strictly between the k-th header position and the end of its body matches. */
  lemma NoMatchBetween(ms: seq<Option<string>>, k: nat)
    requires k < |HeaderPositions(ms)|
    ensures var hs := HeaderPositions(ms);
            forall x :: hs[k] < x < BodyEnd(hs, k, |ms|) ==> ms[x].None?
  {
    var hs := HeaderPositions(ms);
    HeaderPositionsExact(ms);
    forall x | hs[k] < x < BodyEnd(hs, k, |ms|) ensures ms[x].None? {
      forall l | 0 <= l < |hs| ensures hs[l] != x {
        if l > k + 1 {
          assert hs[k + 1] < hs[l];
        }
      }
      assert x !in hs;
    }
  }

  /** The body of the k-th record: the lines strictly between its header and the next one, or the end. */
  function BodyOf(lines: seq<string>, k: nat): seq<string>
    requires k < |HeaderLines(lines)|
  {
    var hs := HeaderLines(lines);
    lines[hs[k] + 1..BodyEnd(hs, k, |lines|)]
  }

  /** The description of the k-th record is its body, joined and stripped. */
  lemma DescriptionAt(lines: seq<string>, index: LineIndex, k: nat)
    requires k < |Records(lines, index)|
    ensures Records(lines, index)[k].description == Strip(Join(BodyOf(lines, k)))
  {
  }

  /** A body made only of whitespace lines, or no line at all, gives an empty description, and only such a body does. */
  lemma EmptyDescriptionIff(lines: seq<string>, index: LineIndex, k: nat)
    requires k < |Records(lines, index)|
    ensures Records(lines, index)[k].description == "" <==>
            forall x :: 0 <= x < |BodyOf(lines, k)| ==> AllSpace(BodyOf(lines, k)[x])
  {
    DescriptionAt(lines, index, k);
    JoinedEmptyIff(BodyOf(lines, k));
  }

  /** Two consecutive header lines give the first of them an empty description. */
  lemma ConsecutiveHeaders(lines: seq<string>, index: LineIndex, k: nat)
    requires k + 1 < |Records(lines, index)|
    requires HeaderLines(lines)[k + 1] == HeaderLines(lines)[k] + 1
    ensures Records(lines, index)[k].description == ""
  {
    DescriptionAt(lines, index, k);
  }

  /** Documents that differ only in lines before `p`, none of them a header, match the same way. */
  lemma PreambleMatches(lines: seq<string>, other: seq<string>, p: nat)
    requires |lines| == |other| && p <= |lines| && lines[p..] == other[p..]
    requires forall j :: 0 <= j < p ==> !IsHeader(lines[j]) && !IsHeader(other[j])
    ensures Matches(lines) == Matches(other)
    ensures forall j :: 0 <= j < p ==> Matches(lines)[j].None?
  {
    var ms, os := Matches(lines), Matches(other);
    forall j | 0 <= j < |lines| ensures ms[j] == os[j] && (j < p ==> ms[j].None?) {
      MatchesAt(lines, j);
      MatchesAt(other, j);
      if j >= p {
        assert lines[j] == lines[p..][j - p] == other[j];
      }
    }
  }

  /** Documents that agree from line `p` on agree on every stretch of lines after `p`. */
  lemma SameTail(lines: seq<string>, other: seq<string>, p: nat, lo: nat, hi: nat)
    requires |lines| == |other| && p <= lo <= hi <= |lines| && lines[p..] == other[p..]
    ensures lines[lo..hi] == other[lo..hi]
  {
    forall x | lo <= x < hi ensures lines[x] == other[x] {
      assert lines[x] == lines[p..][x - p] && other[x] == other[p..][x - p];
    }
  }

  /** The k-th record reads only its header's match and its body lines. */
  lemma SameBody(lines: seq<string>, other: seq<string>, ms: seq<Option<string>>, index: LineIndex, k: nat)
    requires |lines| == |other| == |ms| && k < |HeaderPositions(ms)|
    requires var hs := HeaderPositions(ms);
             lines[hs[k] + 1..BodyEnd(hs, k, |lines|)] == other[hs[k] + 1..BodyEnd(hs, k, |lines|)]
    ensures Segments(lines, ms, index)[k] == Segments(other, ms, index)[k]
  {
  }

  /** Records only read the lines from the first match on. */
  lemma SegmentsAfter(lines: seq<string>, other: seq<string>, ms: seq<Option<string>>, index: LineIndex, p: nat)
    requires |lines| == |other| == |ms| && p <= |lines| && lines[p..] == other[p..]
    requires forall j :: 0 <= j < p ==> ms[j].None?
    ensures Segments(lines, ms, index) == Segments(other, ms, index)
  {
    var hs := HeaderPositions(ms);
    var rs, os := Segments(lines, ms, index), Segments(other, ms, index);
    forall k | 0 <= k < |rs| ensures rs[k] == os[k] {
      var e := BodyEnd(hs, k, |lines|);
      SameTail(lines, other, p, hs[k] + 1, e);
      SameBody(lines, other, ms, index, k);
    }
  }

  /** The lines before the first header never reach a record: documents that differ only there give the same records. */
  lemma PreambleIgnored(lines: seq<string>, other: seq<string>, index: LineIndex, p: nat)
    requires |lines| == |other| && p <= |lines| && lines[p..] == other[p..]
    requires forall j :: 0 <= j < p ==> !IsHeader(lines[j]) && !IsHeader(other[j])
    ensures Records(lines, index) == Records(other, index)
  {
    PreambleMatches(lines, other, p);
    SegmentsAfter(lines, other, Matches(lines), index, p);
  }
}
