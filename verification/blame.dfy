/**
  The line-attribution index built from the blame ranges of the changelog
  (main.py:100-112). A range carries 1-based inclusive line bounds; every
  0-based index from `startingLine - 1` up to, but excluding, `endingLine`
  is mapped to the range's commit date and commit id, later ranges
  overwriting earlier ones.
*/
module Blame {

  datatype LineRange = LineRange(startingLine: int, endingLine: int, committedDate: string, oid: string)

  /** The `{"date": ..., "oid": ...}` value stored for a line. */
  datatype LineInfo = LineInfo(date: string, oid: string)

  type LineIndex = map<int, LineInfo>

  function InfoOf(r: LineRange): LineInfo {
    LineInfo(r.committedDate, r.oid)
  }

  /** `i in range(startingLine - 1, endingLine)`. */
  predicate Covers(r: LineRange, i: int) {
    r.startingLine - 1 <= i < r.endingLine
  }

  /** The entries written by `for i in range(lo, hi): index[i] = v`. */
  function Fill(lo: int, hi: int, v: LineInfo): (m: LineIndex)
    ensures forall i :: i in m <==> lo <= i < hi
    ensures forall i :: i in m ==> m[i] == v
    decreases hi - lo
  {
    if hi <= lo then map[] else Fill(lo, hi - 1, v)[hi - 1 := v]
  }

  /** One more iteration of the inner loop extends the filled interval by one line. */
  lemma FillStep(before: LineIndex, lo: int, i: int, v: LineInfo)
    requires lo <= i
    ensures (before + Fill(lo, i, v))[i := v] == before + Fill(lo, i + 1, v)
  {
    assert Fill(lo, i + 1, v) == Fill(lo, i, v)[i := v];
  }

  /** The inner loop stops at the end of the interval, or at once when the interval is empty. */
  lemma FillDone(lo: int, i: int, hi: int, v: LineInfo)
    requires lo <= i && (i <= hi || i == lo) && hi <= i
    ensures Fill(lo, i, v) == Fill(lo, hi, v)
  {
    if hi < i {
      assert Fill(lo, hi, v) == map[] == Fill(lo, i, v);
    }
  }

  /** The entries one range writes. */
  function Span(r: LineRange): (m: LineIndex)
    ensures forall i :: i in m <==> Covers(r, i)
  {
    Fill(r.startingLine - 1, r.endingLine, InfoOf(r))
  }

  /** The index after writing the ranges in order, each one over the result of its predecessors. */
  function IndexOf(ranges: seq<LineRange>): LineIndex {
    if ranges == [] then map[]
    else IndexOf(ranges[..|ranges| - 1]) + Span(ranges[|ranges| - 1])
  }

  /** The position of the last range that covers line `i`, or -1 when none does. */
  function LastCover(ranges: seq<LineRange>, i: int): (k: int)
    ensures -1 <= k < |ranges|
    ensures k >= 0 ==> Covers(ranges[k], i)
    ensures forall j :: k < j < |ranges| ==> !Covers(ranges[j], i)
  {
    if ranges == [] then -1
    else if Covers(ranges[|ranges| - 1], i) then |ranges| - 1
    else LastCover(ranges[..|ranges| - 1], i)
  }

  /** Last write wins: a line is indexed exactly when some range covers it,
      and then it holds the date and id of the last covering range. */
  lemma {:induction false} IndexLookup(ranges: seq<LineRange>, i: int)
    ensures i in IndexOf(ranges) <==> LastCover(ranges, i) >= 0
    ensures i in IndexOf(ranges) ==> IndexOf(ranges)[i] == InfoOf(ranges[LastCover(ranges, i)])
  {
    if ranges != [] {
      IndexLookup(ranges[..|ranges| - 1], i);
    }
  }

  /** A range whose starting line lies after its ending line writes nothing. */
  lemma EmptyRangeWritesNothing(ranges: seq<LineRange>, r: LineRange)
    requires r.startingLine > r.endingLine
    ensures IndexOf(ranges + [r]) == IndexOf(ranges)
  {
    assert (ranges + [r])[..|ranges|] == ranges;
    assert Span(r) == map[];
  }

  ghost predicate Disjoint(ranges: seq<LineRange>) {
    forall j, k, i :: 0 <= j < k < |ranges| && Covers(ranges[j], i) ==> !Covers(ranges[k], i)
  }

  /** When the ranges do not overlap, every covered line resolves to the one range covering it. */
  lemma DisjointLookup(ranges: seq<LineRange>, k: nat, i: int)
    requires Disjoint(ranges)
    requires k < |ranges| && Covers(ranges[k], i)
    ensures i in IndexOf(ranges) && IndexOf(ranges)[i] == InfoOf(ranges[k])
  {
    IndexLookup(ranges, i);
  }

  /** When the inner loop over range `n` stops, the index holds the first `n + 1` ranges. */
  lemma RangeDone(ranges: seq<LineRange>, n: nat, before: LineIndex, i: int, index: LineIndex)
    requires n < |ranges| && before == IndexOf(ranges[..n])
    requires ranges[n].startingLine - 1 <= i && (i <= ranges[n].endingLine || i == ranges[n].startingLine - 1)
    requires ranges[n].endingLine <= i
    requires index == before + Fill(ranges[n].startingLine - 1, i, InfoOf(ranges[n]))
    ensures index == IndexOf(ranges[..n + 1])
  {
    FillDone(ranges[n].startingLine - 1, i, ranges[n].endingLine, InfoOf(ranges[n]));
    assert ranges[..n + 1][..n] == ranges[..n];
  }

  /** The nested loop of main.py:103-112, filling the dictionary one line at a time. */
  method BuildIndex(ranges: seq<LineRange>) returns (index: LineIndex)
    ensures index == IndexOf(ranges)
  {
    index := map[];
    var n := 0;
    while n < |ranges|
      invariant n <= |ranges|
      invariant index == IndexOf(ranges[..n])
    {
      var r := ranges[n];
      var start := r.startingLine - 1;
      var end := r.endingLine;
      ghost var before := index;
      var i := start;
      while i < end
        invariant start <= i
        invariant i <= end || i == start
        invariant index == before + Fill(start, i, InfoOf(r))
      {
        FillStep(before, start, i, InfoOf(r));
        index := index[i := InfoOf(r)];
        i := i + 1;
      }
      RangeDone(ranges, n, before, i, index);
      n := n + 1;
    }
    assert ranges[..n] == ranges;
  }
}
