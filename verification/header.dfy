/**
  The version-header recogniser, `re.match(r"^##\s+(\d+\.\d+\.\d+)", line)`
  (main.py:125, main.py:138). The three character classes involved are
  disjoint, so the whitespace run and the first two digit runs are fixed;
  the last `\d+` could stop anywhere inside the final digit run, and the
  match `re.match` returns is the greedy one, which reads it to its end.
  The captured version is `major.minor.patch` with each part a maximal
  run of digits, and whatever follows it on the line is ignored.
*/
module VersionHeader {
  import opened Wrappers
  import opened Text

  /** The length of the run of whitespace starting at `i`. */
  function SpaceRun(s: string, i: nat): (n: nat)
    requires i <= |s|
    ensures i + n <= |s|
    decreases |s| - i
  {
    if i < |s| && IsSpace(s[i]) then 1 + SpaceRun(s, i + 1) else 0
  }

  /** The length of the run of digits starting at `i`. */
  function DigitRun(s: string, i: nat): (n: nat)
    requires i <= |s|
    ensures i + n <= |s|
    decreases |s| - i
  {
    if i < |s| && IsDigit(s[i]) then 1 + DigitRun(s, i + 1) else 0
  }

  /** The whitespace run is whitespace, and stops at a non-whitespace character or the end. */
  lemma {:induction false} SpaceRunMaximal(s: string, i: nat)
    requires i <= |s|
    ensures forall k :: i <= k < i + SpaceRun(s, i) ==> IsSpace(s[k])
    ensures i + SpaceRun(s, i) == |s| || !IsSpace(s[i + SpaceRun(s, i)])
    decreases |s| - i
  {
    if i < |s| && IsSpace(s[i]) { SpaceRunMaximal(s, i + 1); }
  }

  /** The digit run is digits, and stops at a non-digit or the end. */
  lemma {:induction false} DigitRunMaximal(s: string, i: nat)
    requires i <= |s|
    ensures forall k :: i <= k < i + DigitRun(s, i) ==> IsDigit(s[k])
    ensures i + DigitRun(s, i) == |s| || !IsDigit(s[i + DigitRun(s, i)])
    decreases |s| - i
  {
    if i < |s| && IsDigit(s[i]) { DigitRunMaximal(s, i + 1); }
  }

  /** Where `\d+` followed by `dots` repetitions of `\.\d+` ends when matched from `i`, or None. */
  function VersionEnd(line: string, i: nat, dots: nat): (e: Option<nat>)
    requires i <= |line|
    ensures e.Some? ==> i < e.value <= |line|
    decreases dots
  {
    var n := DigitRun(line, i);
    if n == 0 then None
    else if dots == 0 then Some(i + n)
    else if i + n < |line| && line[i + n] == '.' then VersionEnd(line, i + n + 1, dots - 1)
    else None
  }

  /** The captured group of `^##\s+(\d+\.\d+\.\d+)`, or None when the line does not match. */
  function MatchHeader(line: string): (m: Option<string>)
    ensures m.Some? ==> |m.value| > 0
  {
    if |line| < 2 || line[0] != '#' || line[1] != '#' then None
    else
      var p := 2 + SpaceRun(line, 2);
      if p == 2 then None
      else match VersionEnd(line, p, 2)
        case None => None
        case Some(e) => Some(line[p..e])
  }

  predicate IsHeader(line: string) {
    MatchHeader(line).Some?
  }

  /** `version_match.group(1)`. */
  function HeaderVersion(line: string): string
    requires IsHeader(line)
  {
    MatchHeader(line).value
  }

  /** `v` is `major.minor.patch`, the dots at positions `i` and `j`, each part a non-empty run of digits. */
  predicate VersionSplit(v: string, i: int, j: int) {
    0 < i && i + 1 < j && j + 1 < |v| && v[i] == '.' && v[j] == '.'
    && AllDigits(v[..i]) && AllDigits(v[i + 1..j]) && AllDigits(v[j + 1..])
  }

  ghost predicate IsVersion(v: string) {
    exists i, j :: VersionSplit(v, i, j)
  }

  /** `line` is `##`, whitespace up to position `p`, the version `v`, then a non-digit or the end. */
  predicate HeaderLayout(line: string, p: int, v: string) {
    2 < p && p + |v| <= |line| && line[..2] == "##"
    && AllSpace(line[2..p]) && line[p..p + |v|] == v
    && (p + |v| == |line| || !IsDigit(line[p + |v|]))
  }

  /** A run that ends where the class stops has the length of the run. */
  lemma {:induction false} SpaceRunExact(s: string, i: nat, e: nat)
    requires i <= e <= |s|
    requires forall k :: i <= k < e ==> IsSpace(s[k])
    requires e == |s| || !IsSpace(s[e])
    ensures SpaceRun(s, i) == e - i
    decreases e - i
  {
    if i < e { SpaceRunExact(s, i + 1, e); }
  }

  lemma {:induction false} DigitRunExact(s: string, i: nat, e: nat)
    requires i <= e <= |s|
    requires forall k :: i <= k < e ==> IsDigit(s[k])
    requires e == |s| || !IsDigit(s[e])
    ensures DigitRun(s, i) == e - i
    decreases e - i
  {
    if i < e { DigitRunExact(s, i + 1, e); }
  }

  /** Digits of a part of `v` are digits of the line where `v` sits. */
  lemma DigitsInLine(line: string, p: nat, v: string, lo: nat, hi: nat)
    requires p + |v| <= |line| && line[p..p + |v|] == v
    requires lo <= hi <= |v| && AllDigits(v[lo..hi])
    ensures forall k :: p + lo <= k < p + hi ==> IsDigit(line[k])
  {
    forall k | p + lo <= k < p + hi ensures IsDigit(line[k]) {
      assert line[k] == line[p..p + |v|][k - p] == v[lo..hi][k - p - lo];
    }
  }

  /** The runs behind a match: whitespace up to `p`, then digit runs of lengths `a`, `b` and `c` separated by dots. */
  lemma MatchRuns(line: string) returns (p: nat, a: nat, b: nat, c: nat)
    requires IsHeader(line)
    ensures |line| >= 2 && line[0] == '#' && line[1] == '#'
    ensures p == 2 + SpaceRun(line, 2) && 2 < p
    ensures a == DigitRun(line, p) && 0 < a && p + a < |line| && line[p + a] == '.'
    ensures b == DigitRun(line, p + a + 1) && 0 < b && p + a + 1 + b < |line| && line[p + a + 1 + b] == '.'
    ensures c == DigitRun(line, p + a + b + 2) && 0 < c
    ensures HeaderVersion(line) == line[p..p + a + b + c + 2]
  {
    p := 2 + SpaceRun(line, 2);
    a := DigitRun(line, p);
    b := DigitRun(line, p + a + 1);
    c := DigitRun(line, p + a + b + 2);
    assert VersionEnd(line, p, 2).Some?;
    assert VersionEnd(line, p, 2) == VersionEnd(line, p + a + 1, 1);
    assert VersionEnd(line, p + a + 1, 1) == VersionEnd(line, p + a + b + 2, 0);
  }

  /** The characters of `v[from..to]` are digits when the line's are, `v` sitting at `p` in the line. */
  lemma PartDigits(line: string, p: nat, v: string, from: nat, to: nat)
    requires p + |v| <= |line| && v == line[p..p + |v|] && from <= to <= |v|
    requires forall k :: p + from <= k < p + to ==> IsDigit(line[k])
    ensures AllDigits(v[from..to])
  {
    var part := v[from..to];
    forall k | 0 <= k < |part| ensures IsDigit(part[k]) { assert part[k] == line[p + from + k]; }
  }

  /** Three digit runs separated by single dots, read off the line, form a well-formed version. */
  lemma RunsVersion(line: string, p: nat, a: nat, b: nat, c: nat)
    requires 0 < a && 0 < b && 0 < c && p + a + b + c + 2 <= |line|
    requires line[p + a] == '.' && line[p + a + 1 + b] == '.'
    requires a == DigitRun(line, p) && b == DigitRun(line, p + a + 1) && c == DigitRun(line, p + a + b + 2)
    ensures VersionSplit(line[p..p + a + b + c + 2], a, a + 1 + b)
  {
    DigitRunMaximal(line, p);
    DigitRunMaximal(line, p + a + 1);
    DigitRunMaximal(line, p + a + b + 2);
    var v := line[p..p + a + b + c + 2];
    PartDigits(line, p, v, 0, a);
    PartDigits(line, p, v, a + 1, a + 1 + b);
    PartDigits(line, p, v, a + b + 2, |v|);
    assert v[a] == line[p + a] && v[a + 1 + b] == line[p + a + 1 + b];
    assert v[..a] == v[0..a] && v[a + b + 2..] == v[a + b + 2..|v|];
  }

  /** Every match captures a well-formed version. */
  lemma MatchHeaderVersion(line: string)
    requires IsHeader(line)
    ensures IsVersion(HeaderVersion(line))
  {
    var p, a, b, c := MatchRuns(line);
    RunsVersion(line, p, a, b, c);
    assert VersionSplit(HeaderVersion(line), a, a + 1 + b);
  }

  /** Every match sits in the header layout. */
  lemma MatchHeaderLayout(line: string)
    requires IsHeader(line)
    ensures exists p :: HeaderLayout(line, p, HeaderVersion(line))
  {
    var p, a, b, c := MatchRuns(line);
    SpaceRunMaximal(line, 2);
    DigitRunMaximal(line, p + a + b + 2);
    var ws := line[2..p];
    forall k | 0 <= k < |ws| ensures IsSpace(ws[k]) { assert ws[k] == line[2 + k]; }
    assert line[..2] == "##";
    assert HeaderLayout(line, p, HeaderVersion(line));
  }

  /** Every line with the header layout and a well-formed version matches, capturing that version. */
  lemma MatchHeaderComplete(line: string, p: int, v: string, i: int, j: int)
    requires HeaderLayout(line, p, v)
    requires VersionSplit(v, i, j)
    ensures MatchHeader(line) == Some(v)
  {
    LayoutRuns(line, p, v, i, j);
    RunsEnd(line, p, i, j - i - 1, |v| - j - 1);
  }

  /** Three digit runs separated by single dots are read to the end of the third. */
  lemma RunsEnd(line: string, p: nat, a: nat, b: nat, c: nat)
    requires 0 < a && 0 < b && 0 < c && p + a + b + c + 2 <= |line|
    requires line[p + a] == '.' && line[p + a + 1 + b] == '.'
    requires a == DigitRun(line, p) && b == DigitRun(line, p + a + 1) && c == DigitRun(line, p + a + b + 2)
    ensures VersionEnd(line, p, 2) == Some(p + a + b + c + 2)
  {
    assert VersionEnd(line, p, 2) == VersionEnd(line, p + a + 1, 1);
    assert VersionEnd(line, p + a + 1, 1) == VersionEnd(line, p + a + b + 2, 0);
  }

  /** The run lengths the recogniser measures on a line with the header layout. */
  lemma LayoutRuns(line: string, p: int, v: string, i: int, j: int)
    requires HeaderLayout(line, p, v)
    requires VersionSplit(v, i, j)
    ensures |line| >= 2 && line[0] == '#' && line[1] == '#'
    ensures SpaceRun(line, 2) == p - 2
    ensures DigitRun(line, p) == i && line[p + i] == '.'
    ensures DigitRun(line, p + i + 1) == j - i - 1 && line[p + j] == '.'
    ensures DigitRun(line, p + j + 1) == |v| - j - 1
  {
    assert line[0] == line[..2][0] && line[1] == line[..2][1];
    var ws := line[2..p];
    assert forall k :: 2 <= k < p ==> line[k] == ws[k - 2];
    assert line[p] == v[0] == v[..i][0];
    SpaceRunExact(line, 2, p);
    DigitsInLine(line, p, v, 0, i);
    DigitsInLine(line, p, v, i + 1, j);
    DigitsInLine(line, p, v, j + 1, |v|);
    assert line[p + i] == v[i] && line[p + j] == v[j];
    DigitRunExact(line, p, p + i);
    DigitRunExact(line, p + i + 1, p + j);
    DigitRunExact(line, p + j + 1, p + |v|);
  }
}
