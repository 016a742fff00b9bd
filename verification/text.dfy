/**
  Character classes and the string helpers of the changelog parser:
  `"\n".join`, `str.strip` and Python truthiness of optional strings.
  Whitespace is the set of ASCII characters that `\s` matches and `strip`
  removes in Python: space, tab, line feed, vertical tab, form feed,
  carriage return, and the four separators U+001C to U+001F.
*/
module Text {
  import opened Wrappers

  predicate IsSpace(c: char) {
    // tab, line feed, vertical tab, form feed and carriage return are U+0009 to U+000D
    c == ' ' || '\t' <= c <= '\r' || '\U{1C}' <= c <= '\U{1F}'
  }

  predicate IsDigit(c: char) {
    '0' <= c <= '9'
  }

  predicate AllSpace(s: string) {
    forall k :: 0 <= k < |s| ==> IsSpace(s[k])
  }

  predicate AllDigits(s: string) {
    forall k :: 0 <= k < |s| ==> IsDigit(s[k])
  }

  predicate NoNewline(s: string) {
    forall k :: 0 <= k < |s| ==> s[k] != '\n'
  }

  /** Python truthiness of a value that is `None` or a string: `None` and `""` are false. */
  predicate Truthy(o: Option<string>) {
    o.Some? && o.value != ""
  }

  /** `"\n".join(ls)`. */
  function Join(ls: seq<string>): (s: string)
    ensures |ls| == 0 ==> s == ""
    ensures |ls| == 1 ==> s == ls[0]
  {
    if |ls| == 0 then ""
    else if |ls| == 1 then ls[0]
    else ls[0] + "\n" + Join(ls[1..])
  }

  /** `s.split("\n")`: the reference inverse of Join; never empty. */
  function Split(s: string): (ls: seq<string>)
    ensures |ls| >= 1
    ensures forall k :: 0 <= k < |ls| ==> NoNewline(ls[k])
  {
    if s == [] then [""]
    else
      var rest := Split(s[1..]);
      if s[0] == '\n' then [""] + rest
      else [[s[0]] + rest[0]] + rest[1..]
  }

  /** `s.lstrip()`: drops the whitespace prefix and nothing else. */
  function StripLeft(s: string): (r: string)
    ensures |r| <= |s| && r == s[|s| - |r|..]
    ensures r == [] || !IsSpace(r[0])
  {
    if |s| > 0 && IsSpace(s[0]) then StripLeft(s[1..]) else s
  }

  /** What lstrip drops is whitespace. */
  lemma {:induction false} StripLeftDropsSpace(s: string)
    ensures AllSpace(s[..|s| - |StripLeft(s)|])
  {
    if |s| > 0 && IsSpace(s[0]) {
      var t := s[1..];
      StripLeftDropsSpace(t);
      var m := |s| - |StripLeft(s)|;
      forall k | 0 <= k < m ensures IsSpace(s[..m][k]) {
        if k > 0 { assert s[..m][k] == t[..m - 1][k - 1]; }
      }
    }
  }

  /** `s.rstrip()`: drops the whitespace suffix and nothing else. */
  function StripRight(s: string): (r: string)
    ensures |r| <= |s| && r == s[..|r|]
    ensures r == [] || !IsSpace(r[|r| - 1])
  {
    if |s| > 0 && IsSpace(s[|s| - 1]) then StripRight(s[..|s| - 1]) else s
  }

  /** What rstrip drops is whitespace. */
  lemma {:induction false} StripRightDropsSpace(s: string)
    ensures AllSpace(s[|StripRight(s)|..])
  {
    if |s| > 0 && IsSpace(s[|s| - 1]) {
      var t := s[..|s| - 1];
      StripRightDropsSpace(t);
      var n := |StripRight(s)|;
      forall k | 0 <= k < |s| - n ensures IsSpace(s[n..][k]) {
        if n + k < |s| - 1 { assert s[n..][k] == t[n..][k]; }
      }
    }
  }

  /** `s.strip()`: drops the leading and the trailing whitespace. */
  function Strip(s: string): (r: string)
    ensures |r| <= |s|
    ensures r == [] || (!IsSpace(r[0]) && !IsSpace(r[|r| - 1]))
  {
    var l := StripLeft(s);
    var r := StripRight(l);
    assert r != [] ==> r[0] == l[0];
    r
  }

  /** What strip removes: the result is the infix of `s` that starts at `a`, between a whitespace prefix and a whitespace suffix. */
  lemma StripInfix(s: string) returns (a: nat)
    ensures a + |Strip(s)| <= |s| && s[a..a + |Strip(s)|] == Strip(s)
    ensures AllSpace(s[..a]) && AllSpace(s[a + |Strip(s)|..])
  {
    var l := StripLeft(s);
    var r := StripRight(l);
    a := |s| - |l|;
    StripLeftDropsSpace(s);
    StripRightDropsSpace(l);
    assert l == s[a..];
    assert s[a..a + |r|] == l[..|r|] == r;
    assert s[a + |r|..] == l[|r|..];
  }

  /** Whitespace around a text that starts and ends with a non-whitespace character is exactly what strip removes. */
  lemma StripAround(pre: string, mid: string, post: string)
    requires AllSpace(pre) && AllSpace(post)
    requires mid != [] && !IsSpace(mid[0]) && !IsSpace(mid[|mid| - 1])
    ensures Strip(pre + mid + post) == mid
  {
    var s := pre + mid + post;
    var l := StripLeft(s);
    StripLeftDropsSpace(s);
    var d := |s| - |l|;
    SpacePrefix(s, d);
    assert s[|pre|] == mid[0];
    if d < |pre| {
      assert false;
    }
    assert l == mid + post;
    var r := StripRight(l);
    StripRightDropsSpace(l);
    SpaceSuffix(l, |r|);
    assert l[|mid| - 1] == mid[|mid| - 1];
    if |r| > |mid| {
      assert false;
    }
    assert r == l[..|mid|] == mid;
  }

  lemma SpacePrefix(s: string, d: nat)
    requires d <= |s| && AllSpace(s[..d])
    ensures forall k :: 0 <= k < d ==> IsSpace(s[k])
  {
    forall k | 0 <= k < d ensures IsSpace(s[k]) { assert s[..d][k] == s[k]; }
  }

  lemma SpaceSuffix(s: string, n: nat)
    requires n <= |s| && AllSpace(s[n..])
    ensures forall k :: n <= k < |s| ==> IsSpace(s[k])
  {
    forall k | n <= k < |s| ensures IsSpace(s[k]) { assert s[n..][k - n] == s[k]; }
  }

  /** Stripping yields the empty string exactly when the input is all whitespace. */
  lemma StripEmptyIff(s: string)
    ensures Strip(s) == "" <==> AllSpace(s)
  {
    var r := Strip(s);
    var a := StripInfix(s);
    if r == "" {
      forall k | 0 <= k < |s| ensures IsSpace(s[k]) {
        if k < a { assert s[..a][k] == s[k]; } else { assert s[a..][k - a] == s[k]; }
      }
    } else {
      assert s[a] == r[0];
    }
  }

  /** Stripping twice changes nothing. */
  lemma StripIdempotent(s: string)
    ensures Strip(Strip(s)) == Strip(s)
  {
    var r := Strip(s);
    assert StripLeft(r) == r;
    assert StripRight(r) == r;
  }

  /** Joining lines that are all whitespace gives whitespace, since the separator is whitespace too. */
  lemma {:induction false} JoinAllSpace(ls: seq<string>)
    requires forall k :: 0 <= k < |ls| ==> AllSpace(ls[k])
    ensures AllSpace(Join(ls))
  {
    if |ls| > 1 {
      JoinAllSpace(ls[1..]);
      var j := Join(ls[1..]);
      assert Join(ls) == ls[0] + "\n" + j;
      forall k | 0 <= k < |Join(ls)| ensures IsSpace(Join(ls)[k]) {
        if k < |ls[0]| {
        } else if k == |ls[0]| {
        } else {
          assert Join(ls)[k] == j[k - |ls[0]| - 1];
        }
      }
    }
  }

  /** Conversely, when the joined text is whitespace, so is every line. */
  lemma {:induction false} JoinAllSpaceParts(ls: seq<string>)
    requires AllSpace(Join(ls))
    ensures forall k :: 0 <= k < |ls| ==> AllSpace(ls[k])
  {
    if |ls| > 1 {
      var j := Join(ls[1..]);
      var s := Join(ls);
      assert s == ls[0] + "\n" + j;
      forall k | 0 <= k < |ls[0]| ensures IsSpace(ls[0][k]) { assert s[k] == ls[0][k]; }
      forall k | 0 <= k < |j| ensures IsSpace(j[k]) { assert s[|ls[0]| + 1 + k] == j[k]; }
      JoinAllSpaceParts(ls[1..]);
      forall k | 0 <= k < |ls| ensures AllSpace(ls[k]) {
        if k > 0 { assert ls[k] == ls[1..][k - 1]; }
      }
    }
  }

  /** Joined and stripped, lines give the empty string exactly when every one of them is whitespace. */
  lemma JoinedEmptyIff(ls: seq<string>)
    ensures Strip(Join(ls)) == "" <==> forall x :: 0 <= x < |ls| ==> AllSpace(ls[x])
  {
    StripEmptyIff(Join(ls));
    if forall x :: 0 <= x < |ls| ==> AllSpace(ls[x]) {
      JoinAllSpace(ls);
    } else if AllSpace(Join(ls)) {
      JoinAllSpaceParts(ls);
    }
  }

  /** Splitting a newline-free string followed by a newline peels that string off. */
  lemma {:induction false} SplitPrefix(a: string, t: string)
    requires NoNewline(a)
    ensures Split(a + "\n" + t) == [a] + Split(t)
  {
    if a == [] {
      assert a + "\n" + t == "\n" + t;
      assert ("\n" + t)[1..] == t;
    } else {
      assert (a + "\n" + t)[1..] == a[1..] + "\n" + t;
      SplitPrefix(a[1..], t);
      assert [a[0]] + a[1..] == a;
    }
  }

  /** A newline-free string splits into itself. */
  lemma {:induction false} SplitSingle(a: string)
    requires NoNewline(a)
    ensures Split(a) == [a]
  {
    if a != [] {
      SplitSingle(a[1..]);
      assert [a[0]] + a[1..] == a;
    }
  }

  /** Round trip: splitting the joined lines gives the lines back. */
  lemma {:induction false} SplitJoin(ls: seq<string>)
    requires |ls| > 0
    requires forall k :: 0 <= k < |ls| ==> NoNewline(ls[k])
    ensures Split(Join(ls)) == ls
  {
    if |ls| == 1 {
      SplitSingle(ls[0]);
    } else {
      SplitJoin(ls[1..]);
      SplitPrefix(ls[0], Join(ls[1..]));
    }
  }

  /** Round trip: joining the split pieces gives the string back. */
  lemma {:induction false} JoinSplit(s: string)
    ensures Join(Split(s)) == s
  {
    if s != [] {
      JoinSplit(s[1..]);
      var rest := Split(s[1..]);
      if s[0] == '\n' {
        assert Split(s) == [""] + rest;
        assert ([""] + rest)[1..] == rest;
        assert s == "" + "\n" + s[1..];
      } else {
        var ls := Split(s);
        assert ls == [[s[0]] + rest[0]] + rest[1..];
        if |rest| == 1 {
          assert s == [s[0]] + s[1..];
        } else {
          assert ls[1..] == rest[1..];
          assert Join(rest) == rest[0] + "\n" + Join(rest[1..]);
          assert s == [s[0]] + s[1..];
        }
      }
    }
  }
}
