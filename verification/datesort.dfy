/**
  The ordering step of main.py:210: `versions.sort(key=lambda x: x['date'] or "")`.
  The key of a record is its date, or the empty string when the date is
  None (an empty date is the empty string already); keys are compared as
  Python compares strings, lexicographically by code point. `list.sort`
  is stable, so the result is the one stable sort of the records by key,
  which is computed here by insertion sort, in place on an array.
*/
module DateSort {
  import opened Wrappers
  import opened Changelog

  /** `x['date'] or ""`. */
  function SortKey(r: VersionRecord): string {
    if r.date.Some? then r.date.value else ""
  }

  /** Python's `a <= b` on strings: lexicographic by code point, a proper prefix coming first. */
  predicate StrLe(a: string, b: string) {
    a == [] || (b != [] && (a[0] < b[0] || (a[0] == b[0] && StrLe(a[1..], b[1..]))))
  }

  lemma {:induction false} StrLeRefl(a: string)
    ensures StrLe(a, a)
  {
    if a != [] { StrLeRefl(a[1..]); }
  }

  lemma {:induction false} StrLeTotal(a: string, b: string)
    ensures StrLe(a, b) || StrLe(b, a)
  {
    if a != [] && b != [] && a[0] == b[0] { StrLeTotal(a[1..], b[1..]); }
  }

  lemma {:induction false} StrLeAntisym(a: string, b: string)
    requires StrLe(a, b) && StrLe(b, a)
    ensures a == b
  {
    if a != [] && b != [] {
      StrLeAntisym(a[1..], b[1..]);
      assert a == [a[0]] + a[1..] && b == [b[0]] + b[1..];
    }
  }

  lemma {:induction false} StrLeTrans(a: string, b: string, c: string)
    requires StrLe(a, b) && StrLe(b, c)
    ensures StrLe(a, c)
  {
    if a != [] && b != [] && c != [] && a[0] == b[0] == c[0] {
      StrLeTrans(a[1..], b[1..], c[1..]);
    }
  }

  /** Only the empty string is at or below the empty string, so records without a date sort first. */
  lemma StrLeEmpty(a: string)
    requires StrLe(a, "")
    ensures a == ""
  {
  }

  /** Strings that agree up to position `n` and differ there are ordered by their characters at `n`. */
  lemma {:induction false} StrLeFirstDifference(a: string, b: string, n: nat)
    requires n < |a| && n < |b| && a[..n] == b[..n] && a[n] != b[n]
    ensures StrLe(a, b) <==> a[n] < b[n]
    decreases n
  {
    if n > 0 {
      assert a[0] == a[..n][0] == b[..n][0] == b[0];
      assert a[1..][..n - 1] == a[..n][1..] == b[..n][1..] == b[1..][..n - 1];
      StrLeFirstDifference(a[1..], b[1..], n - 1);
    }
  }

  predicate KeyLe(x: VersionRecord, y: VersionRecord) {
    StrLe(SortKey(x), SortKey(y))
  }

  ghost predicate Sorted(s: seq<VersionRecord>) {
    forall i, j :: 0 <= i < j < |s| ==> KeyLe(s[i], s[j])
  }

  /** Inserting `x` into a sorted list after every record whose key is at most `x`'s. */
  function Insert(s: seq<VersionRecord>, x: VersionRecord): (r: seq<VersionRecord>)
    ensures |r| == |s| + 1
  {
    if s == [] then [x]
    else if KeyLe(s[|s| - 1], x) then s + [x]
    else Insert(s[..|s| - 1], x) + [s[|s| - 1]]
  }

  /** The stable sort of `s` by key: each record inserted, in list order, behind its equals. */
  function InsertionSort(s: seq<VersionRecord>): (r: seq<VersionRecord>)
    ensures |r| == |s|
  {
    if s == [] then [] else Insert(InsertionSort(s[..|s| - 1]), s[|s| - 1])
  }

  /** The records of `s` whose key is `k`, in list order. */
  function WithKey(s: seq<VersionRecord>, k: string): (r: seq<VersionRecord>)
    ensures |r| <= |s|
  {
    if s == [] then []
    else WithKey(s[..|s| - 1], k) + (if SortKey(s[|s| - 1]) == k then [s[|s| - 1]] else [])
  }

  lemma {:induction false} WithKeyAppend(s: seq<VersionRecord>, t: seq<VersionRecord>, k: string)
    ensures WithKey(s + t, k) == WithKey(s, k) + WithKey(t, k)
    decreases |t|
  {
    if t == [] {
      assert s + t == s;
    } else {
      var n := |t| - 1;
      assert (s + t)[..|s + t| - 1] == s + t[..n];
      assert (s + t)[|s + t| - 1] == t[n];
      WithKeyAppend(s, t[..n], k);
    }
  }

  /** The records of `s` with key `k` are exactly those of `s` whose key is `k`. */
  lemma {:induction false} WithKeyMembers(s: seq<VersionRecord>, k: string, x: VersionRecord)
    ensures x in WithKey(s, k) <==> x in s && SortKey(x) == k
  {
    if s != [] {
      var n := |s| - 1;
      WithKeyMembers(s[..n], k, x);
      assert s == s[..n] + [s[n]];
      assert x in s <==> x in s[..n] || x == s[n];
    }
  }

  lemma {:induction false} InsertPermutes(s: seq<VersionRecord>, x: VersionRecord)
    ensures multiset(Insert(s, x)) == multiset(s) + multiset{x}
  {
    if s != [] && !KeyLe(s[|s| - 1], x) {
      InsertPermutes(s[..|s| - 1], x);
      assert s == s[..|s| - 1] + [s[|s| - 1]];
    }
  }

  /** Every record of `Insert(s, x)` is `x` or a record of `s`. */
  lemma InsertMembers(s: seq<VersionRecord>, x: VersionRecord, y: VersionRecord)
    requires y in Insert(s, x)
    ensures y == x || y in s
  {
    InsertPermutes(s, x);
    assert y in multiset(Insert(s, x));
  }

  lemma {:induction false} InsertSorted(s: seq<VersionRecord>, x: VersionRecord)
    requires Sorted(s)
    ensures Sorted(Insert(s, x))
  {
    if s != [] {
      var n := |s| - 1;
      var last := s[n];
      if KeyLe(last, x) {
        var r := s + [x];
        forall i, j | 0 <= i < j < |r| ensures KeyLe(r[i], r[j]) {
          if j == n + 1 && i < n {
            StrLeTrans(SortKey(s[i]), SortKey(last), SortKey(x));
          }
        }
      } else {
        var init := s[..n];
        InsertSorted(init, x);
        var ins := Insert(init, x);
        var r := ins + [last];
        StrLeTotal(SortKey(last), SortKey(x));
        forall i, j | 0 <= i < j < |r| ensures KeyLe(r[i], r[j]) {
          if j == n + 1 {
            assert r[i] in ins;
            InsertMembers(init, x, r[i]);
            if r[i] != x {
              var m :| 0 <= m < n && init[m] == r[i];
              assert s[m] == r[i];
            }
          }
        }
      }
    }
  }

  /** Two records out of key order are swapped. */
  lemma InsertionSortSwaps(x: VersionRecord, y: VersionRecord)
    requires !KeyLe(x, y)
    ensures InsertionSort([x, y]) == [y, x]
  {
    assert [x, y][..1] == [x] && [x][..0] == [];
    assert InsertionSort([x]) == [x];
    assert Insert([x], y) == Insert([], y) + [x];
  }

  /** A key's records stay in the order they had: insertion puts `x` behind the records with its key. */
  lemma {:induction false} InsertKeepsKeyOrder(s: seq<VersionRecord>, x: VersionRecord, k: string)
    ensures WithKey(Insert(s, x), k) == WithKey(s, k) + WithKey([x], k)
  {
    if s == [] {
      assert WithKey([x], k) == WithKey([], k) + WithKey([x], k);
    } else {
      var n := |s| - 1;
      var init := s[..n];
      var last := s[n];
      assert s == init + [last];
      WithKeyAppend(init, [last], k);
      if KeyLe(last, x) {
        WithKeyAppend(s, [x], k);
      } else {
        InsertKeepsKeyOrder(init, x, k);
        WithKeyAppend(Insert(init, x), [last], k);
        if SortKey(last) == k && SortKey(x) == k {
          StrLeRefl(k);
        }
      }
    }
  }

  lemma {:induction false} InsertionSortPermutes(s: seq<VersionRecord>)
    ensures multiset(InsertionSort(s)) == multiset(s)
  {
    if s != [] {
      var n := |s| - 1;
      InsertionSortPermutes(s[..n]);
      InsertPermutes(InsertionSort(s[..n]), s[n]);
      assert s == s[..n] + [s[n]];
    }
  }

  lemma {:induction false} InsertionSortSorted(s: seq<VersionRecord>)
    ensures Sorted(InsertionSort(s))
  {
    if s != [] {
      InsertionSortSorted(s[..|s| - 1]);
      InsertSorted(InsertionSort(s[..|s| - 1]), s[|s| - 1]);
    }
  }

  /** Stability: the records that share a key appear in the sorted list in their original order. */
  lemma {:induction false} InsertionSortStable(s: seq<VersionRecord>, k: string)
    ensures WithKey(InsertionSort(s), k) == WithKey(s, k)
  {
    if s != [] {
      var init, last := s[..|s| - 1], s[|s| - 1];
      InsertionSortStable(init, k);
      InsertKeepsKeyOrder(InsertionSort(init), last, k);
      assert WithKey([last], k) == if SortKey(last) == k then [last] else [] by {
        assert [last][..0] == [];
      }
    }
  }

  /** Records without a date come before every record with a non-empty date. */
  lemma UndatedFirst(s: seq<VersionRecord>, i: nat, j: nat)
    requires Sorted(s) && i < j < |s|
    requires SortKey(s[j]) == ""
    ensures SortKey(s[i]) == ""
  {
    StrLeEmpty(SortKey(s[i]));
  }

  /** A list sorted by key ends with a record of the largest key. */
  lemma LastIsLargest(t: seq<VersionRecord>, y: VersionRecord)
    requires Sorted(t) && y in t
    ensures KeyLe(y, t[|t| - 1])
  {
    var i :| 0 <= i < |t| && t[i] == y;
    if i == |t| - 1 { StrLeRefl(SortKey(y)); }
  }

  /** Two non-empty sorted lists with the same records for every key end with records of the same key. */
  lemma LastKeysAgree(t: seq<VersionRecord>, u: seq<VersionRecord>)
    requires Sorted(t) && Sorted(u) && t != [] && u != []
    requires SameKeyOrder(t, u)
    ensures SortKey(t[|t| - 1]) == SortKey(u[|u| - 1])
  {
    var a, b := t[|t| - 1], u[|u| - 1];
    WithKeyMembers(t, SortKey(a), a);
    WithKeyMembers(u, SortKey(a), a);
    LastIsLargest(u, a);
    WithKeyMembers(u, SortKey(b), b);
    WithKeyMembers(t, SortKey(b), b);
    LastIsLargest(t, b);
    StrLeAntisym(SortKey(a), SortKey(b));
  }

  /** A non-empty list has a record for the key of its first record. */
  lemma FirstKeyPresent(t: seq<VersionRecord>)
    requires t != []
    ensures WithKey(t, SortKey(t[0])) != []
  {
    WithKeyMembers(t, SortKey(t[0]), t[0]);
  }

  /** The two lists hold the same records for every key, in the same order. */
  ghost predicate SameKeyOrder(t: seq<VersionRecord>, u: seq<VersionRecord>) {
    forall k :: WithKey(t, k) == WithKey(u, k)
  }

  /** Dropping the last record of two lists that agree on every key and end with the same record. */
  lemma DropLastAgree(t: seq<VersionRecord>, u: seq<VersionRecord>, t': seq<VersionRecord>, u': seq<VersionRecord>, x: VersionRecord)
    requires t == t' + [x] && u == u' + [x]
    requires SameKeyOrder(t, u)
    ensures SameKeyOrder(t', u')
  {
    assert t[..|t| - 1] == t' && u[..|u| - 1] == u';
    forall k ensures WithKey(t', k) == WithKey(u', k) {
      var tail := if SortKey(x) == k then [x] else [];
      var wt, wu := WithKey(t', k), WithKey(u', k);
      assert WithKey(t, k) == wt + tail;
      assert WithKey(u, k) == wu + tail;
      assert wt + tail == wu + tail;
      assert wt == (wt + tail)[..|wt|] && wu == (wu + tail)[..|wu|];
    }
  }

  /** Two sorted lists with the same records for every key, in the same order, are the same list. */
  lemma {:induction false} SortedUnique(t: seq<VersionRecord>, u: seq<VersionRecord>)
    requires Sorted(t) && Sorted(u)
    requires SameKeyOrder(t, u)
    ensures t == u
    decreases |t|
  {
    if t == [] {
      if u != [] {
        FirstKeyPresent(u);
        assert false;
      }
    } else if u == [] {
      FirstKeyPresent(t);
      assert false;
    } else {
      var a, b := t[|t| - 1], u[|u| - 1];
      LastKeysAgree(t, u);
      var ka := SortKey(a);
      var t', u' := t[..|t| - 1], u[..|u| - 1];
      var wt, wu := WithKey(t, ka), WithKey(u, ka);
      assert wt == WithKey(t', ka) + [a];
      assert wu == WithKey(u', ka) + [b];
      assert wt == wu;
      assert a == wt[|wt| - 1] == wu[|wu| - 1] == b;
      assert t == t' + [a] && u == u' + [a];
      DropLastAgree(t, u, t', u', a);
      SortedUnique(t', u');
    }
  }

  /** Any stable sort by key, `list.sort` among them, gives the list InsertionSort gives. */
  lemma StableSortIsInsertionSort(s: seq<VersionRecord>, t: seq<VersionRecord>)
    requires Sorted(t)
    requires forall k :: WithKey(t, k) == WithKey(s, k)
    ensures t == InsertionSort(s)
  {
    InsertionSortSorted(s);
    forall k ensures WithKey(t, k) == WithKey(InsertionSort(s), k) {
      InsertionSortStable(s, k);
    }
    SortedUnique(t, InsertionSort(s));
  }

  /** One more record of the input sorted in. */
  lemma InsertionSortStep(s: seq<VersionRecord>, n: nat)
    requires n < |s|
    ensures InsertionSort(s[..n + 1]) == Insert(InsertionSort(s[..n]), s[n])
  {
    assert s[..n + 1][..n] == s[..n];
  }

  /** Moving `x` one place to the left past a record with a larger key. */
  lemma InsertShift(sorted: seq<VersionRecord>, j: nat, x: VersionRecord)
    requires 0 < j <= |sorted| && !KeyLe(sorted[j - 1], x)
    ensures Insert(sorted[..j], x) + sorted[j..] == Insert(sorted[..j - 1], x) + sorted[j - 1..]
  {
    assert sorted[..j][..j - 1] == sorted[..j - 1];
    assert [sorted[j - 1]] + sorted[j..] == sorted[j - 1..];
  }

  /** `x` stops behind the first record, from the right, whose key is at most its own. */
  lemma InsertStop(sorted: seq<VersionRecord>, j: nat, x: VersionRecord)
    requires j <= |sorted| && (j == 0 || KeyLe(sorted[j - 1], x))
    ensures Insert(sorted[..j], x) + sorted[j..] == sorted[..j] + [x] + sorted[j..]
  {
  }

  /** One pass of insertion sort: `a[n]` moves left past the records of the sorted `a[..n]` whose key is larger. */
  method InsertAt(a: array<VersionRecord>, n: nat)
    requires n < a.Length
    modifies a
    ensures a[..n + 1] == Insert(old(a[..n]), old(a[n]))
    ensures a[n + 1..] == old(a[n + 1..])
  {
    var x := a[n];
    ghost var sorted := a[..n];
    var j := n;
    assert sorted[..j] == sorted;
    while j > 0 && !KeyLe(a[j - 1], x)
      invariant 0 <= j <= n
      invariant a[..j] == sorted[..j]
      invariant a[j + 1..n + 1] == sorted[j..]
      invariant a[n + 1..] == old(a[n + 1..])
      invariant Insert(sorted, x) == Insert(sorted[..j], x) + sorted[j..]
    {
      InsertShift(sorted, j, x);
      ghost var before := a[..];
      a[j] := a[j - 1];
      ShiftedSlices(before, a[..], sorted, j, n);
      j := j - 1;
    }
    ghost var before := a[..];
    a[j] := x;
    InsertStop(sorted, j, x);
    PlacedSlices(before, a[..], sorted, j, n, x);
  }

  /** Copying `a[j - 1]` into `a[j]` keeps the prefix below `j - 1` and extends the shifted part by one. */
  lemma ShiftedSlices(before: seq<VersionRecord>, after: seq<VersionRecord>, sorted: seq<VersionRecord>, j: nat, n: nat)
    requires 0 < j <= n < |before| == |after| && |sorted| == n
    requires before[..j] == sorted[..j] && before[j + 1..n + 1] == sorted[j..]
    requires after == before[j := before[j - 1]]
    ensures after[..j - 1] == sorted[..j - 1]
    ensures after[j..n + 1] == sorted[j - 1..]
    ensures after[n + 1..] == before[n + 1..]
  {
    assert before[j - 1] == before[..j][j - 1];
    assert after[..j - 1] == before[..j][..j - 1];
    assert after[j + 1..n + 1] == before[j + 1..n + 1];
    assert after[j..n + 1] == [after[j]] + after[j + 1..n + 1];
    assert sorted[j - 1..] == [sorted[j - 1]] + sorted[j..];
  }

  /** Writing `x` into the gap at `j` gives the sorted prefix with `x` inserted at `j`. */
  lemma PlacedSlices(before: seq<VersionRecord>, after: seq<VersionRecord>, sorted: seq<VersionRecord>, j: nat, n: nat, x: VersionRecord)
    requires j <= n < |before| == |after| && |sorted| == n
    requires before[..j] == sorted[..j] && before[j + 1..n + 1] == sorted[j..]
    requires after == before[j := x]
    ensures after[..n + 1] == sorted[..j] + [x] + sorted[j..]
    ensures after[n + 1..] == before[n + 1..]
  {
    assert after[..j] == before[..j];
    assert after[j + 1..n + 1] == before[j + 1..n + 1];
    assert after[..n + 1] == after[..j] + [after[j]] + after[j + 1..n + 1];
  }

  /** `versions.sort(key=...)`, in place: insertion sort, which keeps records with equal keys in order. */
  method SortByDate(a: array<VersionRecord>)
    modifies a
    ensures a[..] == InsertionSort(old(a[..]))
  {
    ghost var s := a[..];
    var n := 0;
    while n < a.Length
      invariant n <= a.Length
      invariant a[..n] == InsertionSort(s[..n])
      invariant a[n..] == s[n..]
    {
      InsertAt(a, n);
      InsertionSortStep(s, n);
      n := n + 1;
    }
    assert a[..] == a[..n] && s == s[..n];
  }
}
