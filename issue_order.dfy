/**
 * `[...issues].sort((a, b) => a.start - b.start)`: a copy of the issue list
 * in ascending `start` order. JavaScript's sort is stable, so issues with the
 * same `start` keep their input order; insertion sort has the same result.
 * Sequences are values, so the caller's list is never changed.
 */
module IssueOrder {
  import opened Analysis

  predicate SortedByStart(s: seq<Issue>)
  {
    forall i, j :: 0 <= i < j < |s| ==> s[i].start <= s[j].start
  }

  /** Puts `x` in front of the first element whose `start` is not smaller. */
  function Insert(x: Issue, s: seq<Issue>): (r: seq<Issue>)
    ensures multiset(r) == multiset(s) + multiset{x}
    decreases |s|
  {
    if s == [] || x.start <= s[0].start then [x] + s
    else
      assert s == [s[0]] + s[1..];
      [s[0]] + Insert(x, s[1..])
  }

  lemma {:induction false} InsertKeepsSorted(x: Issue, s: seq<Issue>)
    requires SortedByStart(s)
    ensures SortedByStart(Insert(x, s))
    decreases |s|
  {
    if s != [] && x.start > s[0].start {
      var t := s[1..];
      InsertKeepsSorted(x, t);
      var rest := Insert(x, t);
      forall k | 0 <= k < |rest| ensures s[0].start <= rest[k].start {
        assert rest[k] in multiset(t) + multiset{x};
        if rest[k] != x {
          assert rest[k] in t;
        }
      }
    }
  }

  function SortByStart(s: seq<Issue>): (r: seq<Issue>)
    ensures SortedByStart(r)
    ensures multiset(r) == multiset(s)
  {
    if s == [] then []
    else
      assert s == [s[0]] + s[1..];
      InsertKeepsSorted(s[0], SortByStart(s[1..]));
      Insert(s[0], SortByStart(s[1..]))
  }

  /** The issues of `s` that start at `v`, in order. */
  function StartingAt(s: seq<Issue>, v: int): seq<Issue>
  {
    if s == [] then []
    else (if s[0].start == v then [s[0]] else []) + StartingAt(s[1..], v)
  }

  lemma {:induction false} InsertStartingAt(x: Issue, s: seq<Issue>, v: int)
    ensures StartingAt(Insert(x, s), v) == (if x.start == v then [x] else []) + StartingAt(s, v)
    decreases |s|
  {
    if s == [] || x.start <= s[0].start {
      assert ([x] + s)[1..] == s;
    } else {
      InsertStartingAt(x, s[1..], v);
      assert ([s[0]] + Insert(x, s[1..]))[1..] == Insert(x, s[1..]);
    }
  }

  /** Stability: among issues with equal `start`, the sorted copy keeps the input order. */
  lemma {:induction false} SortIsStable(s: seq<Issue>, v: int)
    ensures StartingAt(SortByStart(s), v) == StartingAt(s, v)
  {
    if s != [] {
      SortIsStable(s[1..], v);
      InsertStartingAt(s[0], SortByStart(s[1..]), v);
    }
  }

  lemma SameElements(s: seq<Issue>, t: seq<Issue>, k: nat)
    requires multiset(s) == multiset(t)
    requires k < |t|
    ensures exists p :: 0 <= p < |s| && s[p] == t[k]
  {
    assert t[k] in multiset(t);
    assert t[k] in s;
  }

  /** Sorting keeps every offset inside the prompt. */
  lemma SortKeepsOffsets(s: seq<Issue>, n: int)
    requires OffsetsWithin(s, n)
    ensures OffsetsWithin(SortByStart(s), n)
  {
    var t := SortByStart(s);
    forall k | 0 <= k < |t| ensures 0 <= t[k].start <= n && 0 <= t[k].end <= n {
      SameElements(s, t, k);
    }
  }

  lemma SortKeepsSpans(s: seq<Issue>, n: int)
    requires SpansWithin(s, n)
    ensures SpansWithin(SortByStart(s), n)
  {
    var t := SortByStart(s);
    forall k | 0 <= k < |t| ensures 0 <= t[k].start < t[k].end <= n {
      SameElements(s, t, k);
    }
  }

  lemma {:induction false} InsertKeepsNonOverlapping(x: Issue, s: seq<Issue>)
    requires NonOverlapping(s)
    requires forall k :: 0 <= k < |s| ==> Disjoint(x, s[k])
    ensures NonOverlapping(Insert(x, s))
    decreases |s|
  {
    if s == [] || x.start <= s[0].start {
      var r := [x] + s;
      forall i, j | 0 <= i < j < |r| ensures Disjoint(r[i], r[j]) {
        if i > 0 { assert r[i] == s[i - 1] && r[j] == s[j - 1]; }
      }
    } else {
      var t := s[1..];
      InsertKeepsNonOverlapping(x, t);
      var rest := Insert(x, t);
      var r := [s[0]] + rest;
      forall i, j | 0 <= i < j < |r| ensures Disjoint(r[i], r[j]) {
        if i == 0 {
          var y := rest[j - 1];
          assert y in multiset(t) + multiset{x};
          if y != x {
            assert y in t;
            var p :| 0 <= p < |t| && t[p] == y;
            assert s[p + 1] == y;
          }
        }
      }
    }
  }

  /** A sorted copy of a non-overlapping list is non-overlapping. */
  lemma {:induction false} SortKeepsNonOverlapping(s: seq<Issue>)
    requires NonOverlapping(s)
    ensures NonOverlapping(SortByStart(s))
  {
    if s != [] {
      var t := s[1..];
      assert NonOverlapping(t) by {
        forall i, j | 0 <= i < j < |t| ensures Disjoint(t[i], t[j]) {
          assert t[i] == s[i + 1] && t[j] == s[j + 1];
        }
      }
      SortKeepsNonOverlapping(t);
      var u := SortByStart(t);
      forall k | 0 <= k < |u| ensures Disjoint(s[0], u[k]) {
        SameElements(t, u, k);
        var p :| 0 <= p < |t| && t[p] == u[k];
        assert s[p + 1] == u[k];
      }
      InsertKeepsNonOverlapping(s[0], u);
    }
  }
}
