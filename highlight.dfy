/**
 * `HighlightedPrompt`: the prompt cut into plain and highlighted fragments by
 * one left-to-right sweep over the issues in `start` order. React nodes are
 * modelled as fragments carrying the text they display.
 */
module Highlight {
  import opened Analysis
  import opened IssueOrder
  import opened Sequences

  /**
   * A plain `span`, or a `mark` carrying its issue's id and severity; the
   * React key and the styling derived from them are not modelled.
   */
  datatype Fragment = Plain(text: Utf16) | Mark(id: string, severity: Severity, text: Utf16)

  /** `prompt.slice(a, b)` for offsets in range: the code units from `a` up to `b`, none unless `a < b`. */
  function Slice(prompt: Utf16, a: int, b: int): (r: Utf16)
    requires 0 <= a <= |prompt| && 0 <= b <= |prompt|
    ensures |r| == (if a < b then b - a else 0)
    ensures forall k :: 0 <= k < |r| ==> r[k] == prompt[a + k]
  {
    prompt[a..if a < b then b else a]
  }

  /** The highlight an issue produces. */
  function MarkOf(prompt: Utf16, issue: Issue): (r: Fragment)
    requires 0 <= issue.start <= |prompt| && 0 <= issue.end <= |prompt|
    ensures r.Mark? && r.id == issue.id && r.severity == issue.severity
  {
    Mark(issue.id, issue.severity, Slice(prompt, issue.start, issue.end))
  }

  /** What one issue adds at cursor position `cursor`: the plain gap before it, if any, then its mark. */
  function Emit(prompt: Utf16, issue: Issue, cursor: int): seq<Fragment>
    requires 0 <= issue.start <= |prompt| && 0 <= issue.end <= |prompt|
    requires 0 <= cursor <= |prompt|
  {
    (if issue.start > cursor then [Plain(prompt[cursor..issue.start])] else []) + [MarkOf(prompt, issue)]
  }

  /** What the sweep adds after the last issue: the rest of the prompt, if any. */
  function Tail(prompt: Utf16, cursor: int): seq<Fragment>
    requires 0 <= cursor <= |prompt|
  {
    if cursor < |prompt| then [Plain(prompt[cursor..])] else []
  }

  /**
   * What the sweep emits from issue `i` and cursor position `cursor` on: each
   * issue's gap and mark, the cursor moving to the issue's end, then the tail.
   */
  function Sweep(prompt: Utf16, issues: seq<Issue>, i: nat, cursor: int): (r: seq<Fragment>)
    requires OffsetsWithin(issues, |prompt|)
    requires i <= |issues| && 0 <= cursor <= |prompt|
    ensures |issues| - i <= |r| <= 2 * (|issues| - i) + 1
    decreases |issues| - i
  {
    if i == |issues| then Tail(prompt, cursor)
    else Emit(prompt, issues[i], cursor) + Sweep(prompt, issues, i + 1, issues[i].end)
  }

  /**
   * The fragments of the highlighted prompt: the whole prompt when there are
   * no issues; otherwise at least one fragment per issue (its mark) and at
   * most one more per issue (its gap) plus the tail.
   */
  function HighlightFragments(prompt: Utf16, issues: seq<Issue>): (r: seq<Fragment>)
    requires OffsetsWithin(issues, |prompt|)
    ensures 1 <= |r|
    ensures |issues| <= |r| <= 2 * |issues| + 1
  {
    if |issues| == 0 then [Plain(prompt)]
    else
      SortKeepsOffsets(issues, |prompt|);
      assert |multiset(SortByStart(issues))| == |multiset(issues)|;
      Sweep(prompt, SortByStart(issues), 0, 0)
  }

  /** The text the fragments display, concatenated. */
  function Text(fragments: seq<Fragment>): Utf16
  {
    if fragments == [] then [] else fragments[0].text + Text(fragments[1..])
  }

  /** The highlights among the fragments, in order. */
  function Marks(fragments: seq<Fragment>): seq<Fragment>
  {
    if fragments == [] then []
    else (if fragments[0].Mark? then [fragments[0]] else []) + Marks(fragments[1..])
  }

  lemma {:induction false} TextAppend(a: seq<Fragment>, b: seq<Fragment>)
    ensures Text(a + b) == Text(a) + Text(b)
  {
    if a == [] {
      assert a + b == b;
    } else {
      TextAppend(a[1..], b);
      assert (a + b)[1..] == a[1..] + b;
      assert (a + b)[0] == a[0];
      assert Text(a + b) == a[0].text + Text(a[1..] + b);
      assert Text(a) == a[0].text + Text(a[1..]);
      ConcatAssoc(a[0].text, Text(a[1..]), Text(b));
    }
  }

  lemma {:induction false} MarksAppend(a: seq<Fragment>, b: seq<Fragment>)
    ensures Marks(a + b) == Marks(a) + Marks(b)
  {
    if a == [] {
      assert a + b == b;
    } else {
      MarksAppend(a[1..], b);
      assert (a + b)[1..] == a[1..] + b;
      assert (a + b)[0] == a[0];
      if a[0].Mark? {
        assert Marks(a + b) == [a[0]] + Marks(a[1..] + b);
        assert Marks(a) == [a[0]] + Marks(a[1..]);
        ConcatAssoc([a[0]], Marks(a[1..]), Marks(b));
      } else {
        assert Marks(a + b) == [] + Marks(a[1..] + b);
        assert Marks(a) == [] + Marks(a[1..]);
      }
    }
  }

  lemma EmitText(prompt: Utf16, issue: Issue, cursor: int)
    requires 0 <= cursor <= issue.start <= issue.end <= |prompt|
    ensures Text(Emit(prompt, issue, cursor)) == prompt[cursor..issue.end]
  {
    var gap: seq<Fragment> := if issue.start > cursor then [Plain(prompt[cursor..issue.start])] else [];
    TextAppend(gap, [MarkOf(prompt, issue)]);
    assert Text(gap) == prompt[cursor..issue.start] by {
      if issue.start > cursor {
        assert Text(gap) == gap[0].text + Text([]);
      }
    }
    assert Text([MarkOf(prompt, issue)]) == MarkOf(prompt, issue).text + Text([]);
    assert prompt[cursor..issue.end] == prompt[cursor..issue.start] + prompt[issue.start..issue.end];
  }

  lemma TailText(prompt: Utf16, cursor: int)
    requires 0 <= cursor <= |prompt|
    ensures Text(Tail(prompt, cursor)) == prompt[cursor..]
  {
    if cursor < |prompt| {
      assert Text([Plain(prompt[cursor..])]) == prompt[cursor..] + Text([]);
    }
  }

  lemma EmitMarks(prompt: Utf16, issue: Issue, cursor: int)
    requires 0 <= issue.start <= |prompt| && 0 <= issue.end <= |prompt|
    requires 0 <= cursor <= |prompt|
    ensures Marks(Emit(prompt, issue, cursor)) == [MarkOf(prompt, issue)]
  {
    var gap: seq<Fragment> := if issue.start > cursor then [Plain(prompt[cursor..issue.start])] else [];
    MarksAppend(gap, [MarkOf(prompt, issue)]);
    assert Marks(gap) == [] by {
      if issue.start > cursor {
        assert Marks(gap) == [] + Marks([]);
      }
    }
    assert Marks([MarkOf(prompt, issue)]) == [MarkOf(prompt, issue)] + Marks([]);
  }

  lemma TailMarks(prompt: Utf16, cursor: int)
    requires 0 <= cursor <= |prompt|
    ensures Marks(Tail(prompt, cursor)) == []
  {
    if cursor < |prompt| {
      assert Marks([Plain(prompt[cursor..])]) == [] + Marks([]);
    }
  }

  /** From issue `i` on, each issue starts at or after the end of the previous one (issue `i` at or after `cursor`). */
  predicate Chained(issues: seq<Issue>, i: nat, cursor: int)
    requires i <= |issues|
    decreases |issues| - i
  {
    i == |issues| ||
    (cursor <= issues[i].start <= issues[i].end && Chained(issues, i + 1, issues[i].end))
  }

  /** Sorted, non-overlapping, non-empty spans from issue `i` on that start at or after `cursor` are chained. */
  lemma {:induction false} SortedSpansChain(issues: seq<Issue>, i: nat, cursor: int, n: int)
    requires SortedByStart(issues) && NonOverlapping(issues) && SpansWithin(issues, n)
    requires i <= |issues|
    requires forall k :: i <= k < |issues| ==> cursor <= issues[k].start
    ensures Chained(issues, i, cursor)
    decreases |issues| - i
  {
    if i < |issues| {
      forall k | i + 1 <= k < |issues| ensures issues[i].end <= issues[k].start {
        assert Disjoint(issues[i], issues[k]);
      }
      SortedSpansChain(issues, i + 1, issues[i].end, n);
    }
  }

  /** Over chained issues the sweep's fragments spell out the prompt from `cursor` on. */
  lemma {:induction false} SweepReassembles(prompt: Utf16, issues: seq<Issue>, i: nat, cursor: int)
    requires OffsetsWithin(issues, |prompt|)
    requires i <= |issues| && 0 <= cursor <= |prompt|
    requires Chained(issues, i, cursor)
    ensures Text(Sweep(prompt, issues, i, cursor)) == prompt[cursor..]
    decreases |issues| - i
  {
    if i == |issues| {
      TailText(prompt, cursor);
    } else {
      var issue := issues[i];
      SweepReassembles(prompt, issues, i + 1, issue.end);
      EmitText(prompt, issue, cursor);
      TextAppend(Emit(prompt, issue, cursor), Sweep(prompt, issues, i + 1, issue.end));
      assert prompt[cursor..] == prompt[cursor..issue.end] + prompt[issue.end..];
    }
  }

  /**
   * For issues that lie inside the prompt and pairwise do not overlap, in any
   * order, the highlighted fragments reproduce the prompt exactly.
   */
  lemma HighlightReassembles(prompt: Utf16, issues: seq<Issue>)
    requires SpansWithin(issues, |prompt|)
    requires NonOverlapping(issues)
    ensures Text(HighlightFragments(prompt, issues)) == prompt
  {
    if |issues| == 0 {
      assert Text([Plain(prompt)]) == prompt + Text([]);
    } else {
      SortKeepsOffsets(issues, |prompt|);
      SortKeepsSpans(issues, |prompt|);
      SortKeepsNonOverlapping(issues);
      var sorted := SortByStart(issues);
      SortedSpansChain(sorted, 0, 0, |prompt|);
      SweepReassembles(prompt, sorted, 0, 0);
    }
  }

  /** The marks of issues `i` onwards, in order. */
  function MarksOf(prompt: Utf16, issues: seq<Issue>, i: nat): seq<Fragment>
    requires OffsetsWithin(issues, |prompt|)
    requires i <= |issues|
    decreases |issues| - i
  {
    if i == |issues| then [] else [MarkOf(prompt, issues[i])] + MarksOf(prompt, issues, i + 1)
  }

  lemma {:induction false} MarksOfLength(prompt: Utf16, issues: seq<Issue>, i: nat)
    requires OffsetsWithin(issues, |prompt|)
    requires i <= |issues|
    ensures |MarksOf(prompt, issues, i)| == |issues| - i
    decreases |issues| - i
  {
    if i < |issues| {
      MarksOfLength(prompt, issues, i + 1);
    }
  }

  lemma {:induction false} MarksOfIndex(prompt: Utf16, issues: seq<Issue>, i: nat, k: nat)
    requires OffsetsWithin(issues, |prompt|)
    requires i + k < |issues|
    ensures |MarksOf(prompt, issues, i)| == |issues| - i
    ensures MarksOf(prompt, issues, i)[k] == MarkOf(prompt, issues[i + k])
    decreases k
  {
    MarksOfLength(prompt, issues, i);
    var head, rest := [MarkOf(prompt, issues[i])], MarksOf(prompt, issues, i + 1);
    assert MarksOf(prompt, issues, i) == head + rest;
    if k > 0 {
      MarksOfIndex(prompt, issues, i + 1, k - 1);
      assert (head + rest)[k] == rest[k - 1];
      assert i + 1 + (k - 1) == i + k;
    } else {
      assert (head + rest)[0] == head[0];
    }
  }

  lemma MarksOfAt(prompt: Utf16, issues: seq<Issue>, i: nat)
    requires OffsetsWithin(issues, |prompt|)
    requires i <= |issues|
    ensures |MarksOf(prompt, issues, i)| == |issues| - i
    ensures forall k :: 0 <= k < |issues| - i ==> MarksOf(prompt, issues, i)[k] == MarkOf(prompt, issues[i + k])
  {
    MarksOfLength(prompt, issues, i);
    forall k | 0 <= k < |issues| - i ensures MarksOf(prompt, issues, i)[k] == MarkOf(prompt, issues[i + k]) {
      MarksOfIndex(prompt, issues, i, k);
    }
  }

  /** The highlights of the sweep from issue `i` are the marks of issues `i` onwards: one per issue. */
  lemma {:induction false} SweepMarks(prompt: Utf16, issues: seq<Issue>, i: nat, cursor: int)
    requires OffsetsWithin(issues, |prompt|)
    requires i <= |issues| && 0 <= cursor <= |prompt|
    ensures Marks(Sweep(prompt, issues, i, cursor)) == MarksOf(prompt, issues, i)
    decreases |issues| - i
  {
    if i == |issues| {
      TailMarks(prompt, cursor);
    } else {
      var emitted, rest := Emit(prompt, issues[i], cursor), Sweep(prompt, issues, i + 1, issues[i].end);
      assert Sweep(prompt, issues, i, cursor) == emitted + rest;
      SweepMarks(prompt, issues, i + 1, issues[i].end);
      EmitMarks(prompt, issues[i], cursor);
      MarksAppend(emitted, rest);
      assert MarksOf(prompt, issues, i) == [MarkOf(prompt, issues[i])] + MarksOf(prompt, issues, i + 1);
    }
  }

  /**
   * Whatever the input order, the highlights follow the issues in ascending
   * `start` order, one per issue, each showing `prompt[start..end)`.
   */
  lemma HighlightMarks(prompt: Utf16, issues: seq<Issue>)
    requires OffsetsWithin(issues, |prompt|)
    ensures SortedByStart(SortByStart(issues)) && multiset(SortByStart(issues)) == multiset(issues)
    ensures OffsetsWithin(SortByStart(issues), |prompt|) && |SortByStart(issues)| == |issues|
    ensures |Marks(HighlightFragments(prompt, issues))| == |issues|
    ensures forall k :: 0 <= k < |issues| ==>
      Marks(HighlightFragments(prompt, issues))[k] == MarkOf(prompt, SortByStart(issues)[k])
  {
    SortKeepsOffsets(issues, |prompt|);
    assert |multiset(SortByStart(issues))| == |multiset(issues)|;
    if |issues| == 0 {
      assert Marks([Plain(prompt)]) == [] + Marks([]);
    } else {
      var sorted := SortByStart(issues);
      assert HighlightFragments(prompt, issues) == Sweep(prompt, sorted, 0, 0);
      SweepMarks(prompt, sorted, 0, 0);
      MarksOfAt(prompt, sorted, 0);
    }
  }

  /** The sweep emits a plain fragment only when it holds at least one character. */
  lemma {:induction false} SweepPlainsNonEmpty(prompt: Utf16, issues: seq<Issue>, i: nat, cursor: int)
    requires OffsetsWithin(issues, |prompt|)
    requires i <= |issues| && 0 <= cursor <= |prompt|
    ensures forall k :: 0 <= k < |Sweep(prompt, issues, i, cursor)| && Sweep(prompt, issues, i, cursor)[k].Plain? ==>
      Sweep(prompt, issues, i, cursor)[k].text != []
    decreases |issues| - i
  {
    if i < |issues| {
      SweepPlainsNonEmpty(prompt, issues, i + 1, issues[i].end);
    }
  }

  /** With at least one issue, every plain fragment of the highlighted prompt is a non-empty gap or tail. */
  lemma HighlightPlainsNonEmpty(prompt: Utf16, issues: seq<Issue>)
    requires OffsetsWithin(issues, |prompt|)
    requires |issues| > 0
    ensures forall k :: 0 <= k < |HighlightFragments(prompt, issues)| && HighlightFragments(prompt, issues)[k].Plain? ==>
      HighlightFragments(prompt, issues)[k].text != []
  {
    SortKeepsOffsets(issues, |prompt|);
    SweepPlainsNonEmpty(prompt, SortByStart(issues), 0, 0);
  }

  /** Two issues already in `start` order are left as they are by the sort. */
  lemma SortPair(x: Issue, y: Issue)
    requires x.start <= y.start
    ensures SortByStart([x, y]) == [x, y]
  {
    assert [y][1..] == [];
    assert SortByStart([y]) == Insert(y, SortByStart([]));
    assert [x, y][1..] == [y];
    assert SortByStart([x, y]) == Insert(x, SortByStart([y]));
  }

  /** The sweep over two issues the first of which ends inside the second. */
  lemma SweepOverlappingPair(prompt: Utf16, x: Issue, y: Issue)
    requires 0 <= x.start < y.start < x.end < y.end == |prompt|
    ensures Sweep(prompt, [x, y], 0, x.start) == [MarkOf(prompt, x), MarkOf(prompt, y)]
  {
    assert Sweep(prompt, [x, y], 2, y.end) == [];
  }

  /**
   * The non-overlap requirement is needed: two overlapping issues over the
   * code units of "abcd" show the shared code units "bc" twice.
   */
  lemma OverlapRepeatsText()
    ensures Text(HighlightFragments([0x61, 0x62, 0x63, 0x64], [Issue("a", 0, 3, Info), Issue("b", 1, 4, Info)]))
      == [0x61, 0x62, 0x63, 0x62, 0x63, 0x64]
  {
    var p: Utf16, x, y := [0x61, 0x62, 0x63, 0x64], Issue("a", 0, 3, Info), Issue("b", 1, 4, Info);
    SortPair(x, y);
    SweepOverlappingPair(p, x, y);
    var abc, bcd: Utf16 := [0x61, 0x62, 0x63], [0x62, 0x63, 0x64];
    assert MarkOf(p, x).text == abc;
    assert MarkOf(p, y).text == bcd;
    var f := [MarkOf(p, x), MarkOf(p, y)];
    assert Text(f) == abc + Text([MarkOf(p, y)]) by {
      assert f[1..] == [MarkOf(p, y)];
    }
    assert Text([MarkOf(p, y)]) == bcd + Text([]);
  }

  /**
   * The cursor sweep of `HighlightedPrompt` over issues in the order given:
   * a plain gap when an issue starts after the cursor, the issue's mark, the
   * cursor moved to the issue's end; then the tail if any text is left.
   */
  method SweepFragments(prompt: Utf16, issues: seq<Issue>) returns (fragments: seq<Fragment>)
    requires OffsetsWithin(issues, |prompt|)
    ensures fragments == Sweep(prompt, issues, 0, 0)
  {
    fragments := [];
    var cursor := 0;
    var i := 0;
    while i < |issues|
      invariant 0 <= i <= |issues|
      invariant 0 <= cursor <= |prompt|
      invariant fragments + Sweep(prompt, issues, i, cursor) == Sweep(prompt, issues, 0, 0)
    {
      var issue := issues[i];
      ghost var before := fragments;
      if issue.start > cursor {
        fragments := fragments + [Plain(prompt[cursor..issue.start])];
      }
      fragments := fragments + [Mark(issue.id, issue.severity, Slice(prompt, issue.start, issue.end))];
      assert fragments == before + Emit(prompt, issue, cursor);
      assert Sweep(prompt, issues, i, cursor) == Emit(prompt, issue, cursor) + Sweep(prompt, issues, i + 1, issue.end);
      ConcatAssoc(before, Emit(prompt, issue, cursor), Sweep(prompt, issues, i + 1, issue.end));
      cursor := issue.end;
      i := i + 1;
    }
    if cursor < |prompt| {
      fragments := fragments + [Plain(prompt[cursor..])];
    }
    assert Sweep(prompt, issues, i, cursor) == Tail(prompt, cursor);
  }

  /**
   * `HighlightedPrompt`: without issues, one plain fragment with the whole
   * prompt; otherwise the sweep over a copy of the issues sorted by `start`.
   */
  method HighlightedPrompt(prompt: Utf16, issues: seq<Issue>) returns (fragments: seq<Fragment>)
    requires OffsetsWithin(issues, |prompt|)
    ensures fragments == HighlightFragments(prompt, issues)
    ensures |issues| == 0 ==> fragments == [Plain(prompt)]
    ensures SpansWithin(issues, |prompt|) && NonOverlapping(issues) ==> Text(fragments) == prompt
  {
    if |issues| == 0 {
      return [Plain(prompt)];
    }
    SortKeepsOffsets(issues, |prompt|);
    var sorted := SortByStart(issues);
    fragments := SweepFragments(prompt, sorted);
    if SpansWithin(issues, |prompt|) && NonOverlapping(issues) {
      HighlightReassembles(prompt, issues);
    }
  }
}
