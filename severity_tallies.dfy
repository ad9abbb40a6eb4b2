/**
 * The two counters of the risk card: "Critical" counts critical issues, and
 * "Warnings" counts warning and major issues together; info issues are in neither.
 */
module SeverityTallies {
  import opened Analysis
  import opened Sequences

  /** `Array.prototype.filter`: the issues that satisfy `keep`, in their original order. */
  function Filter(issues: seq<Issue>, keep: Issue -> bool): (r: seq<Issue>)
    ensures |r| <= |issues|
    ensures forall k :: 0 <= k < |r| ==> keep(r[k])
  {
    if issues == [] then []
    else
      (if keep(issues[0]) then [issues[0]] else []) + Filter(issues[1..], keep)
  }

  /** `filter` keeps every satisfying issue as often as it occurs, and nothing else. */
  lemma {:induction false} FilterCounts(issues: seq<Issue>, keep: Issue -> bool, x: Issue)
    ensures multiset(Filter(issues, keep))[x] == if keep(x) then multiset(issues)[x] else 0
  {
    if issues != [] {
      FilterCounts(issues[1..], keep, x);
      assert issues == [issues[0]] + issues[1..];
      assert multiset(issues) == multiset{issues[0]} + multiset(issues[1..]);
    }
  }

  predicate IsCritical(issue: Issue)
  {
    issue.severity == Critical
  }

  /** The "Warnings" filter deliberately merges `warning` and `major`. */
  predicate CountsAsWarning(issue: Issue)
  {
    issue.severity == Warning || issue.severity == Major
  }

  /** "Critical": the length of the filtered list, which is the number of critical issues. */
  function CriticalCount(issues: seq<Issue>): (r: nat)
    ensures r == multiset(Severities(issues))[Critical]
    ensures r <= |issues|
  {
    CriticalFilterCount(issues);
    |Filter(issues, IsCritical)|
  }

  /** "Warnings": the length of the filtered list, which is the number of warning issues plus major issues. */
  function WarningsCount(issues: seq<Issue>): (r: nat)
    ensures r == multiset(Severities(issues))[Warning] + multiset(Severities(issues))[Major]
    ensures r <= |issues|
  {
    WarningsFilterCount(issues);
    |Filter(issues, CountsAsWarning)|
  }

  /** The severities of the issues, in order; the reference the counters are checked against. */
  function Severities(issues: seq<Issue>): (r: seq<Severity>)
    ensures |r| == |issues|
    ensures forall k :: 0 <= k < |issues| ==> r[k] == issues[k].severity
  {
    if issues == [] then [] else [issues[0].severity] + Severities(issues[1..])
  }

  /** Filtering on `critical` keeps as many issues as there are critical ones. */
  lemma {:induction false} CriticalFilterCount(issues: seq<Issue>)
    ensures |Filter(issues, IsCritical)| == multiset(Severities(issues))[Critical]
  {
    if issues != [] {
      CriticalFilterCount(issues[1..]);
      assert Severities(issues) == [issues[0].severity] + Severities(issues[1..]);
    }
  }

  /** Filtering on `warning` or `major` keeps as many issues as there are of those two severities. */
  lemma {:induction false} WarningsFilterCount(issues: seq<Issue>)
    ensures |Filter(issues, CountsAsWarning)| ==
      multiset(Severities(issues))[Warning] + multiset(Severities(issues))[Major]
  {
    if issues != [] {
      WarningsFilterCount(issues[1..]);
      assert Severities(issues) == [issues[0].severity] + Severities(issues[1..]);
    }
  }

  /** Every issue is critical, major, a warning, or info; so the two counters leave out exactly the info issues. */
  lemma {:induction false} SeveritiesPartition(issues: seq<Issue>)
    ensures var m := multiset(Severities(issues));
      m[Critical] + m[Major] + m[Warning] + m[Info] == |issues|
  {
    if issues != [] {
      SeveritiesPartition(issues[1..]);
      assert Severities(issues) == [issues[0].severity] + Severities(issues[1..]);
    }
  }

  /** The two counters add up to the issues that are not info, hence to at most all issues. */
  lemma TalliesBounded(issues: seq<Issue>)
    ensures CriticalCount(issues) + WarningsCount(issues) + multiset(Severities(issues))[Info] == |issues|
    ensures CriticalCount(issues) + WarningsCount(issues) <= |issues|
  {
    SeveritiesPartition(issues);
  }

  lemma {:induction false} FilterAppend(issues: seq<Issue>, extra: Issue, keep: Issue -> bool)
    ensures Filter(issues + [extra], keep) == Filter(issues, keep) + (if keep(extra) then [extra] else [])
  {
    if issues == [] {
      assert issues + [extra] == [extra];
      assert [extra][1..] == [];
    } else {
      var head := if keep(issues[0]) then [issues[0]] else [];
      FilterAppend(issues[1..], extra, keep);
      assert (issues + [extra])[1..] == issues[1..] + [extra];
      assert (issues + [extra])[0] == issues[0];
      assert Filter(issues + [extra], keep) == head + Filter(issues[1..] + [extra], keep);
      assert Filter(issues, keep) == head + Filter(issues[1..], keep);
      ConcatAssoc(head, Filter(issues[1..], keep), if keep(extra) then [extra] else []);
    }
  }

  /** Adding an info issue changes neither counter; adding any other issue raises exactly one. */
  lemma TalliesAfterAppend(issues: seq<Issue>, extra: Issue)
    ensures CriticalCount(issues + [extra]) == CriticalCount(issues) + (if extra.severity == Critical then 1 else 0)
    ensures WarningsCount(issues + [extra]) ==
      WarningsCount(issues) + (if extra.severity == Warning || extra.severity == Major then 1 else 0)
  {
    FilterAppend(issues, extra, IsCritical);
    FilterAppend(issues, extra, CountsAsWarning);
  }
}
