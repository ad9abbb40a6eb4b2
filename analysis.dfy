/**
 * The records the page receives from the analysis engine. The engine itself
 * is not part of this model: issues and scores are taken as given.
 */
module Analysis {

  /** A UTF-16 code unit: JavaScript measures string lengths and offsets in these. */
  type CodeUnit = bv16

  /** A JavaScript string as its UTF-16 code units; a character outside the BMP takes two. */
  type Utf16 = seq<CodeUnit>

  /** Issue severities, most severe first. */
  datatype Severity = Critical | Major | Warning | Info

  /** A flagged span `[start, end)` of the prompt, with the rule id that produced it. */
  datatype Issue = Issue(id: string, start: int, end: int, severity: Severity)

  /** The part of the engine's result that the page's helpers read. */
  datatype AnalysisResult = AnalysisResult(rawPrompt: Utf16, riskScore: int, issues: seq<Issue>)

  /** Every offset of every issue lies in `[0, n]`, so each `slice` needs no clamping. */
  predicate OffsetsWithin(issues: seq<Issue>, n: int)
  {
    forall k :: 0 <= k < |issues| ==>
      0 <= issues[k].start <= n && 0 <= issues[k].end <= n
  }

  /** Every issue is a non-empty span inside a text of length `n`. */
  predicate SpansWithin(issues: seq<Issue>, n: int)
  {
    forall k :: 0 <= k < |issues| ==> 0 <= issues[k].start < issues[k].end <= n
  }

  /** Two half-open spans share no character. */
  predicate Disjoint(a: Issue, b: Issue)
  {
    a.end <= b.start || b.end <= a.start
  }

  /** No two issues (at different positions of the list) overlap. */
  predicate NonOverlapping(issues: seq<Issue>)
  {
    forall i, j :: 0 <= i < j < |issues| ==> Disjoint(issues[i], issues[j])
  }
}
