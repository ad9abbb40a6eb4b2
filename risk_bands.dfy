/**
 * The risk-score bucketing of the home page: the `riskDescriptors` table with
 * its `find`-or-fallback lookup, and the parallel `gradientByScore` thresholds.
 */
module RiskBands {
  import opened Wrappers
  import opened Analysis

  /** One row of the descriptor table: an inclusive score band and its wording (`title` is the row's `label`, a reserved word in Dafny). */
  datatype RiskDescriptor = RiskDescriptor(min: int, max: int, title: string, description: string)

  const RiskDescriptors: seq<RiskDescriptor> := [
    RiskDescriptor(0, 39, "High Risk", "Prompt contains severe blockers"),
    RiskDescriptor(40, 69, "At Risk", "Significant issues detected"),
    RiskDescriptor(70, 89, "Needs Polish", "Mostly safe with improvements"),
    RiskDescriptor(90, 100, "Launch Ready", "Clean prompt structure")
  ]

  /** The row used when there is no analysis or no band matches ("At Risk"). */
  const FallbackIndex: nat := 1

  const DangerGradient := "from-danger to-danger/30"
  const WarningGradient := "from-warning to-warning/40"
  const PrimaryGradient := "from-primary to-primary/40"
  const EmeraldGradient := "from-emerald-400 to-emerald-200"

  /** The gradient that belongs with each descriptor row, in table order. */
  const BandGradients: seq<string> := [DangerGradient, WarningGradient, PrimaryGradient, EmeraldGradient]

  predicate InBand(d: RiskDescriptor, score: int)
  {
    score >= d.min && score <= d.max
  }

  /** `Array.prototype.find` from index `from`: the first row at or after `from` whose band holds `score`. */
  function FindFrom(table: seq<RiskDescriptor>, score: int, from: nat): (r: Option<nat>)
    requires from <= |table|
    ensures r.Some? ==>
      from <= r.value < |table| && InBand(table[r.value], score) &&
      forall j :: from <= j < r.value ==> !InBand(table[j], score)
    ensures r.None? ==> forall j :: from <= j < |table| ==> !InBand(table[j], score)
    decreases |table| - from
  {
    if from == |table| then None
    else if InBand(table[from], score) then Some(from)
    else FindFrom(table, score, from + 1)
  }

  function Find(table: seq<RiskDescriptor>, score: int): (r: Option<nat>)
    ensures r.Some? ==>
      r.value < |table| && InBand(table[r.value], score) &&
      forall j :: 0 <= j < r.value ==> !InBand(table[j], score)
    ensures r.None? ==> forall j :: 0 <= j < |table| ==> !InBand(table[j], score)
  {
    FindFrom(table, score, 0)
  }

  /**
   * The bands of `table` are non-empty, consecutive and without gaps, the
   * first starting at `lo` and the last ending at `hi`.
   */
  predicate Tiles(table: seq<RiskDescriptor>, lo: int, hi: int)
  {
    |table| > 0 && table[0].min == lo && table[|table| - 1].max == hi &&
    (forall k :: 0 <= k < |table| ==> table[k].min <= table[k].max) &&
    (forall k :: 0 <= k < |table| - 1 ==> table[k].max + 1 == table[k + 1].min)
  }

  lemma {:induction false} TilesAscending(table: seq<RiskDescriptor>, lo: int, hi: int, i: nat, j: nat)
    requires Tiles(table, lo, hi)
    requires i < j < |table|
    ensures table[i].max < table[j].min
    decreases j - i
  {
    if j > i + 1 {
      TilesAscending(table, lo, hi, i, j - 1);
    }
  }

  /** Tiling bands are pairwise disjoint: no score lies in two rows. */
  lemma TilesDisjoint(table: seq<RiskDescriptor>, lo: int, hi: int)
    requires Tiles(table, lo, hi)
    ensures forall i, j, score :: 0 <= i < j < |table| && InBand(table[i], score) ==> !InBand(table[j], score)
  {
    forall i, j, score | 0 <= i < j < |table| && InBand(table[i], score)
      ensures !InBand(table[j], score)
    {
      TilesAscending(table, lo, hi, i, j);
    }
  }

  /** Tiling bands cover every score from `lo` to `hi`. */
  lemma {:induction false} TilesCover(table: seq<RiskDescriptor>, lo: int, hi: int, score: int)
    requires Tiles(table, lo, hi)
    requires lo <= score <= hi
    ensures exists k :: 0 <= k < |table| && InBand(table[k], score)
    decreases |table|
  {
    if score > table[0].max {
      assert |table| > 1;
      assert Tiles(table[1..], table[0].max + 1, hi);
      TilesCover(table[1..], table[0].max + 1, hi, score);
      var k :| 0 <= k < |table| - 1 && InBand(table[1..][k], score);
      assert InBand(table[k + 1], score);
    } else {
      assert InBand(table[0], score);
    }
  }

  /** On a tiling table, `Find` succeeds exactly on `[lo, hi]`, and the row it returns is the only one holding the score. */
  lemma FindOnTiles(table: seq<RiskDescriptor>, lo: int, hi: int, score: int)
    requires Tiles(table, lo, hi)
    ensures Find(table, score).Some? <==> lo <= score <= hi
    ensures Find(table, score).Some? ==>
      forall j :: 0 <= j < |table| && InBand(table[j], score) ==> j == Find(table, score).value
  {
    if lo <= score <= hi {
      TilesCover(table, lo, hi, score);
    } else if Find(table, score).Some? {
      var k := Find(table, score).value;
      if score < lo {
        if k > 0 { TilesAscending(table, lo, hi, 0, k); }
      } else {
        if k < |table| - 1 { TilesAscending(table, lo, hi, k, |table| - 1); }
      }
    }
    TilesDisjoint(table, lo, hi);
  }

  /** The page's table tiles 0..100 with boundaries 39|40, 69|70 and 89|90. */
  lemma RiskDescriptorsTile()
    ensures Tiles(RiskDescriptors, 0, 100)
    ensures RiskDescriptors[0].max == 39 && RiskDescriptors[1].min == 40
    ensures RiskDescriptors[1].max == 69 && RiskDescriptors[2].min == 70
    ensures RiskDescriptors[2].max == 89 && RiskDescriptors[3].min == 90
  {
  }

  /** The descriptor for a score: the first band holding it, else the fallback row. */
  function ScoreDescriptor(score: int): (d: RiskDescriptor)
    ensures d in RiskDescriptors
    ensures 0 <= score <= 100 ==> InBand(d, score)
    ensures !(0 <= score <= 100) ==> d == RiskDescriptors[FallbackIndex]
  {
    RiskDescriptorsTile();
    FindOnTiles(RiskDescriptors, 0, 100, score);
    match Find(RiskDescriptors, score)
    case Some(k) => RiskDescriptors[k]
    case None => RiskDescriptors[FallbackIndex]
  }

  /** The `descriptor` memo of the home page: fallback without an analysis, else by score. */
  function Descriptor(analysis: Option<AnalysisResult>): (d: RiskDescriptor)
    ensures analysis.None? ==> d == RiskDescriptors[FallbackIndex]
    ensures analysis.Some? && 0 <= analysis.value.riskScore <= 100 ==>
      InBand(d, analysis.value.riskScore) &&
      forall j :: 0 <= j < |RiskDescriptors| && InBand(RiskDescriptors[j], analysis.value.riskScore) ==>
        d == RiskDescriptors[j]
    ensures analysis.Some? && !(0 <= analysis.value.riskScore <= 100) ==> d == RiskDescriptors[FallbackIndex]
  {
    match analysis
    case None => RiskDescriptors[FallbackIndex]
    case Some(a) =>
      RiskDescriptorsTile();
      TilesDisjoint(RiskDescriptors, 0, 100);
      ScoreDescriptor(a.riskScore)
  }

  /** The labels on either side of each band boundary. */
  lemma DescriptorBoundaries()
    ensures ScoreDescriptor(0).title == "High Risk" && ScoreDescriptor(39).title == "High Risk"
    ensures ScoreDescriptor(40).title == "At Risk" && ScoreDescriptor(69).title == "At Risk"
    ensures ScoreDescriptor(70).title == "Needs Polish" && ScoreDescriptor(89).title == "Needs Polish"
    ensures ScoreDescriptor(90).title == "Launch Ready" && ScoreDescriptor(100).title == "Launch Ready"
  {
    RiskDescriptorsTile();
    TilesDisjoint(RiskDescriptors, 0, 100);
  }

  /** `gradientByScore`: threshold tests at 40, 70 and 90. */
  function GradientByScore(score: int): (g: string)
    ensures g in BandGradients
  {
    if score < 40 then DangerGradient
    else if score < 70 then WarningGradient
    else if score < 90 then PrimaryGradient
    else EmeraldGradient
  }

  /**
   * For every score 0..100 the threshold encoding selects the same band as
   * the descriptor lookup, so the label and the gradient always agree.
   */
  lemma GradientAgreesWithDescriptor(score: int)
    requires 0 <= score <= 100
    ensures Find(RiskDescriptors, score).Some?
    ensures GradientByScore(score) == BandGradients[Find(RiskDescriptors, score).value]
  {
    RiskDescriptorsTile();
    FindOnTiles(RiskDescriptors, 0, 100, score);
  }

  /**
   * Outside 0..100 the two encodings part: the label falls back to "At Risk"
   * while the gradient is that of the nearest end band.
   */
  lemma GradientOutsideBands(score: int)
    requires score < 0 || score > 100
    ensures Find(RiskDescriptors, score).None?
    ensures ScoreDescriptor(score) == RiskDescriptors[FallbackIndex]
    ensures GradientByScore(score) == if score < 0 then BandGradients[0] else BandGradients[3]
    ensures GradientByScore(score) != BandGradients[FallbackIndex]
  {
    RiskDescriptorsTile();
    FindOnTiles(RiskDescriptors, 0, 100, score);
  }
}
