/** The application around the sweep: the ratio-sum gate that decides
    whether the sweep runs at all, and the length check on the two result
    columns before they are turned into a table. */
module Analysis {
  import opened Blend
  import opened Sweep
  import opened SweepProperties

  /** Why no savings table is produced. */
  datatype SweepError =
    | RatiosDoNotSumTo100   // the ratio column does not add up to 100
    | ZeroCurrentCost       // the current blend costs nothing, so no saving is defined
    | LengthMismatch        // the ratio and saving columns differ in length

  /** What the application shows: either the two index-aligned result
      columns (reported shares of A and their savings in percent), or the
      reason there is no table. */
  datatype Report =
    | Table(ratiosA: seq<int>, savings: seq<real>)
    | Rejected(error: SweepError)

  /** Runs the sweep on a blend entered through the table editor. */
  method Analyze(bl: Mix) returns (r: Report)
    requires WellFormedBlend(bl)
    ensures !RatiosSumTo100(bl) <==> r == Rejected(RatiosDoNotSumTo100)
    ensures r == Rejected(ZeroCurrentCost) <==> RatiosSumTo100(bl) && CurrentCost(bl) == 0.0
    ensures r != Rejected(LengthMismatch)
    ensures r.Table? ==> CurrentCost(bl) != 0.0 && r.ratiosA == SweptRatios(bl)
    ensures r.Table? ==> |r.ratiosA| == |r.savings|
    ensures r.Table? ==> forall i :: 0 <= i < |r.ratiosA| ==>
      r.savings[i] == Saving(bl, r.ratiosA[i]) && r.savings[i] > 0.0
    ensures r.Table? ==> bl.a.ratio !in r.ratiosA
  {
    if !RatiosSumTo100(bl) {
      return Rejected(RatiosDoNotSumTo100);
    }
    if CurrentCost(bl) == 0.0 {
      return Rejected(ZeroCurrentCost);
    }
    var ratios, savings := CalculateSavings(bl);
    if |ratios| == |savings| {
      r := Table(ratios, savings);
      CurrentSplitNeverReported(bl);
    } else {
      r := Rejected(LengthMismatch);
    }
  }
}
