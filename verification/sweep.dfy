/** The savings sweep: enumerate every whole-percent share of ingredient A
    inside its band, take the complement as B's share, drop splits whose
    complement leaves B's band, and report those with a strictly positive
    saving, as two index-aligned sequences in ascending order of A's share. */
module Sweep {
  import opened Blend

  /** Whether the sweep reports the split `x` / `100 - x`, once `x` has been
      enumerated from A's band: B's share must lie in B's band and the
      saving must be strictly positive. */
  predicate Kept(bl: Mix, x: int)
    requires CurrentCost(bl) != 0.0
  {
    InBand(bl.b, 100 - x) && Saving(bl, x) > 0.0
  }

  predicate StrictlyIncreasing(s: seq<int>) {
    forall i, j :: 0 <= i < j < |s| ==> s[i] < s[j]
  }

  /** The reported shares among `lo..hi`, in enumeration order. */
  function Candidates(bl: Mix, lo: int, hi: int): (r: seq<int>)
    requires CurrentCost(bl) != 0.0
    ensures StrictlyIncreasing(r)
    ensures forall k :: 0 <= k < |r| ==> lo <= r[k] <= hi && Kept(bl, r[k])
    ensures forall x :: lo <= x <= hi && Kept(bl, x) ==> x in r
    decreases hi - lo
  {
    if hi < lo then []
    else Candidates(bl, lo, hi - 1) + (if Kept(bl, hi) then [hi] else [])
  }

  /** The shares of A the sweep reports for the whole of A's band. */
  function SweptRatios(bl: Mix): seq<int>
    requires CurrentCost(bl) != 0.0
  {
    Candidates(bl, Lower(bl.a), Upper(bl.a))
  }

  /** A share is reported exactly when it lies in A's band, its complement
      lies in B's band, and its saving is strictly positive. */
  lemma SweptMembership(bl: Mix, x: int)
    requires CurrentCost(bl) != 0.0
    ensures x in SweptRatios(bl) <==> InBand(bl.a, x) && InBand(bl.b, 100 - x) && Saving(bl, x) > 0.0
  {
    var r := SweptRatios(bl);
    if x in r {
      var k :| 0 <= k < |r| && r[k] == x;
    }
  }

  /** Every reported share lies in A's band with its complement in B's band
      and a strictly positive saving, and the shares strictly increase. */
  lemma SweptInBands(bl: Mix)
    requires CurrentCost(bl) != 0.0
    ensures StrictlyIncreasing(SweptRatios(bl))
    ensures forall i :: 0 <= i < |SweptRatios(bl)| ==>
      InBand(bl.a, SweptRatios(bl)[i]) && InBand(bl.b, 100 - SweptRatios(bl)[i]) && Saving(bl, SweptRatios(bl)[i]) > 0.0
  {
  }

  /** The sweep as the application runs it: the current cost is computed
      once, then each share of A's band is visited in ascending order, the
      split is skipped when B's share leaves B's band, and it is recorded,
      together with its saving, when the saving is strictly positive. */
  method CalculateSavings(bl: Mix) returns (ratios: seq<int>, savings: seq<real>)
    requires WellFormed(bl.a)
    requires CurrentCost(bl) != 0.0
    ensures ratios == SweptRatios(bl)
    ensures |ratios| == |savings|
    ensures forall i :: 0 <= i < |ratios| ==> savings[i] == Saving(bl, ratios[i])
    ensures StrictlyIncreasing(ratios)
  {
    var lo, hi := Lower(bl.a), Upper(bl.a);
    var current := CurrentCost(bl);
    ratios, savings := [], [];
    var ratioA := lo;
    while ratioA <= hi
      invariant lo <= ratioA <= hi + 1
      invariant ratios == Candidates(bl, lo, ratioA - 1)
      invariant |savings| == |ratios|
      invariant forall i :: 0 <= i < |ratios| ==> savings[i] == Saving(bl, ratios[i])
    {
      var ratioB := 100 - ratioA;
      if ratioB < Lower(bl.b) || ratioB > Upper(bl.b) {
        assert Candidates(bl, lo, ratioA) == ratios;
        ratioA := ratioA + 1;
        continue;
      }
      var weighted := CandidateCost(bl, ratioA);
      var saving := (current - weighted) / current * 100.0;
      assert saving == Saving(bl, ratioA);
      if saving > 0.0 {
        savings := savings + [saving];
        ratios := ratios + [ratioA];
      }
      assert Candidates(bl, lo, ratioA) == ratios;
      ratioA := ratioA + 1;
    }
  }
}
