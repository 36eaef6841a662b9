/** The data model of a two-ingredient blend: the rows of the ingredient
    table, the feasible band of each ingredient's share, and the weighted
    cost and percentage saving of a candidate split. */
module Blend {

  /** One row of the ingredient table: the ingredient's share of the blend in
      whole percentage points, its cost per pound, and how many percentage
      points the share may move either way. */
  datatype Ingredient = Ingredient(ratio: int, cost: real, maxVariance: int)

  /** A blend of exactly two ingredients: `a` is the first row of the table
      and `b` the second. */
  datatype Mix = Mix(a: Ingredient, b: Ingredient)

  predicate IsPercent(x: int) {
    0 <= x <= 100
  }

  /** What the table editor enforces on a row: ratio and variance are whole
      percentages between 0 and 100; the cost is left unconstrained. */
  predicate WellFormed(i: Ingredient) {
    IsPercent(i.ratio) && IsPercent(i.maxVariance)
  }

  predicate WellFormedBlend(bl: Mix) {
    WellFormed(bl.a) && WellFormed(bl.b)
  }

  /** The gate the application applies before it runs the sweep. */
  predicate RatiosSumTo100(bl: Mix) {
    bl.a.ratio + bl.b.ratio == 100
  }

  /** The same blend with the two rows exchanged. */
  function Swap(bl: Mix): Mix {
    Mix(bl.b, bl.a)
  }

  function Max(x: int, y: int): int {
    if x >= y then x else y
  }

  function Min(x: int, y: int): int {
    if x <= y then x else y
  }

  /** Lowest share the ingredient may take: its ratio minus its variance,
      but never below 0. */
  function Lower(i: Ingredient): (lo: int)
    ensures lo >= 0 && lo >= i.ratio - i.maxVariance
    ensures lo == 0 || lo == i.ratio - i.maxVariance
  {
    Max(0, i.ratio - i.maxVariance)
  }

  /** Highest share the ingredient may take: its ratio plus its variance,
      but never above 100. */
  function Upper(i: Ingredient): (hi: int)
    ensures hi <= 100 && hi <= i.ratio + i.maxVariance
    ensures hi == 100 || hi == i.ratio + i.maxVariance
  {
    Min(100, i.ratio + i.maxVariance)
  }

  /** Whether share `x` lies in the ingredient's feasible band. */
  predicate InBand(i: Ingredient, x: int) {
    Lower(i) <= x <= Upper(i)
  }

  /** A well-formed row's band is a non-empty part of 0..100 that holds the
      row's current ratio, and it collapses to that ratio when the variance
      is 0. */
  lemma BandOfWellFormed(i: Ingredient)
    requires WellFormed(i)
    ensures 0 <= Lower(i) <= i.ratio <= Upper(i) <= 100
    ensures forall x :: InBand(i, x) ==> IsPercent(x)
    ensures i.maxVariance == 0 ==> forall x :: InBand(i, x) <==> x == i.ratio
  {
  }

  /** Cost per pound of a mix holding `ratioA` percent of one ingredient and
      `ratioB` percent of the other. */
  function Cost(ratioA: int, ratioB: int, costA: real, costB: real): real {
    (ratioA as real / 100.0) * costA + (ratioB as real / 100.0) * costB
  }

  /** Cost per pound of the blend as it stands. */
  function CurrentCost(bl: Mix): real {
    Cost(bl.a.ratio, bl.b.ratio, bl.a.cost, bl.b.cost)
  }

  /** Cost per pound of the candidate split `x` / `100 - x`. */
  function CandidateCost(bl: Mix, x: int): real {
    Cost(x, 100 - x, bl.a.cost, bl.b.cost)
  }

  /** Percentage saving of the candidate split against the current blend. */
  function Saving(bl: Mix, x: int): real
    requires CurrentCost(bl) != 0.0
  {
    (CurrentCost(bl) - CandidateCost(bl, x)) / CurrentCost(bl) * 100.0
  }

  /** A candidate split costs a convex combination of the two unit costs:
      it never leaves the interval between them. */
  lemma CandidateCostBetweenUnitCosts(bl: Mix, x: int)
    requires IsPercent(x)
    ensures bl.a.cost <= bl.b.cost ==> bl.a.cost <= CandidateCost(bl, x) <= bl.b.cost
    ensures bl.b.cost <= bl.a.cost ==> bl.b.cost <= CandidateCost(bl, x) <= bl.a.cost
  {
    var t := x as real / 100.0;
    assert CandidateCost(bl, x) == bl.b.cost + t * (bl.a.cost - bl.b.cost);
    var gap := bl.a.cost - bl.b.cost;
    assert 0.0 <= t <= 1.0;
    if gap <= 0.0 {
      ProductNonNegative(t, -gap);
      ProductNonNegative(1.0 - t, -gap);
    } else {
      ProductNonNegative(t, gap);
      ProductNonNegative(1.0 - t, gap);
    }
  }

  lemma ProductNonNegative(p: real, q: real)
    requires p >= 0.0 && q >= 0.0
    ensures p * q >= 0.0
  {
  }

  /** Under the sum gate, the saving has a closed form: it is proportional to
      how far the split moves away from the current ratio and to the
      difference of the unit costs. */
  lemma SavingClosedForm(bl: Mix, x: int)
    requires RatiosSumTo100(bl)
    requires CurrentCost(bl) != 0.0
    ensures Saving(bl, x) == (x - bl.a.ratio) as real * (bl.b.cost - bl.a.cost) / CurrentCost(bl)
  {
    var d := (x - bl.a.ratio) as real;
    assert CurrentCost(bl) - CandidateCost(bl, x) == d * (bl.b.cost - bl.a.cost) / 100.0;
  }

  /** When the current blend costs something, a split saves exactly when it
      is strictly cheaper per pound. */
  lemma SavingPositiveIffCheaper(bl: Mix, x: int)
    requires CurrentCost(bl) > 0.0
    ensures Saving(bl, x) > 0.0 <==> CandidateCost(bl, x) < CurrentCost(bl)
  {
    var c := CurrentCost(bl);
    var d := c - CandidateCost(bl, x);
    assert Saving(bl, x) == d / c * 100.0;
    if d > 0.0 {
      assert d / c > 0.0;
    } else {
      assert d / c <= 0.0;
    }
  }

  /** Costs are not constrained in sign: when the current blend costs less
      than nothing, the sign of the division flips, and a split saves
      exactly when it is strictly dearer per pound. */
  lemma NegativeCostInvertsSaving(bl: Mix, x: int)
    requires CurrentCost(bl) < 0.0
    ensures Saving(bl, x) > 0.0 <==> CandidateCost(bl, x) > CurrentCost(bl)
  {
    var c := CurrentCost(bl);
    var d := c - CandidateCost(bl, x);
    assert Saving(bl, x) == d / c * 100.0;
    if d < 0.0 {
      assert d / c > 0.0;
    } else {
      assert d / c <= 0.0;
    }
  }

  /** Exchanging the rows neither changes the current cost nor the cost and
      saving of the mirrored split. */
  lemma SwapPreservesCosts(bl: Mix, x: int)
    ensures CurrentCost(Swap(bl)) == CurrentCost(bl)
    ensures CandidateCost(Swap(bl), 100 - x) == CandidateCost(bl, x)
    ensures CurrentCost(bl) != 0.0 ==> Saving(Swap(bl), 100 - x) == Saving(bl, x)
  {
  }
}
