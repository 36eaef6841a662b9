/** What the sweep promises beyond its own contract: the current split is
    never reported, degenerate inputs report nothing, the reported shares
    form a closed-form set, and exchanging the two rows mirrors the result. */
module SweepProperties {
  import opened Blend
  import opened Sweep

  /** Under the sum gate the current split saves exactly nothing, so the
      sweep never reports it. */
  lemma CurrentSplitNeverReported(bl: Mix)
    requires RatiosSumTo100(bl)
    requires CurrentCost(bl) != 0.0
    ensures Saving(bl, bl.a.ratio) == 0.0
    ensures bl.a.ratio !in SweptRatios(bl)
  {
    SavingClosedForm(bl, bl.a.ratio);
    SweptMembership(bl, bl.a.ratio);
  }

  /** With no room to move either ingredient, the only split left is the
      current one, so the sweep reports nothing. */
  lemma ZeroVarianceReportsNothing(bl: Mix)
    requires WellFormedBlend(bl) && RatiosSumTo100(bl)
    requires CurrentCost(bl) != 0.0
    requires bl.a.maxVariance == 0 || bl.b.maxVariance == 0
    ensures SweptRatios(bl) == []
  {
    var r := SweptRatios(bl);
    BandOfWellFormed(bl.a);
    BandOfWellFormed(bl.b);
    if r != [] {
      SweptMembership(bl, r[0]);
      assert r[0] == bl.a.ratio;
      CurrentSplitNeverReported(bl);
      assert false;
    }
  }

  /** When both ingredients cost the same, every split costs the same as the
      current blend, so the sweep reports nothing. */
  lemma EqualCostsReportNothing(bl: Mix)
    requires RatiosSumTo100(bl)
    requires CurrentCost(bl) != 0.0
    requires bl.a.cost == bl.b.cost
    ensures SweptRatios(bl) == []
  {
    var r := SweptRatios(bl);
    forall x
      ensures x !in r
    {
      SweptMembership(bl, x);
      SavingClosedForm(bl, x);
      assert bl.b.cost - bl.a.cost == 0.0;
      assert (x - bl.a.ratio) as real * (bl.b.cost - bl.a.cost) == 0.0;
      assert Saving(bl, x) == 0.0;
    }
    if r != [] {
      NonEmptyHasElement(r);
      assert false;
    }
  }

  /** When the blend costs something and A is the cheaper ingredient, the
      sweep reports exactly the feasible splits that raise A's share. */
  lemma CheaperAReportsRaisedShares(bl: Mix)
    requires RatiosSumTo100(bl)
    requires CurrentCost(bl) > 0.0
    requires bl.a.cost < bl.b.cost
    ensures forall x :: x in SweptRatios(bl) <==>
      InBand(bl.a, x) && InBand(bl.b, 100 - x) && x > bl.a.ratio
  {
    forall x: int
      ensures x in SweptRatios(bl) <==> InBand(bl.a, x) && InBand(bl.b, 100 - x) && x > bl.a.ratio
    {
      SweptMembership(bl, x);
      SavingSign(bl, x);
      SignOfProduct((x - bl.a.ratio) as real, bl.b.cost - bl.a.cost);
    }
  }

  /** When the blend costs something and B is the cheaper ingredient, the
      sweep reports exactly the feasible splits that lower A's share. */
  lemma CheaperBReportsLoweredShares(bl: Mix)
    requires RatiosSumTo100(bl)
    requires CurrentCost(bl) > 0.0
    requires bl.b.cost < bl.a.cost
    ensures forall x :: x in SweptRatios(bl) <==>
      InBand(bl.a, x) && InBand(bl.b, 100 - x) && x < bl.a.ratio
  {
    forall x: int
      ensures x in SweptRatios(bl) <==> InBand(bl.a, x) && InBand(bl.b, 100 - x) && x < bl.a.ratio
    {
      SweptMembership(bl, x);
      SavingSign(bl, x);
      var d, g := (x - bl.a.ratio) as real, bl.b.cost - bl.a.cost;
      NegateBoth(d, g);
      SignOfProduct(-d, -g);
    }
  }

  /** Under the sum gate and with a positive current cost, a split saves
      exactly when the move away from the current ratio and the difference
      of the unit costs have the same sign. */
  lemma SavingSign(bl: Mix, x: int)
    requires RatiosSumTo100(bl)
    requires CurrentCost(bl) > 0.0
    ensures Saving(bl, x) > 0.0 <==> (x - bl.a.ratio) as real * (bl.b.cost - bl.a.cost) > 0.0
  {
    var p := (x - bl.a.ratio) as real * (bl.b.cost - bl.a.cost);
    SavingClosedForm(bl, x);
    assert Saving(bl, x) == p / CurrentCost(bl);
    SignOfQuotient(p, CurrentCost(bl));
  }

  lemma NegateBoth(p: real, q: real)
    ensures p * q == (-p) * (-q)
  {
  }

  lemma SignOfQuotient(p: real, q: real)
    requires q > 0.0
    ensures p / q > 0.0 <==> p > 0.0
  {
    if p > 0.0 {
      assert p / q > 0.0;
    } else {
      assert p / q <= 0.0;
    }
  }

  lemma SignOfProduct(p: real, q: real)
    requires q > 0.0
    ensures p * q > 0.0 <==> p > 0.0
  {
    if p > 0.0 {
      assert p * q > 0.0;
    } else {
      assert p * q <= 0.0;
    }
  }

  lemma NonEmptyHasElement(t: seq<int>)
    requires t != []
    ensures exists x :: x in t
  {
    var w := t[0];
    assert w in t;
  }

  /** A strictly increasing sequence is determined by its elements. */
  lemma {:induction false} IncreasingDeterminedByElements(s: seq<int>, t: seq<int>)
    requires StrictlyIncreasing(s) && StrictlyIncreasing(t)
    requires forall x :: x in s <==> x in t
    ensures s == t
    decreases |s|
  {
    if s == [] {
      if t != [] {
        NonEmptyHasElement(t);
        assert false;
      }
    } else {
      assert s[0] in s;
      assert t != [] by { assert s[0] in t; }
      assert t[0] in t;
      assert s[0] == t[0] by {
        assert s[0] in t;
        assert t[0] in s;
      }
      forall x
        ensures x in s[1..] <==> x in t[1..]
      {
        if x in s[1..] {
          assert x in t;
          assert x != t[0];
        }
        if x in t[1..] {
          assert x in s;
          assert x != s[0];
        }
      }
      IncreasingDeterminedByElements(s[1..], t[1..]);
      assert s == [s[0]] + s[1..];
      assert t == [t[0]] + t[1..];
    }
  }

  /** The shares of B that correspond to the shares of A in `s`: each
      element complemented to 100, in reversed order, so that an ascending
      sequence of A's shares gives an ascending sequence of B's shares. */
  function Mirror(s: seq<int>): (m: seq<int>)
    ensures |m| == |s|
    ensures StrictlyIncreasing(s) ==> StrictlyIncreasing(m)
    ensures forall x :: x in m <==> 100 - x in s
  {
    var m := seq(|s|, i requires 0 <= i < |s| => 100 - s[|s| - 1 - i]);
    assert forall x :: 100 - x in s ==> x in m by {
      forall x | 100 - x in s
        ensures x in m
      {
        var k :| 0 <= k < |s| && s[k] == 100 - x;
        assert m[|s| - 1 - k] == x;
      }
    }
    m
  }

  /** Exchanging the two rows mirrors the sweep: the shares reported for
      the exchanged blend are the complements of the original ones, in
      ascending order, each with the same saving as its mirror. */
  lemma SwapMirrorsSweep(bl: Mix)
    requires CurrentCost(bl) != 0.0
    ensures CurrentCost(Swap(bl)) != 0.0
    ensures SweptRatios(Swap(bl)) == Mirror(SweptRatios(bl))
    ensures forall x :: Saving(Swap(bl), 100 - x) == Saving(bl, x)
  {
    SwapPreservesCosts(bl, 0);
    var r, rs := SweptRatios(bl), SweptRatios(Swap(bl));
    forall y
      ensures y in rs <==> y in Mirror(r)
    {
      SwapMembership(bl, y);
    }
    IncreasingDeterminedByElements(rs, Mirror(r));
    forall x
      ensures Saving(Swap(bl), 100 - x) == Saving(bl, x)
    {
      SwapPreservesCosts(bl, x);
    }
  }

  lemma SwapMembership(bl: Mix, y: int)
    requires CurrentCost(bl) != 0.0
    ensures CurrentCost(Swap(bl)) != 0.0
    ensures y in SweptRatios(Swap(bl)) <==> 100 - y in SweptRatios(bl)
  {
    SwapQualifies(bl, y);
    SweptMembership(Swap(bl), y);
    SweptMembership(bl, 100 - y);
  }

  lemma SwapQualifies(bl: Mix, y: int)
    requires CurrentCost(bl) != 0.0
    ensures CurrentCost(Swap(bl)) != 0.0
    ensures InBand(Swap(bl).b, 100 - y) == InBand(bl.a, 100 - y)
    ensures InBand(Swap(bl).a, y) == InBand(bl.b, 100 - (100 - y))
    ensures Saving(Swap(bl), y) == Saving(bl, 100 - y)
  {
    var x := 100 - y;
    SwapPreservesCosts(bl, x);
    assert 100 - x == y;
  }

  /** The blend the application starts with: 65% of an ingredient at 0.12 per
      pound and 35% of one at 0.39, each allowed to move 20 points. */
  function DefaultBlend(): Mix {
    Mix(Ingredient(65, 0.12, 20), Ingredient(35, 0.39, 20))
  }

  /** For the default blend the current cost is 0.2145, the sweep reports
      shares 66 to 85 of the cheaper first ingredient, and the largest of
      them saves about 25.17%. */
  lemma DefaultBlendSweep()
    ensures CurrentCost(DefaultBlend()) == 0.2145
    ensures SweptRatios(DefaultBlend()) == seq(20, i => 66 + i)
    ensures 25.17 < Saving(DefaultBlend(), 85) < 25.18
  {
    var bl := DefaultBlend();
    var expected := seq(20, i => 66 + i);
    DefaultBlendReportedShares();
    forall x
      ensures x in SweptRatios(bl) <==> x in expected
    {
      if 66 <= x <= 85 {
        assert expected[x - 66] == x;
      }
    }
    IncreasingDeterminedByElements(SweptRatios(bl), expected);
    SavingClosedForm(bl, 85);
  }

  lemma DefaultBlendReportedShares()
    ensures CurrentCost(DefaultBlend()) > 0.0
    ensures forall x :: x in SweptRatios(DefaultBlend()) <==> 66 <= x <= 85
  {
    var bl := DefaultBlend();
    assert Lower(bl.a) == 45 && Upper(bl.a) == 85;
    assert Lower(bl.b) == 15 && Upper(bl.b) == 55;
    CheaperAReportsRaisedShares(bl);
  }
}
