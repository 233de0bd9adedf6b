/** `run_calculation_engine`: for every row, solve the selling price from the cost (a normal
    row) or the cost from the selling price (a reverse row), then redraw the fee amount,
    the margin amount and the gap to the target margin from the stored price and cost. */
module Engine {
  import opened Rounding
  import opened Rows
  import opened Formulas

  /** The one arithmetic failure the engine meets: the cost-based reverse formula divides by
      1 + m, which raises for a margin of -100%; the row is then skipped. */
  function RowFails(r: Row, mode: Mode): (b: bool)
    ensures b <==> r.reverse && mode == CostBased && r.marginPct == -100.0
  {
    r.reverse && !ReverseDefined(Frac(r.marginPct), mode)
  }

  /** The amount the target margin percentage is taken of. */
  function TargetBase(r: Row, mode: Mode): real {
    if mode == PriceBased then r.price else r.cost
  }

  /** The fee amount, the margin amount and the gap to the target, each `round(x, 0)` of
      its formula over the price, the cost, the fee fraction `f`, the target fraction `t`
      and the target's base. */
  predicate AmountsFit(price: real, cost: real, f: real, t: real, base: real,
                       feeAmt: real, marginAmt: real, gapAmt: real)
  {
    && RoundedFrom(price * f, feeAmt)
    && RoundedFrom(price - cost - price * f, marginAmt)
    && RoundedFrom(price - cost - price * f - base * t, gapAmt)
  }

  /** The three derived amounts agree with the row's price, cost and percentages. */
  predicate AmountsAgree(r: Row, mode: Mode) {
    AmountsFit(r.price, r.cost, Frac(r.feePct), Frac(r.targetPct), TargetBase(r, mode),
               r.feeAmt, r.marginAmt, r.gapAmt)
  }

  /** The three amounts the engine writes, computed from the stored price and cost. */
  function Amounts(price: real, cost: real, f: real, t: real, base: real): (a: (real, real, real))
    ensures AmountsFit(price, cost, f, t, base, a.0, a.1, a.2)
  {
    var feeAmt := price * f;
    var marginAmt := price - cost - feeAmt;
    (Round0(feeAmt), Round0(marginAmt), Round0(marginAmt - base * t))
  }

  /** Writes the three derived amounts and nothing else. */
  function WithAmounts(r: Row, mode: Mode): (o: Row)
    ensures AmountsAgree(o, mode)
    ensures o == r.(feeAmt := o.feeAmt, marginAmt := o.marginAmt, gapAmt := o.gapAmt)
  {
    var a := Amounts(r.price, r.cost, Frac(r.feePct), Frac(r.targetPct), TargetBase(r, mode));
    r.(feeAmt := a.0, marginAmt := a.1, gapAmt := a.2)
  }

  /** One iteration of the engine's loop body. */
  function RecalcRow(r: Row, mode: Mode): (o: Row)
    // a failing row is left exactly as it was
    ensures RowFails(r, mode) ==> o == r
    // key, flag, names and percentages are never written
    ensures o.order == r.order && o.reverse == r.reverse && o.item == r.item && o.spec == r.spec
    ensures o.feePct == r.feePct && o.marginPct == r.marginPct && o.targetPct == r.targetPct
    // a normal row keeps its cost and gets the rounded forward price
    ensures !r.reverse ==> o.cost == r.cost
    ensures !r.reverse ==> RoundedFrom(ForwardPrice(r.cost, Frac(r.marginPct), Frac(r.feePct), mode), o.price)
    // a reverse row keeps its price and gets the rounded reverse cost
    ensures r.reverse ==> o.price == r.price
    ensures r.reverse && !RowFails(r, mode) ==>
              RoundedFrom(ReverseCost(r.price, Frac(r.marginPct), Frac(r.feePct), mode), o.cost)
    ensures !RowFails(r, mode) ==> AmountsAgree(o, mode)
  {
    var m, f := Frac(r.marginPct), Frac(r.feePct);
    if RowFails(r, mode) then r
    else if r.reverse then WithAmounts(r.(cost := Round0(ReverseCost(r.price, m, f, mode))), mode)
    else WithAmounts(r.(price := Round0(ForwardPrice(r.cost, m, f, mode))), mode)
  }

  /** The engine's result as a value: every row recalculated on its own. */
  function Recalculated(df: seq<Row>, mode: Mode): (r: seq<Row>)
    ensures |r| == |df|
    // the engine neither reorders nor renumbers rows
    ensures forall i :: 0 <= i < |r| ==> r[i].order == df[i].order && r[i].item == df[i].item
    ensures forall i :: 0 <= i < |r| && !RowFails(df[i], mode) ==> AmountsAgree(r[i], mode)
  {
    seq(|df|, i requires 0 <= i < |df| => RecalcRow(df[i], mode))
  }

  /** The engine walks a copy of the table and rewrites each row in place; the caller's
      table is a value and is not changed. */
  method RunCalculationEngine(df: seq<Row>, mode: Mode) returns (t: seq<Row>)
    ensures |t| == |df|
    ensures forall i :: 0 <= i < |df| ==> t[i] == RecalcRow(df[i], mode)
    ensures t == Recalculated(df, mode)
    ensures forall i :: 0 <= i < |t| && !RowFails(t[i], mode) ==> AmountsAgree(t[i], mode)
  {
    t := df;
    var i := 0;
    while i < |t|
      invariant |t| == |df| && 0 <= i <= |t|
      invariant forall j :: 0 <= j < i ==> t[j] == RecalcRow(df[j], mode)
      invariant forall j :: i <= j < |t| ==> t[j] == df[j]
    {
      t := t[i := RecalcRow(t[i], mode)];
      i := i + 1;
    }
  }

  /** A second pass of the engine over its own output changes nothing. */
  lemma RecalcRowIdempotent(r: Row, mode: Mode)
    ensures RecalcRow(RecalcRow(r, mode), mode) == RecalcRow(r, mode)
  {
    var m, f := Frac(r.marginPct), Frac(r.feePct);
    if !RowFails(r, mode) {
      var solved := if r.reverse then r.(cost := Round0(ReverseCost(r.price, m, f, mode)))
                    else r.(price := Round0(ForwardPrice(r.cost, m, f, mode)));
      var o := WithAmounts(solved, mode);
      assert o == RecalcRow(r, mode);
      // the second pass solves the same unknown from the same inputs
      assert solved.(feeAmt := o.feeAmt, marginAmt := o.marginAmt, gapAmt := o.gapAmt) == o;
      if r.reverse {
        assert o.(cost := Round0(ReverseCost(o.price, m, f, mode))) == o;
      } else {
        assert o.(price := Round0(ForwardPrice(o.cost, m, f, mode))) == o;
      }
      WithAmountsIdempotent(solved, mode);
    }
  }

  lemma WithAmountsIdempotent(r: Row, mode: Mode)
    ensures WithAmounts(WithAmounts(r, mode), mode) == WithAmounts(r, mode)
  {
    var o := WithAmounts(r, mode);
    assert o.price == r.price && o.cost == r.cost && o.feePct == r.feePct && o.targetPct == r.targetPct;
    assert TargetBase(o, mode) == TargetBase(r, mode);
  }

  lemma RecalculatedIdempotent(df: seq<Row>, mode: Mode)
    ensures Recalculated(Recalculated(df, mode), mode) == Recalculated(df, mode)
  {
    forall i | 0 <= i < |df| {
      RecalcRowIdempotent(df[i], mode);
    }
  }

  /** Price-based normal row: cost 1000, fee 0%, margin 20% gives price 1250 and margin 250. */
  lemma PriceBasedExample()
    ensures var o := RecalcRow(Row(1, false, "a", "", 1000.0, 0.0, 20.0, 0.0, 0.0, 0.0, 0.0, 0.0), PriceBased);
            o.price == 1250.0 && o.feeAmt == 0.0 && o.marginAmt == 250.0 && o.gapAmt == 250.0
  {
  }

  /** Cost-based normal row: cost 2000, fee 13%, margin 15% gives 2000 * 1.15 / 0.87, about
      2643.68, stored as 2644, with a fee amount of 344 and a margin amount of 300. */
  lemma CostBasedExample()
    ensures var o := RecalcRow(Row(1, false, "a", "", 2000.0, 0.0, 15.0, 0.0, 0.0, 13.0, 0.0, 0.0), CostBased);
            o.price == 2644.0 && o.feeAmt == 344.0 && o.marginAmt == 300.0
  {
  }

  /** Reverse row, price-based: selling price 1250 with fee 0% and margin 20% gives cost 1000. */
  lemma ReverseExample()
    ensures var o := RecalcRow(Row(1, true, "a", "", 0.0, 0.0, 20.0, 0.0, 0.0, 0.0, 0.0, 1250.0), PriceBased);
            o.cost == 1000.0 && o.price == 1250.0 && o.marginAmt == 250.0
  {
  }

  /** Fee 60% with margin 50% in price-based mode has a negative denominator: price 0. */
  lemma InfeasibleExample()
    ensures var o := RecalcRow(Row(1, false, "a", "", 1000.0, 0.0, 50.0, 0.0, 0.0, 60.0, 0.0, 0.0), PriceBased);
            o.price == 0.0 && o.feeAmt == 0.0 && o.marginAmt == -1000.0
  {
    var r := Row(1, false, "a", "", 1000.0, 0.0, 50.0, 0.0, 0.0, 60.0, 0.0, 0.0);
    InfeasibleRowPricedZero(r, PriceBased);
    var o := RecalcRow(r, PriceBased);
    RoundHalfEvenUnique(0.0, o.feeAmt.Floor, 0);
    RoundHalfEvenUnique(-1000.0, o.marginAmt.Floor, -1000);
  }

  /** A normal row whose fee and margin leave no positive denominator is priced at zero. */
  lemma InfeasibleRowPricedZero(r: Row, mode: Mode)
    requires !r.reverse
    requires mode == PriceBased ==> 1.0 - Frac(r.marginPct) - Frac(r.feePct) <= 0.0
    requires mode == CostBased ==> 1.0 - Frac(r.feePct) <= 0.0
    ensures RecalcRow(r, mode).price == 0.0
  {
    var o := RecalcRow(r, mode);
    RoundHalfEvenUnique(0.0, o.price.Floor, 0);
  }

  /** A normal row with a non-negative cost never gets a negative selling price (in cost-based
      mode this needs the margin to be at least -100%). */
  lemma NormalRowPriceNonNegative(r: Row, mode: Mode)
    requires !r.reverse && r.cost >= 0.0
    requires mode == CostBased ==> r.marginPct >= -100.0
    ensures RecalcRow(r, mode).price >= 0.0
  {
    ForwardPriceNonNegative(r.cost, Frac(r.marginPct), Frac(r.feePct), mode);
  }

  /** The built-in starting rows (cost 1000 and 2000, margin 15%, no fee) priced in
      price-based mode: 1000 / 0.85 and 2000 / 0.85 round to 1176 and 2353. */
  lemma InitialTableExample()
    ensures var t := Recalculated(InitialTable(), PriceBased);
            t[0].price == 1176.0 && t[1].price == 2353.0
  {
    var t := Recalculated(InitialTable(), PriceBased);
    assert t[0].price == 1176.0 by {
      assert ForwardPrice(1000.0, 0.15, 0.0, PriceBased) == 1000.0 / 0.85;
      RoundHalfEvenUnique(1000.0 / 0.85, t[0].price.Floor, 1176);
    }
    assert t[1].price == 2353.0 by {
      assert ForwardPrice(2000.0, 0.15, 0.0, PriceBased) == 2000.0 / 0.85;
      RoundHalfEvenUnique(2000.0 / 0.85, t[1].price.Floor, 2353);
    }
  }
}
