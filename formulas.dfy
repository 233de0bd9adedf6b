/** The two pricing formulas in both directions, and the margin that an edited selling
    price implies. Percentages enter as fractions: `m` is 마진%/100 and `f` is 수수료%/100. */
module Formulas {
  import opened Rows

  /** A percentage column read as a fraction. */
  function Frac(pct: real): real {
    pct / 100.0
  }

  /** Selling price from cost for a normal row. An infeasible denominator (fee and margin
      together reaching 100% in price-based mode, or a fee of 100% or more) gives 0. */
  function ForwardPrice(cost: real, m: real, f: real, mode: Mode): (p: real)
    ensures (mode == PriceBased && 1.0 - m - f <= 0.0) || (mode == CostBased && 1.0 - f <= 0.0) ==> p == 0.0
  {
    match mode
    case PriceBased =>
      var denom := 1.0 - m - f;
      if denom > 0.0 then cost / denom else 0.0
    case CostBased =>
      if 1.0 - f > 0.0 then (cost * (1.0 + m)) / (1.0 - f) else 0.0
  }

  /** The cost-based reverse formula divides by 1 + m, which raises when the margin is -100%. */
  predicate ReverseDefined(m: real, mode: Mode) {
    mode == PriceBased || 1.0 + m != 0.0
  }

  /** Cost from selling price for a reverse row. */
  function ReverseCost(price: real, m: real, f: real, mode: Mode): real
    requires ReverseDefined(m, mode)
  {
    match mode
    case PriceBased => price * (1.0 - m - f)
    case CostBased => (price * (1.0 - f)) / (1.0 + m)
  }

  /** The margin fraction implied by selling at `price` with cost `cost` and fee `f`;
      0 when the base of the margin (the price, or the cost) is not positive. */
  function InferMargin(price: real, cost: real, f: real, mode: Mode): (m: real)
    ensures (mode == PriceBased && price <= 0.0) || (mode == CostBased && cost <= 0.0) ==> m == 0.0
  {
    match mode
    case PriceBased => if price > 0.0 then (price - cost - (price * f)) / price else 0.0
    case CostBased => if cost > 0.0 then (price * (1.0 - f) - cost) / cost else 0.0
  }

  /** The forward price solves the pricing equation of its mode whenever the
      denominator is feasible. */
  lemma ForwardPriceSolves(cost: real, m: real, f: real, mode: Mode)
    ensures var p := ForwardPrice(cost, m, f, mode);
            && (mode == PriceBased && 1.0 - m - f > 0.0 ==> p * (1.0 - m - f) == cost)
            && (mode == CostBased && 1.0 - f > 0.0 ==> p * (1.0 - f) == cost * (1.0 + m))
  {
    if mode == PriceBased && 1.0 - m - f > 0.0 {
      DivThenMul(cost, 1.0 - m - f);
    } else if mode == CostBased && 1.0 - f > 0.0 {
      DivThenMul(cost * (1.0 + m), 1.0 - f);
    }
  }

  /** The reverse cost solves the same equations for the cost. */
  lemma ReverseCostSolves(price: real, m: real, f: real, mode: Mode)
    requires ReverseDefined(m, mode)
    ensures var c := ReverseCost(price, m, f, mode);
            && (mode == PriceBased ==> c + price * m + price * f == price)
            && (mode == CostBased ==> c * (1.0 + m) == price * (1.0 - f))
  {
    if mode == CostBased {
      DivThenMul(price * (1.0 - f), 1.0 + m);
    }
  }

  /** The inferred margin is the share of the price (or of the cost) left after cost and fee. */
  lemma InferMarginSolves(price: real, cost: real, f: real, mode: Mode)
    ensures var m := InferMargin(price, cost, f, mode);
            && (mode == PriceBased && price > 0.0 ==> m * price == price - cost - price * f)
            && (mode == CostBased && cost > 0.0 ==> m * cost == price * (1.0 - f) - cost)
  {
    if mode == PriceBased && price > 0.0 {
      DivThenMul(price - cost - price * f, price);
    } else if mode == CostBased && cost > 0.0 {
      DivThenMul(price * (1.0 - f) - cost, cost);
    }
  }

  /** With a non-negative cost the forward price is never negative: the guard turns an
      infeasible fee and margin into 0 instead of a negative or unbounded price. */
  lemma ForwardPriceNonNegative(cost: real, m: real, f: real, mode: Mode)
    requires cost >= 0.0
    requires mode == CostBased ==> 1.0 + m >= 0.0
    ensures ForwardPrice(cost, m, f, mode) >= 0.0
  {
    if mode == PriceBased && 1.0 - m - f > 0.0 {
      DivNonNegative(cost, 1.0 - m - f);
    } else if mode == CostBased && 1.0 - f > 0.0 {
      MulNonNegative(cost, 1.0 + m);
      DivNonNegative(cost * (1.0 + m), 1.0 - f);
    }
  }

  /** Reverse after forward gives back the cost, whenever the forward price is defined
      by its formula rather than by the zero guard. */
  lemma ReverseOfForward(cost: real, m: real, f: real, mode: Mode)
    requires mode == PriceBased ==> 1.0 - m - f > 0.0
    requires mode == CostBased ==> 1.0 - f > 0.0 && 1.0 + m != 0.0
    ensures ReverseDefined(m, mode)
    ensures ReverseCost(ForwardPrice(cost, m, f, mode), m, f, mode) == cost
  {
    var p := ForwardPrice(cost, m, f, mode);
    var c := ReverseCost(p, m, f, mode);
    if mode == PriceBased {
      assert c == p * (1.0 - m - f);
      assert p * (1.0 - m - f) == cost by { ForwardPriceSolves(cost, m, f, mode); }
    } else {
      // both sides times (1 + m) equal p * (1 - f)
      assert c * (1.0 + m) == p * (1.0 - f) by { ReverseCostSolves(p, m, f, mode); }
      assert p * (1.0 - f) == cost * (1.0 + m) by { ForwardPriceSolves(cost, m, f, mode); }
      MulCancel(c, cost, 1.0 + m);
    }
  }

  /** Forward after reverse gives back the selling price, under the same conditions. */
  lemma ForwardOfReverse(price: real, m: real, f: real, mode: Mode)
    requires mode == PriceBased ==> 1.0 - m - f > 0.0
    requires mode == CostBased ==> 1.0 - f > 0.0 && 1.0 + m != 0.0
    ensures ReverseDefined(m, mode)
    ensures ForwardPrice(ReverseCost(price, m, f, mode), m, f, mode) == price
  {
    var c := ReverseCost(price, m, f, mode);
    ForwardPriceSolves(c, m, f, mode);
    var p := ForwardPrice(c, m, f, mode);
    if mode == PriceBased {
      var d := 1.0 - m - f;
      assert p * d == price * d by {
        assert c == price * d;
      }
      MulCancel(p, price, d);
    } else {
      ReverseCostSolves(price, m, f, mode);
      MulCancel(p, price, 1.0 - f);
    }
  }

  /** Inferring the margin from an edited price and then redrawing the price from that
      margin returns the edited price (before the margin is rounded to two decimals). */
  lemma InferThenForward(price: real, cost: real, f: real, mode: Mode)
    requires mode == PriceBased ==> price > 0.0 && cost > 0.0
    requires mode == CostBased ==> cost > 0.0 && 1.0 - f > 0.0
    ensures ForwardPrice(cost, InferMargin(price, cost, f, mode), f, mode) == price
  {
    if mode == PriceBased {
      PriceBasedRedraw(price, cost, f, (price - cost - (price * f)) / price);
    } else {
      CostBasedRedraw(price, cost, f, (price * (1.0 - f) - cost) / cost);
    }
  }

  lemma PriceBasedRedraw(price: real, cost: real, f: real, m: real)
    requires price > 0.0 && cost > 0.0
    requires m == (price - cost - (price * f)) / price
    ensures 1.0 - m - f > 0.0 && cost / (1.0 - m - f) == price
  {
    var denom := 1.0 - m - f;
    DivThenMul(price - cost - price * f, price);
    assert denom * price == cost;
    assert denom > 0.0 by {
      if denom <= 0.0 {
        MulNonNegative(-denom, price);
      }
    }
    DivThenMul(cost, denom);
    MulCancel(cost / denom, price, denom);
  }

  lemma CostBasedRedraw(price: real, cost: real, f: real, m: real)
    requires cost > 0.0 && 1.0 - f > 0.0
    requires m == (price * (1.0 - f) - cost) / cost
    ensures (cost * (1.0 + m)) / (1.0 - f) == price
  {
    DivThenMul(price * (1.0 - f) - cost, cost);
    assert cost * (1.0 + m) == price * (1.0 - f);
    MulThenDiv(price, 1.0 - f);
  }

  lemma MulNonNegative(a: real, b: real)
    requires a >= 0.0 && b >= 0.0
    ensures a * b >= 0.0
  {
  }

  lemma DivNonNegative(a: real, b: real)
    requires a >= 0.0 && b > 0.0
    ensures a / b >= 0.0
  {
  }

  lemma DivThenMul(a: real, b: real)
    requires b != 0.0
    ensures (a / b) * b == a
  {
  }

  lemma MulThenDiv(a: real, b: real)
    requires b != 0.0
    ensures (a * b) / b == a
  {
  }

  lemma MulCancel(a: real, b: real, d: real)
    requires d != 0.0 && a * d == b * d
    ensures a == b
  {
    assert (a - b) * d == 0.0;
  }
}
