/** The price sheet's data model: one `Row` per product line, with the columns of the
    sheet in the order the program creates them, and the global calculation mode. */
module Rows {

  /** `calc_mode`: "판매가 기준" (margin measured on the selling price) or
      "원가 기준" (margin measured on the cost). */
  datatype Mode = PriceBased | CostBased

  /** One line of the sheet. Percent columns hold percentages (20.0 means 20%);
      money columns hold amounts in won. */
  datatype Row = Row(
    order: int,        // 순서: manual sort key
    reverse: bool,     // 역산: solve cost from the selling price
    item: string,      // 품목: item name, carries the "[역산] " tag
    spec: string,      // 규격: unit or size, passed through
    cost: real,        // 원가
    targetPct: real,   // 목표마진%
    marginPct: real,   // 마진%
    gapAmt: real,      // 목표마진대비금액: margin amount minus the target amount
    marginAmt: real,   // 마진금액
    feePct: real,      // 수수료%
    feeAmt: real,      // 수수료금액
    price: real        // 판매가
  )

  /** The two rows the sheet starts with when no saved work can be read. */
  function InitialTable(): (t: seq<Row>)
    ensures |t| == 2 && t[0].order == 1 && t[1].order == 2
    ensures forall i :: 0 <= i < |t| ==> !t[i].reverse && t[i].price == 0.0
  {
    [ Row(1, false, "유기농 당근", "1kg", 1000.0, 20.0, 15.0, 0.0, 0.0, 0.0, 0.0, 0.0),
      Row(2, false, "유기농 양파", "500g", 2000.0, 20.0, 15.0, 0.0, 0.0, 0.0, 0.0, 0.0) ]
  }
}
