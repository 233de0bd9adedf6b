/** `on_data_change`: apply the grid's change-set to a copy of the sheet, append the new
    rows, sort by (순서, 품목), renumber 순서 as 1..N and run the engine. */
module Reducer {
  import opened Rounding
  import opened Rows
  import opened Formulas
  import opened Engine
  import opened Labels
  import opened Ordering

  /** One edited cell: the column and the value the grid reports for it. */
  datatype Cell =
    | SetReverse(flag: bool)     // 역산
    | SetOrder(value: real)      // 순서, read through int(...)
    | SetPrice(value: real)      // 판매가
    | SetItem(text: string)      // 품목
    | SetSpec(text: string)      // 규격
    | SetCost(value: real)       // 원가
    | SetTargetPct(value: real)  // 목표마진%
    | SetMarginPct(value: real)  // 마진%
    | SetGapAmt(value: real)     // 목표마진대비금액
    | SetMarginAmt(value: real)  // 마진금액
    | SetFeePct(value: real)     // 수수료%
    | SetFeeAmt(value: real)     // 수수료금액

  /** One entry of `edited_rows`: a row position and its cell changes, in the order given. */
  datatype RowEdit = RowEdit(row: nat, changes: seq<Cell>)

  /** The editor's payload: `edited_rows`, and how many entries `added_rows` has (their
      contents are not read). */
  datatype ChangeSet = ChangeSet(editedRows: seq<RowEdit>, addedRows: nat)

  /** The row `pd.concat` appends, with order `n`; 규격, 판매가 and the three amounts, which
      the source leaves unset, are "" and 0 here. */
  function DefaultRow(n: int): (r: Row)
    ensures r.order == n && !r.reverse && r.item == "" && r.cost == 0.0
    ensures r.feePct == 0.0 && r.marginPct == 0.0 && r.targetPct == 0.0
  {
    Row(n, false, "", "", 0.0, 0.0, 0.0, 0.0, 0.0, 0.0, 0.0, 0.0)
  }

  /** `df.loc[df['순서'] >= newOrder, '순서'] += 1` */
  function ShiftFrom(df: seq<Row>, newOrder: int): (r: seq<Row>)
    ensures |r| == |df|
    // only orders change, each by at most one
    ensures forall j :: 0 <= j < |r| ==> r[j] == df[j].(order := r[j].order)
    ensures forall j :: 0 <= j < |r| ==> r[j].order == df[j].order || r[j].order == df[j].order + 1
    // the slot `newOrder` is freed, and rows keep their relative order
    ensures forall j :: 0 <= j < |r| ==> r[j].order != newOrder
    ensures forall a, b :: 0 <= a < |r| && 0 <= b < |r| && df[a].order < df[b].order ==> r[a].order < r[b].order
  {
    seq(|df|, j requires 0 <= j < |df| =>
      if df[j].order >= newOrder then df[j].(order := df[j].order + 1) else df[j])
  }

  /** One iteration of the inner loop over `changes`, for row position `i`. */
  function ApplyCell(df: seq<Row>, i: nat, c: Cell, mode: Mode): (r: seq<Row>)
    requires i < |df|
    ensures |r| == |df|
    // another row can change only in its order (the shift of a 순서 edit)
    ensures forall j :: 0 <= j < |df| && j != i ==> r[j] == df[j].(order := r[j].order)
  {
    var row := df[i];
    match c
    case SetReverse(v) =>
      df[i := row.(item := if v then AddTag(row.item) else StripTag(row.item), reverse := v)]
    case SetOrder(value) =>
      var newOrder := TruncateToInt(value);
      var shifted := if newOrder <= row.order then ShiftFrom(df, newOrder) else df;
      shifted[i := shifted[i].(order := newOrder)]
    case SetPrice(p) =>
      if row.reverse then df[i := row.(price := p)]
      else
        var m := InferMargin(p, row.cost, Frac(row.feePct), mode);
        df[i := row.(marginPct := Round2(m * 100.0), price := p)]
    case SetItem(v) => df[i := row.(item := v)]
    case SetSpec(v) => df[i := row.(spec := v)]
    case SetCost(v) => df[i := row.(cost := v)]
    case SetTargetPct(v) => df[i := row.(targetPct := v)]
    case SetMarginPct(v) => df[i := row.(marginPct := v)]
    case SetGapAmt(v) => df[i := row.(gapAmt := v)]
    case SetMarginAmt(v) => df[i := row.(marginAmt := v)]
    case SetFeePct(v) => df[i := row.(feePct := v)]
    case SetFeeAmt(v) => df[i := row.(feeAmt := v)]
  }

  /** All changes of one row, first to last (a later change of a column wins). */
  function ApplyCells(df: seq<Row>, i: nat, cs: seq<Cell>, mode: Mode): (r: seq<Row>)
    requires i < |df|
    ensures |r| == |df|
    ensures forall j :: 0 <= j < |df| && j != i ==> r[j] == df[j].(order := r[j].order)
    decreases |cs|
  {
    if cs == [] then df else ApplyCells(ApplyCell(df, i, cs[0], mode), i, cs[1..], mode)
  }

  /** Every row position with a change exists; otherwise `iloc` raises IndexError. */
  predicate InRange(es: seq<RowEdit>, n: nat) {
    forall k :: 0 <= k < |es| ==> es[k].changes == [] || es[k].row < n
  }

  /** No entry of `es` changes row position `j`. */
  predicate Untouched(es: seq<RowEdit>, j: nat) {
    forall k :: 0 <= k < |es| ==> es[k].changes == [] || es[k].row != j
  }

  /** The outer loop over `edited_rows`. */
  function ApplyEdits(df: seq<Row>, es: seq<RowEdit>, mode: Mode): (r: seq<Row>)
    requires InRange(es, |df|)
    ensures |r| == |df|
    // a row no entry edits can change only in its order
    ensures forall j :: 0 <= j < |df| && Untouched(es, j) ==> r[j] == df[j].(order := r[j].order)
    decreases |es|
  {
    if es == [] then df
    else
      var next := if es[0].changes == [] then df else ApplyCells(df, es[0].row, es[0].changes, mode);
      ApplyEdits(next, es[1..], mode)
  }

  /** The loop over `added_rows`: each new row's order is the table's length plus one. */
  function AppendDefaults(df: seq<Row>, count: nat): (r: seq<Row>)
    ensures |r| == |df| + count
    ensures r[..|df|] == df
    ensures forall j :: |df| <= j < |r| ==> r[j] == DefaultRow(j + 1)
    decreases count
  {
    if count == 0 then df
    else
      var r := AppendDefaults(df + [DefaultRow(|df| + 1)], count - 1);
      assert r[..|df| + 1][..|df|] == r[..|df|];
      assert r[|df|] == r[..|df| + 1][|df|];
      r
  }

  /** The table after the edits and appends, before finalisation. */
  function Edited(data: seq<Row>, cs: ChangeSet, mode: Mode): seq<Row>
    requires InRange(cs.editedRows, |data|)
  {
    AppendDefaults(ApplyEdits(data, cs.editedRows, mode), cs.addedRows)
  }

  /** Sort, renumber and recalculate. */
  function Finalise(t: seq<Row>, mode: Mode): (r: seq<Row>)
    ensures |r| == |t|
    ensures forall i :: 0 <= i < |r| ==> r[i].order == i + 1
  {
    Recalculated(Renumber(SortByKey(t)), mode)
  }

  /** The inner loop over one row's changes; `ok` is false when the first change already
      meets a row position the table does not have. */
  method ApplyRowChanges(df: seq<Row>, i: nat, changes: seq<Cell>, mode: Mode) returns (ok: bool, r: seq<Row>)
    ensures ok <==> changes == [] || i < |df|
    ensures ok ==> r == if changes == [] then df else ApplyCells(df, i, changes, mode)
  {
    r := df;
    var j := 0;
    while j < |changes|
      invariant 0 <= j <= |changes| && |r| == |df|
      invariant j == 0 ==> r == df
      invariant j > 0 ==> i < |df|
      invariant i < |df| ==> ApplyCells(r, i, changes[j..], mode) == ApplyCells(df, i, changes, mode)
    {
      if i >= |r| {
        return false, df;
      }
      r := ApplyCell(r, i, changes[j], mode);
      j := j + 1;
    }
    ok := true;
  }

  /** The loop over `added_rows`, one default row per entry. */
  method AppendDefaultRows(df: seq<Row>, count: nat) returns (r: seq<Row>)
    ensures r == AppendDefaults(df, count)
  {
    r := df;
    var n := 0;
    while n < count
      invariant 0 <= n <= count && |r| == |df| + n
      invariant AppendDefaults(r, count - n) == AppendDefaults(df, count)
    {
      r := r + [DefaultRow(|r| + 1)];
      n := n + 1;
    }
  }

  /** The handler over a copy of the session's table: `raised` is the IndexError for an
      edited row position the table does not have, in which case nothing is stored and the
      session keeps `data`. */
  method ApplyChangeSet(data: seq<Row>, cs: ChangeSet, mode: Mode) returns (raised: bool, next: seq<Row>)
    ensures raised <==> !InRange(cs.editedRows, |data|)
    ensures raised ==> next == data
    ensures !raised ==> next == Finalise(Edited(data, cs, mode), mode)
    ensures !raised ==> |next| == |data| + cs.addedRows
    ensures !raised ==> forall i :: 0 <= i < |next| ==> next[i].order == i + 1
  {
    var es := cs.editedRows;
    var df := data;
    var k := 0;
    while k < |es|
      invariant 0 <= k <= |es| && |df| == |data|
      invariant InRange(es[..k], |data|)
      invariant InRange(es, |data|) ==> ApplyEdits(df, es[k..], mode) == ApplyEdits(data, es, mode)
    {
      var ok, after := ApplyRowChanges(df, es[k].row, es[k].changes, mode);
      if !ok {
        assert !InRange(es, |data|) by {
          assert es[k].changes != [] && es[k].row >= |data|;
        }
        return true, data;
      }
      df := after;
      assert es[..k + 1] == es[..k] + [es[k]];
      assert es[k..][1..] == es[k + 1..];
      k := k + 1;
    }
    assert es[..k] == es;
    df := AppendDefaultRows(df, cs.addedRows);
    df := Renumber(SortByKey(df));
    next := RunCalculationEngine(df, mode);
    raised := false;
  }

  /** A 역산 edit stores the flag and keeps the tag in step with it; nothing else changes. */
  lemma ReverseEdit(df: seq<Row>, i: nat, v: bool, mode: Mode)
    requires i < |df|
    ensures var r := ApplyCell(df, i, SetReverse(v), mode);
            && r[i].reverse == v
            && (v ==> r[i].item == AddTag(df[i].item) && StartsWith(r[i].item, ReverseMark))
            && (v && StartsWith(df[i].item, ReverseMark) ==> r[i].item == df[i].item)
            && (v && !StartsWith(df[i].item, ReverseMark) ==> r[i].item == ReverseTag + df[i].item)
            && (!v ==> r[i].item == StripTag(df[i].item))
            && r[i] == df[i].(item := r[i].item, reverse := v)
            && forall j :: 0 <= j < |df| && j != i ==> r[j] == df[j]
  {
  }

  /** Ticking 역산 on a row that is already ticked changes nothing. */
  lemma ReverseEditIdempotent(df: seq<Row>, i: nat, v: bool, mode: Mode)
    requires i < |df|
    ensures var once := ApplyCell(df, i, SetReverse(v), mode);
            v ==> ApplyCell(once, i, SetReverse(v), mode) == once
  {
    AddTagIdempotent(df[i].item);
  }

  /** Ticking and then clearing 역산 restores an untagged name and the cleared flag. */
  lemma ReverseToggleRoundTrip(df: seq<Row>, i: nat, mode: Mode)
    requires i < |df| && !df[i].reverse
    requires !Contains(df[i].item, ReverseTag)
    ensures ApplyCells(df, i, [SetReverse(true), SetReverse(false)], mode) == df
  {
    var once := ApplyCell(df, i, SetReverse(true), mode);
    var twice := ApplyCell(once, i, SetReverse(false), mode);
    TagRoundTrip(df[i].item);
    assert twice == df;
    assert [SetReverse(true), SetReverse(false)][1..] == [SetReverse(false)];
    assert [SetReverse(false)][1..] == [];
  }

  /** A 순서 edit to `n = int(value)`: when `n` is at most the row's order, every other row
      with order `n` or more moves up by one; the row itself gets `n`. Only orders change. */
  lemma OrderEdit(df: seq<Row>, i: nat, value: real, mode: Mode)
    requires i < |df|
    ensures var r := ApplyCell(df, i, SetOrder(value), mode);
            var n := TruncateToInt(value);
            && r[i].order == n
            && (forall j :: 0 <= j < |df| && j != i ==>
                  r[j].order == if n <= df[i].order && df[j].order >= n then df[j].order + 1 else df[j].order)
            && forall j :: 0 <= j < |df| ==> r[j] == df[j].(order := r[j].order)
  {
  }

  /** A 판매가 edit: a reverse row stores the price as given; a normal row stores it too and
      takes as its margin the inferred margin in percent, rounded to two decimals. Nothing
      else changes. */
  lemma PriceEdit(df: seq<Row>, i: nat, p: real, mode: Mode)
    requires i < |df|
    ensures var r := ApplyCell(df, i, SetPrice(p), mode);
            var m := InferMargin(p, df[i].cost, Frac(df[i].feePct), mode);
            && r[i].price == p
            && (df[i].reverse ==> r[i] == df[i].(price := p))
            && (!df[i].reverse ==> r[i] == df[i].(price := p, marginPct := r[i].marginPct))
            && (!df[i].reverse ==> RoundedFrom(m * 100.0 * 100.0, r[i].marginPct * 100.0))
            && (!df[i].reverse ==> -0.005 <= r[i].marginPct - m * 100.0 <= 0.005)
            && (!df[i].reverse ==> (r[i].marginPct * 100.0).Floor as real == r[i].marginPct * 100.0)
            && forall j :: 0 <= j < |df| && j != i ==> r[j] == df[j]
  {
  }

  /** No two rows share an order. */
  predicate DistinctOrders(s: seq<Row>) {
    forall a, b :: 0 <= a < b < |s| ==> s[a].order != s[b].order
  }

  /** Moving a row up (to an order no larger than its own) keeps the orders distinct; the
      rows that were before the new position stay before it and the rest come after it. */
  lemma MoveUpKeepsOrdersDistinct(df: seq<Row>, i: nat, value: real, mode: Mode)
    requires i < |df| && DistinctOrders(df)
    requires TruncateToInt(value) <= df[i].order
    ensures var r := ApplyCell(df, i, SetOrder(value), mode);
            var n := TruncateToInt(value);
            && DistinctOrders(r)
            && forall j :: 0 <= j < |df| && j != i ==> (r[j].order < n <==> df[j].order < n)
  {
    var r := ApplyCell(df, i, SetOrder(value), mode);
    OrderEdit(df, i, value, mode);
    forall a, b | 0 <= a < b < |r| ensures r[a].order != r[b].order {
      assert df[a].order != df[b].order;
    }
  }

  /** After finalisation the table is the sorted permutation of the edited rows, numbered
      1..N, and every row recalculated. */
  lemma FinaliseSpec(t: seq<Row>, mode: Mode)
    ensures var sorted := SortByKey(t);
            var f := Finalise(t, mode);
            && SortedByKey(sorted)
            && multiset(sorted) == multiset(t)
            && |f| == |t|
            && forall i :: 0 <= i < |f| ==> f[i].order == i + 1 && f[i] == RecalcRow(sorted[i].(order := i + 1), mode)
  {
    SortByKeySorted(t);
  }

  /** A freshly appended row is already a fixed point of the engine in either mode:
      with zero cost and zero percentages every price and amount is zero. */
  lemma DefaultRowSettles(n: int, mode: Mode)
    ensures RecalcRow(DefaultRow(n), mode) == DefaultRow(n)
  {
    var o := RecalcRow(DefaultRow(n), mode);
    RoundHalfEvenUnique(0.0, o.price.Floor, 0);
    RoundHalfEvenUnique(0.0, o.feeAmt.Floor, 0);
    RoundHalfEvenUnique(0.0, o.marginAmt.Floor, 0);
    RoundHalfEvenUnique(0.0, o.gapAmt.Floor, 0);
  }

  /** Cost 1000, fee 0%, margin 20% (price 1250), price edited to 1000 in price-based mode:
      the margin becomes 0% and the engine redraws the price as 1000. */
  lemma PriceEditExample()
    ensures var df := [Row(1, false, "a", "", 1000.0, 0.0, 20.0, 0.0, 250.0, 0.0, 0.0, 1250.0)];
            var edited := ApplyCell(df, 0, SetPrice(1000.0), PriceBased);
            edited[0].marginPct == 0.0 && RecalcRow(edited[0], PriceBased).price == 1000.0
  {
    var row := Row(1, false, "a", "", 1000.0, 0.0, 20.0, 0.0, 250.0, 0.0, 0.0, 1250.0);
    var edited := ApplyCell([row], 0, SetPrice(1000.0), PriceBased);
    assert edited[0] == row.(marginPct := 0.0, price := 1000.0) by {
      assert InferMargin(1000.0, 1000.0, 0.0, PriceBased) == 0.0;
      assert Round2(0.0) == 0.0 by { RoundHalfEvenUnique(0.0, RoundHalfEven(0.0), 0); }
    }
    assert RecalcRow(row.(marginPct := 0.0, price := 1000.0), PriceBased).price == 1000.0 by {
      var o := RecalcRow(row.(marginPct := 0.0, price := 1000.0), PriceBased);
      assert ForwardPrice(1000.0, 0.0, 0.0, PriceBased) == 1000.0;
      RoundHalfEvenUnique(1000.0, o.price.Floor, 1000);
    }
  }

  /** Three rows numbered 1, 2, 3; row 2 (order 3) is moved to order 1: it comes first and
      the other two keep their order behind it. */
  lemma MoveUpExample(x: Row, y: Row, z: Row, mode: Mode)
    requires x.order == 1 && y.order == 2 && z.order == 3
    ensures var f := Finalise(Edited([x, y, z], ChangeSet([RowEdit(2, [SetOrder(1.0)])], 0), mode), mode);
            |f| == 3 && f[0].item == z.item && f[1].item == x.item && f[2].item == y.item
  {
    var x', y', z' := x.(order := 2), y.(order := 3), z.(order := 1);
    MoveUpEdited(x, y, z, mode);
    MoveUpSorted(x', y', z');
    FinaliseSpec([x', y', z'], mode);
  }

  lemma MoveUpEdited(x: Row, y: Row, z: Row, mode: Mode)
    requires x.order == 1 && y.order == 2 && z.order == 3
    ensures InRange([RowEdit(2, [SetOrder(1.0)])], 3)
    ensures Edited([x, y, z], ChangeSet([RowEdit(2, [SetOrder(1.0)])], 0), mode)
            == [x.(order := 2), y.(order := 3), z.(order := 1)]
  {
    assert TruncateToInt(1.0) == 1;
    assert ShiftFrom([x, y, z], 1) == [x.(order := 2), y.(order := 3), z.(order := 4)];
    EditedOneCell([x, y, z], 2, SetOrder(1.0), mode);
  }

  lemma MoveUpSorted(x: Row, y: Row, z: Row)
    requires x.order == 2 && y.order == 3 && z.order == 1
    ensures SortByKey([x, y, z]) == [z, x, y]
  {
    assert Insert(y, [z]) == [z, y] by {
      InsertAfter(y, [z]);
      assert [z][1..] == [];
      InsertBefore(y, []);
    }
    assert Insert(x, [z, y]) == [z, x, y] by {
      InsertAfter(x, [z, y]);
      assert [z, y][1..] == [y];
      InsertBefore(x, [y]);
    }
    SortThree(x, y, z);
  }

  /** Moving a row down is not a shift: the row at order 1 asked to go to order 3 ties with
      the row already there, and when its name sorts first it ends at order 2, not 3. */
  lemma MoveDownExample(x: Row, y: Row, z: Row, mode: Mode)
    requires x.order == 1 && y.order == 2 && z.order == 3
    requires NameLe(x.item, z.item)
    ensures var f := Finalise(Edited([x, y, z], ChangeSet([RowEdit(0, [SetOrder(3.0)])], 0), mode), mode);
            |f| == 3 && f[0].item == y.item && f[1].item == x.item && f[1].order == 2 && f[2].item == z.item
  {
    var x' := x.(order := 3);
    MoveDownEdited(x, y, z, mode);
    MoveDownSorted(x', y, z);
    FinaliseSpec([x', y, z], mode);
  }

  lemma MoveDownEdited(x: Row, y: Row, z: Row, mode: Mode)
    requires x.order == 1 && y.order == 2 && z.order == 3
    ensures InRange([RowEdit(0, [SetOrder(3.0)])], 3)
    ensures Edited([x, y, z], ChangeSet([RowEdit(0, [SetOrder(3.0)])], 0), mode) == [x.(order := 3), y, z]
  {
    assert TruncateToInt(3.0) == 3;
    EditedOneCell([x, y, z], 0, SetOrder(3.0), mode);
  }

  lemma MoveDownSorted(x: Row, y: Row, z: Row)
    requires x.order == 3 && y.order == 2 && z.order == 3 && NameLe(x.item, z.item)
    ensures SortByKey([x, y, z]) == [y, x, z]
  {
    calc {
      SortByKey([x, y, z]);
      { SortThree(x, y, z); }
      Insert(x, Insert(y, [z]));
      { InsertBefore(y, [z]); }
      Insert(x, [y, z]);
      { InsertAfter(x, [y, z]); assert [y, z][1..] == [z]; }
      [y] + Insert(x, [z]);
      { InsertBefore(x, [z]); }
      [y, x, z];
    }
  }

  /** A change-set of one cell and no new rows edits exactly that cell. */
  lemma EditedOneCell(df: seq<Row>, i: nat, c: Cell, mode: Mode)
    requires i < |df|
    ensures InRange([RowEdit(i, [c])], |df|)
    ensures Edited(df, ChangeSet([RowEdit(i, [c])], 0), mode) == ApplyCell(df, i, c, mode)
  {
    var es := [RowEdit(i, [c])];
    assert es[1..] == [] && [c][1..] == [];
    var one := ApplyCell(df, i, c, mode);
    assert ApplyCells(df, i, [c], mode) == ApplyCells(one, i, [], mode) == one;
    assert ApplyEdits(df, es, mode) == ApplyEdits(one, [], mode) == one;
    assert AppendDefaults(one, 0) == one;
  }
}
