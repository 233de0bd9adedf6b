# Pricing Lab Pro — reconciliation engine and edit reducer

Pricing Lab Pro is a spreadsheet-style pricing calculator. Each row of its sheet is one
product line: an order key (순서), a reverse flag (역산), an item name (품목), a size (규격),
cost (원가), fee % (수수료%), margin % (마진%), target margin % (목표마진%), selling
price (판매가), and three derived amounts: fee amount, margin amount and gap to target.

This project models the two pieces of `app.py` that carry logic, and proves properties of
them:

- **The calculation engine** (`run_calculation_engine`). It walks a copy of the table.
  A normal row keeps its cost and gets a selling price. A reverse row keeps its selling
  price and gets a cost. The formula depends on the global mode: "판매가 기준" (margin on
  the price) or "원가 기준" (margin on the cost). The engine then derives the fee amount,
  the margin amount and the gap to the target margin. Every written value is rounded to
  whole won. A price-based denominator that is not positive gives price 0. A cost-based
  reverse row with a margin of -100% divides by zero; that row is skipped untouched.
- **The edit handler** (`on_data_change`). It applies the grid's change-set to a copy of
  the table:
  - a 역산 edit adds or strips the "[역산] " tag on the item name;
  - a 순서 edit shifts other rows to make room;
  - a 판매가 edit on a normal row infers a new margin %;
  - any other edit is stored as given.
  It then appends default rows, sorts by (순서, 품목), renumbers 순서 as 1..N and runs
  the engine.

Numbers are `real`, so the arithmetic is exact. Python's `round(x, 0)` and `round(x, 2)`
are modelled as round-half-to-even, which is what Python's `round` does. `int(x)` is
modelled as truncation toward zero. The Streamlit session state becomes the class
`SessionState.Session`. Its `data` field is the sheet and its `calcMode` field is the mode.
Its two methods are the two handlers that change them: the editor callback and the mode
radio button. Tables are `seq<Row>` values. The engine and the handler therefore work on
copies, as the source does with `df.copy()`, and the caller's table cannot change.

Files (one module each): `rounding.dfy`, `rows.dfy` (row type, mode, starting table),
`formulas.dfy`, `engine.dfy`, `labels.dfy`, `ordering.dfy`, `reducer.dfy`, `session.dfy`.

Behaviour of `app.py` worth knowing, which the model follows:

- The gap to the target is computed from the unrounded margin amount.
- A row the engine cannot compute keeps all of its fields. The engine does not default
  malformed fields to 0.
- Moving a row to a larger 순서 shifts nothing. The row then ties with the row already at
  that order, and the name decides which comes first (`MoveDownExample`).

## Model

| member | source | states |
|---|---|---|
| `Rounding.RoundHalfEven` | app.py:64 | the result is the integer nearest the input; at an exact half it is the even neighbour |
| `Rounding.RoundHalfEvenUnique` | app.py:64 | at most one integer satisfies that rounding relation, so the relation pins the result |
| `Rounding.Round0` | app.py:80-82 | `round(x, 0)` stores a whole number that is `x` rounded half to even |
| `Rounding.Round0OfWhole` | app.py:72 | rounding a whole number returns it unchanged |
| `Rounding.Round2` | app.py:119 | `round(x, 2)` is 100·x rounded half to even, divided by 100: a multiple of 0.01 within 0.005 of `x`, and at an exact half-hundredth the neighbour with an even hundredths count |
| `Rounding.TruncateToInt` | app.py:103 | `int(x)` drops the fraction toward zero |
| `Rows.InitialTable` | app.py:34-47 | the fallback sheet has two rows, orders 1 and 2, not reversed, with price 0 |
| `Formulas.ForwardPrice` | app.py:67-71 | an infeasible denominator (price-based 1 − m − f ≤ 0, cost-based 1 − f ≤ 0) gives price 0 |
| `Formulas.ForwardPriceSolves` | app.py:66-71 | price-based with a positive denominator: price × (1 − m − f) = cost; cost-based with 1 − f > 0: price × (1 − f) = cost × (1 + m) |
| `Formulas.ReverseCost` | app.py:59-63 | the reverse formula: price-based price × (1 − m − f), cost-based price × (1 − f) / (1 + m), defined except for a cost-based margin of −100%; what it computes is stated by `ReverseCostSolves`, `ReverseOfForward` and `ForwardOfReverse` |
| `Formulas.ReverseCostSolves` | app.py:59-63 | price-based: cost + price·m + price·f = price; cost-based (1 + m ≠ 0): cost × (1 + m) = price × (1 − f) |
| `Formulas.InferMargin` | app.py:112-118 | a margin base (the price, or the cost) that is not positive gives margin 0 |
| `Formulas.InferMarginSolves` | app.py:112-118 | price-based with price > 0: m × price = price − cost − price·f; cost-based with cost > 0: m × cost = price·(1 − f) − cost |
| `Formulas.ForwardPriceNonNegative` | app.py:67-71 | a non-negative cost never gets a negative price, even when fee and margin reach 100% (cost-based needs a margin of at least −100%) |
| `Formulas.ReverseOfForward` | app.py:61-71 | with feasible denominators, the reverse formula applied to the forward price returns the cost |
| `Formulas.ForwardOfReverse` | app.py:61-71 | with feasible denominators, the forward formula applied to the reverse cost returns the price |
| `Formulas.InferThenForward` | app.py:115-118 | the margin inferred from an edited price, fed back into the forward formula, gives that price again (before the two-decimal rounding) |
| `Engine.Amounts` | app.py:74-82 | the fee amount, margin amount and gap are each the whole number `round(x, 0)` gives for price × f, price − cost − price × f, and that minus base × t |
| `Engine.WithAmounts` | app.py:74-82 | writes only the three amounts, and they agree with the row's stored price, cost, fee and target |
| `Engine.RowFails` | app.py:83-84 | a row's step raises at the division by 1 + m of line 63, and the row is skipped, exactly when it is reversed, the mode is cost-based and its margin % is −100 |
| `Engine.RecalcRow` | app.py:53-84 | a skipped row is returned unchanged; order, flag, names and percentages are never written; a normal row keeps its cost and gets the rounded forward price; a reverse row keeps its price and gets the rounded reverse cost; the amounts agree with the stored price and cost |
| `Engine.Recalculated` | app.py:50-85 | the engine keeps the number of rows, their orders and their names, and every row that does not fail ends with amounts that agree with its stored price and cost |
| `Engine.RunCalculationEngine` | app.py:50-85 | the output has the input's length; each row is that row recalculated on its own; every row that did not fail has consistent amounts |
| `Engine.RecalcRowIdempotent` | app.py:58-82 | running the row step twice gives the same row as running it once |
| `Engine.RecalculatedIdempotent` | app.py:50-85 | a second engine pass over the engine's output changes nothing |
| `Engine.InfeasibleRowPricedZero` | app.py:67-72 | a normal row with no positive denominator is priced at exactly 0 |
| `Engine.NormalRowPriceNonNegative` | app.py:66-72 | a normal row with a non-negative cost gets a non-negative stored price |
| `Engine.PriceBasedExample` | app.py:66-82 | cost 1000, fee 0%, margin 20%, price-based: price 1250, fee amount 0, margin amount 250 |
| `Engine.CostBasedExample` | app.py:66-82 | cost 2000, fee 13%, margin 15%, cost-based: price 2644, fee amount 344, margin amount 300 |
| `Engine.ReverseExample` | app.py:58-82 | reverse row, price 1250, fee 0%, margin 20%, price-based: cost 1000 |
| `Engine.InfeasibleExample` | app.py:66-82 | fee 60% and margin 50%, price-based: price 0 and margin amount −1000 |
| `Engine.InitialTableExample` | app.py:34-47 | the fallback rows are priced 1176 and 2353 by a price-based engine pass |
| `Labels.AddTag` | app.py:96-98 | a name starting with "[역산]" is left as it is; any other name gets exactly "[역산] " in front; either way the result starts with "[역산]" |
| `Labels.RemoveAll` | app.py:100 | `replace(tag, "")` never lengthens the name |
| `Labels.StripTag` | app.py:100 | stripping never lengthens the name, and a name with no "[역산] " in it is unchanged |
| `Labels.AddTagIdempotent` | app.py:96-98 | tagging twice equals tagging once |
| `Labels.AddTagNeverDoubles` | app.py:96-98 | a doubled tag appears only if the name already had one |
| `Labels.RemoveAllFirst` | app.py:100 | `replace(tag, "")` keeps everything before the first occurrence, deletes that occurrence and resumes the scan right after it |
| `Labels.RemoveAllAbsent` | app.py:100 | removing a tag that does not occur leaves the name unchanged |
| `Labels.StripTagLeading` | app.py:98-100 | removing tags from a tagged name equals removing them from the bare name |
| `Labels.TagRoundTrip` | app.py:94-101 | a name with no "[역산] " anywhere in it, tagged and then stripped, is the same name again (whether or not it already starts with "[역산]") |
| `Labels.StripTagCanLeaveTag` | app.py:100 | `replace` does not rescan, so "[역[역산] 산] " strips to "[역산] " |
| `Ordering.NameLeTotal` | app.py:128 | any two item names are comparable |
| `Ordering.NameLeTransitive` | app.py:128 | name order is transitive |
| `Ordering.Insert` | app.py:128 | insertion adds exactly one occurrence of the row |
| `Ordering.SortByKey` | app.py:128 | the sorted table is a permutation of its input (same length, same multiset of rows) |
| `Ordering.InsertSorted` | app.py:128 | inserting into a table sorted by (순서, 품목) keeps it sorted |
| `Ordering.SortByKeySorted` | app.py:128 | the result is sorted by (순서, 품목) |
| `Ordering.Renumber` | app.py:129 | 순서 becomes 1..N in table order and no other field changes |
| `Reducer.ShiftFrom` | app.py:106 | only 순서 changes, and each order stays or goes up by exactly one; afterwards no row has order n; rows keep their strict relative order |
| `Reducer.ApplyCell` | app.py:93-122 | one cell edit keeps the number of rows, and every other row changes at most in its order |
| `Reducer.ApplyCells` | app.py:92-93 | one row's changes, applied in order, keep the number of rows, and every other row changes at most in its order |
| `Reducer.ApplyEdits` | app.py:92-93 | all edited rows' changes keep the number of rows, and a row no change names changes at most in its order |
| `Reducer.ApplyRowChanges` | app.py:92-122 | the loop over one row's changes fails exactly when there is a change and the row position does not exist; otherwise the table is each change applied in order |
| `Reducer.AppendDefaultRows` | app.py:124-126 | the loop over `added_rows` appends exactly the rows `AppendDefaults` describes |
| `Reducer.DefaultRow` | app.py:125 | the appended row n has order n, is not reversed, has an empty name and zero cost, fee %, margin % and target % |
| `Reducer.AppendDefaults` | app.py:124-126 | the original rows are kept as a prefix; each appended row is the default row whose order is its position plus one |
| `Reducer.ApplyChangeSet` | app.py:88-130 | raises exactly when an edited row position is out of range, and then keeps the table; otherwise returns the recalculated sorted table, with length = old length + appended rows and 순서 = 1..N |
| `Reducer.ReverseEdit` | app.py:94-101 | the flag is stored; a set flag tags the name with `AddTag`: an already-tagged name is kept and any other gets "[역산] " in front; a cleared flag strips the name with `replace`; no other field or row changes |
| `Reducer.ReverseEditIdempotent` | app.py:94-101 | setting 역산 true on a row twice equals setting it once |
| `Reducer.ReverseToggleRoundTrip` | app.py:94-101 | on a normal row whose name has no "[역산] " in it, setting 역산 on and then off restores the whole table |
| `Reducer.OrderEdit` | app.py:102-107 | the row gets n = int(value); when n is at most its old order, every other row with order ≥ n goes up by one; otherwise no other row changes; only orders change |
| `Reducer.MoveUpKeepsOrdersDistinct` | app.py:102-107 | moving a row up keeps orders distinct; rows before the target stay before it and the rest come after it |
| `Reducer.PriceEdit` | app.py:108-120 | the price is stored as given; a reverse row changes nothing else; a normal row's margin % is 100 × the inferred margin rounded half to even at two decimals (so within 0.005 of it, on the 0.01 grid); no other row changes |
| `Reducer.Finalise` | app.py:128-130 | finalisation keeps the number of rows and numbers them 1..N in table order |
| `Reducer.FinaliseSpec` | app.py:128-130 | finalisation is a sorted permutation of the edited rows, renumbered 1..N and recalculated row by row |
| `Reducer.DefaultRowSettles` | app.py:124-126 | an appended row is a fixed point of the engine in both modes |
| `Reducer.PriceEditExample` | app.py:108-120 | cost 1000, fee 0%, price edited from 1250 to 1000 (price-based): margin becomes 0% and the engine redraws the price as 1000 |
| `Reducer.MoveUpExample` | app.py:102-129 | in rows ordered 1, 2, 3, moving the third to order 1 gives the order third, first, second |
| `Reducer.MoveDownExample` | app.py:102-129 | in rows ordered 1, 2, 3, moving the first to order 3 places it second (order 2) when its name sorts before the third row's name |
| `SessionState.Session.constructor` | app.py:16-47 | a session starts with the loaded table in price-based mode |
| `SessionState.Session.OnDataChange` | app.py:88-130 | keeps the mode; a raising change-set leaves the table; otherwise stores the finalised table, numbered 1..N |
| `SessionState.Session.SelectMode` | app.py:140-143 | a new mode is stored and the engine re-run over the table under it; the current mode changes nothing |

## Left out

- Streamlit page setup, sidebar, login radio, fee-preset multiselect, `st.data_editor`
  column configuration, buttons and `st.rerun`. They are UI only.
- Google-Sheets connection, reads, writes and "send to vendor B". They are network I/O.
  The session constructor takes the loaded table as a parameter.
- Excel export and the history frame. They are foreign-library serialisation and a
  commented-out write.
- `user_type` and `fee_presets`. The fee presets are enforced only by the dropdown.
- IEEE floating point. Reals are exact, so Python's rounding of binary floats
  (`round(2.675, 2)` gives 2.67) can differ from the model.
- pandas dtype coercion, NaN values, and exceptions other than the cost-based reverse
  division by 1 + m and the IndexError of an out-of-range edited row position. Cells
  are typed, so `int(val)` (app.py:103) and `float(val)` (app.py:114) never see a
  cleared cell; in the source both raise TypeError on None, and `float()` raises on a
  non-numeric string. NaN passes through `round(x, 0)` into the written cells instead
  of being skipped.
- An appended row leaves 규격, 판매가 and the derived amounts unset (NaN). The model sets
  them to "" and 0 (`Reducer.DefaultRow`). The engine pass then writes the price and the
  three amounts of such a row, so after finalisation only 규격 differs.
- `deleted_rows` of the change-set. The source never reads it, so deletions are not applied.
- The contents of `added_rows`. The source ignores them and appends default rows only.
- Ordering.SortByKey: stability is not proved. pandas sorts on several columns stably, and
  the insertion sort is stable, but no lemma states that rows with equal (순서, 품목)
  keep their relative order.
- Reducer.ApplyCell: its own contract states the row count and that other rows change at
  most in their order. Each column's effect is stated by `ReverseEdit`, `OrderEdit` and
  `PriceEdit`. Plain column edits, which store the
  value as given, have no lemma.
