/** The session state the handlers read and write: the sheet (`st.session_state.data`) and
    the calculation mode (`st.session_state.calc_mode`). */
module SessionState {
  import opened Rows
  import opened Engine
  import opened Reducer

  class Session {
    var data: seq<Row>
    var calcMode: Mode

    /** A new session: the table read from storage, or the built-in two rows when that
        fails (the caller decides), in price-based mode. */
    constructor (loaded: seq<Row>)
      ensures data == loaded && calcMode == PriceBased
    {
      data := loaded;
      calcMode := PriceBased;
    }

    /** The editor's `on_change` callback. When an edited row position is out of range the
        callback raises before storing anything, and the session keeps its table. */
    method OnDataChange(state: ChangeSet) returns (raised: bool)
      modifies this
      ensures calcMode == old(calcMode)
      ensures raised <==> !InRange(state.editedRows, |old(data)|)
      ensures raised ==> data == old(data)
      ensures !raised ==> data == Finalise(Edited(old(data), state, calcMode), calcMode)
      ensures forall i :: 0 <= i < |data| && !raised ==> data[i].order == i + 1
    {
      var next;
      raised, next := ApplyChangeSet(data, state, calcMode);
      if !raised {
        data := next;
      }
    }

    /** The mode radio button: a different mode is stored and the engine re-run over the
        current table; choosing the current mode does nothing. */
    method SelectMode(newMode: Mode)
      modifies this
      ensures calcMode == newMode
      ensures newMode != old(calcMode) ==> data == Recalculated(old(data), newMode)
      ensures newMode == old(calcMode) ==> data == old(data)
    {
      if newMode != calcMode {
        calcMode := newMode;
        data := RunCalculationEngine(data, newMode);
      }
    }
  }
}
