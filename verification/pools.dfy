/**
 The interpreter state: the variable pool maps names to shared boolean cells,
 the logic pool maps names to truth-table entries over those cells. Cells live
 in an arena; a write always creates a new cell, so a cell never changes value
 once created and every name bound to it keeps seeing the same value.
 */
module Pools {
  import opened Minterms

  datatype State = State(vars: map<string, CellId>, logic: map<string, Logic>, cells: seq<bool>)

  /** The interpreter's pools before the first statement. */
  const Initial: State := State(map[], map[], [])

  predicate InputsIn(logic: Logic, size: nat)
  {
    forall k :: 0 <= k < |logic.inputs| ==> logic.inputs[k] < size
  }

  /** Every minterm names a row of the table: only in-range numbers are ever inserted. */
  predicate MintermsInRange(logic: Logic)
  {
    forall m :: m in logic.mins ==> m < Pow2(|logic.inputs|)
  }

  /** Every reference points into the arena and every table holds only in-range minterms. */
  predicate Valid(st: State)
  {
    && (forall n :: n in st.vars ==> st.vars[n] < |st.cells|)
    && (forall n :: n in st.logic ==> InputsIn(st.logic[n], |st.cells|) && MintermsInRange(st.logic[n]))
  }

  /** The arena of st' starts with the arena of st: no existing cell was overwritten. */
  predicate Extends(st: State, st': State)
  {
    |st.cells| <= |st'.cells| && st'.cells[..|st.cells|] == st.cells
  }

  /** `pool[name] = std::make_shared<bool>(b)`: the name is rebound to a new cell. */
  function BindFresh(st: State, name: string, b: bool): (st': State)
    requires Valid(st)
    ensures Valid(st') && Extends(st, st')
    ensures name in st'.vars && st'.vars[name] !in st.vars.Values && st'.cells[st'.vars[name]] == b
  {
    var st' := State(st.vars[name := |st.cells|], st.logic, st.cells + [b]);
    assert st'.cells[..|st.cells|] == st.cells;
    st'
  }

  /** The value a variable currently reads. */
  function VarValue(st: State, name: string): bool
    requires Valid(st) && name in st.vars
  {
    st.cells[st.vars[name]]
  }

  /** A table can be evaluated when its shift amounts fit the 32-bit packing. */
  predicate Evaluable(st: State, name: string)
  {
    name in st.logic ==> |st.logic[name].inputs| <= MaxInputs
  }

  /** The current value of a logic-pool entry (Logic::isValueInMins over the current cells). */
  function TableValue(st: State, name: string): bool
    requires Valid(st) && name in st.logic && Evaluable(st, name)
  {
    IsValueInMins(st.cells, st.logic[name])
  }

  /** Growing the arena does not change what a table evaluates to. */
  lemma TableValueStable(st: State, st': State, name: string)
    requires Valid(st) && Valid(st') && Extends(st, st')
    requires name in st.logic && name in st'.logic && st'.logic[name] == st.logic[name]
    requires Evaluable(st, name)
    ensures TableValue(st', name) == TableValue(st, name)
  {
    var ids := st.logic[name].inputs;
    assert forall k :: 0 <= k < |ids| ==> st'.cells[ids[k]] == st'.cells[..|st.cells|][ids[k]];
    assert InputBits(st'.cells, ids) == InputBits(st.cells, ids);
  }
}
