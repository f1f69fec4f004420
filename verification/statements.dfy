/**
 The statement dispatcher (the body of Interpreter::Step after the statement
 has been cut out of the token stream). Errors abort the run; warnings and
 printed lines are events.
 */
module Statements {
  import opened Identifiers
  import opened Grouping
  import opened Minterms
  import opened Pools
  import opened Evaluator

  datatype ErrorKind = InvalidIdentifier | VariableNotFound

  datatype WarningKind = UnusedLine | MeaninglessNumber

  datatype Event = Printed(name: string, value: bool) | Warned(kind: WarningKind, line: int)

  /**
   A statement either completes, handing back the unread console input, or
   raises an error; the error carries the state and events as they were when
   it was raised.
   */
  datatype Outcome =
    | Done(st: State, input: seq<string>, events: seq<Event>)
    | Failed(error: ErrorKind, line: int, st: State, events: seq<Event>)

  const Operators: set<string> := {"and", "or", "not"}

  // ---------------------------------------------------------------------------
  // Numbers of the `min` statement

  const IntMin: int := -0x8000_0000

  predicate AllDigits(s: string)
  {
    forall k :: 0 <= k < |s| ==> IsDigit(s[k])
  }

  function DigitsValue(s: string): nat
    requires AllDigits(s)
  {
    if s == [] then 0 else DigitsValue(s[..|s| - 1]) * 10 + (s[|s| - 1] as int - '0' as int)
  }

  /** The text after one optional sign. */
  function Magnitude(t: string): string
  {
    if 0 < |t| && (t[0] == '-' || t[0] == '+') then t[1..] else t
  }

  /** The longest run of digits at the start of `s`: where atoi stops reading. */
  function DigitPrefix(s: string): (p: string)
    ensures |p| <= |s| && p == s[..|p|] && AllDigits(p)
    ensures |p| == |s| || !IsDigit(s[|p|])
  {
    if s == [] || !IsDigit(s[0]) then []
    else
      var p := [s[0]] + DigitPrefix(s[1..]);
      assert p == s[..|p|];
      p
  }

  /**
   atoi on a token (tokens hold no white space): an optional sign, then the
   leading digits; text without leading digits reads as 0.
   */
  function Atoi(t: string): int
  {
    var v := DigitsValue(DigitPrefix(Magnitude(t)));
    if 0 < |t| && t[0] == '-' then -(v as int) else v
  }

  /** atoi's result is defined only when the number it reads fits an `int`. */
  predicate AtoiInRange(t: string)
  {
    IntMin <= Atoi(t) <= IntMax
  }

  /** A minterm is accepted when it names a row of a table with k inputs. */
  predicate InRange(k: nat, v: int)
  {
    0 <= v <= Pow2(k) - 1
  }

  /** The insertion loop of `min`: in-range numbers are inserted, the others warned about. */
  function AddMinterms(k: nat, mins: set<nat>, args: seq<string>, line: int): (r: (set<nat>, seq<Event>))
    requires forall i :: 0 <= i < |args| ==> AtoiInRange(args[i])
    ensures forall m :: m in r.0 ==> m in mins || m < Pow2(k)
    decreases |args|
  {
    if args == [] then (mins, [])
    else
      assert AtoiInRange(args[0]);
      var v := Atoi(args[0]);
      if v < 0 || v > Pow2(k) - 1 then
        var (m', e') := AddMinterms(k, mins, args[1..], line);
        (m', [Warned(MeaninglessNumber, line)] + e')
      else
        AddMinterms(k, mins + {v}, args[1..], line)
  }

  // ---------------------------------------------------------------------------
  // The statement kinds

  /** One word of console input; at the end of the input the word read is empty. */
  function WordAt(input: seq<string>, i: nat): string
  {
    if i < |input| then input[i] else ""
  }

  /** `input n1 ... nk`: each name is checked, then bound to a fresh cell holding the next input word. */
  function ReadInputs(st: State, names: seq<string>, input: seq<string>, line: int): (r: Outcome)
    requires Valid(st)
    ensures Valid(r.st) && Extends(st, r.st)
    ensures r.Failed? ==> r.error == InvalidIdentifier && r.line == line
    decreases |names|
  {
    if names == [] then Done(st, input, [])
    else if !IsValidCppIdentifier(names[0]) then Failed(InvalidIdentifier, line, st, [])
    else
      var st' := BindFresh(st, names[0], ConvertToBool(WordAt(input, 0)));
      var r := ReadInputs(st', names[1..], if input == [] then [] else input[1..], line);
      assert Extends(st, r.st) by {
        assert r.st.cells[..|st.cells|] == r.st.cells[..|st'.cells|][..|st.cells|];
      }
      r
  }

  predicate Resolvable(st: State, name: string)
  {
    name in st.vars || name in st.logic
  }

  /** What `print` shows for a name: the variable if there is one, else the table's current value. */
  function ShownValue(st: State, name: string): bool
    requires Valid(st) && Resolvable(st, name) && (name !in st.vars ==> Evaluable(st, name))
  {
    if name in st.vars then VarValue(st, name) else TableValue(st, name)
  }

  function PrependEvent(e: Event, r: Outcome): Outcome
  {
    match r
    case Done(st, input, evs) => Done(st, input, [e] + evs)
    case Failed(err, line, st, evs) => Failed(err, line, st, [e] + evs)
  }

  /** `print n1 ... nk`: one line per name, stopping with an error at the first unknown one. */
  function PrintNames(st: State, names: seq<string>, input: seq<string>, line: int): (r: Outcome)
    requires Valid(st) && forall k :: 0 <= k < |names| && names[k] !in st.vars ==> Evaluable(st, names[k])
    ensures r.st == st
    ensures r.Failed? ==> r.error == VariableNotFound && r.line == line
  {
    if names == [] then Done(st, input, [])
    else if !Resolvable(st, names[0]) then Failed(VariableNotFound, line, st, [])
    else PrependEvent(Printed(names[0], ShownValue(st, names[0])), PrintNames(st, names[1..], input, line))
  }

  /** The `set` loop: the cells of all inputs, or the first input missing from the variable pool. */
  function ResolveInputs(st: State, names: seq<string>): (r: Result<seq<CellId>>)
    ensures r.Ok? <==> forall k :: 0 <= k < |names| ==> names[k] in st.vars
    ensures r.Ok? ==> |r.value| == |names| && forall k :: 0 <= k < |names| ==> r.value[k] == st.vars[names[k]]
    ensures r.NotFound? ==> r.name in names && r.name !in st.vars
  {
    if names == [] then Ok([])
    else if names[0] !in st.vars then NotFound(names[0])
    else
      match ResolveInputs(st, names[1..])
      case NotFound(n) => NotFound(n)
      case Ok(ids) => Ok([st.vars[names[0]]] + ids)
  }

  /** `name set i1 ... ik`: a new table over the inputs' current cells, with no minterms. */
  function SetTable(st: State, name: string, inputs: seq<string>, input: seq<string>, line: int): (r: Outcome)
    requires Valid(st)
    ensures Valid(r.st) && r.st.vars == st.vars && r.st.cells == st.cells
  {
    match ResolveInputs(st, inputs)
    case NotFound(_) => Failed(VariableNotFound, line, st, [])
    case Ok(ids) => Done(st.(logic := st.logic[name := Logic(ids, {})]), input, [])
  }

  /** `name min m1 ... mk`: the in-range numbers join the table's minterms. */
  function InsertMinterms(st: State, name: string, args: seq<string>, input: seq<string>, line: int): (r: Outcome)
    requires Valid(st)
    requires name in st.logic ==> forall i :: 0 <= i < |args| ==> AtoiInRange(args[i])
    ensures Valid(r.st) && r.st.vars == st.vars && r.st.cells == st.cells
  {
    if name !in st.logic then Failed(VariableNotFound, line, st, [])
    else
      var entry := st.logic[name];
      var (mins, warnings) := AddMinterms(|entry.inputs|, entry.mins, args, line);
      Done(st.(logic := st.logic[name := Logic(entry.inputs, mins)]), input, warnings)
  }

  /** `target source`: a literal, an alias of a variable's cell, or a snapshot of a table. */
  function Assign(st: State, target: string, source: string, input: seq<string>, line: int): (r: Outcome)
    requires Valid(st)
    requires source != "1" && source != "0" && source !in st.vars ==> Evaluable(st, source)
    ensures Valid(r.st) && Extends(st, r.st) && r.st.logic == st.logic
  {
    if source == "1" || source == "0" then Done(BindFresh(st, target, ConvertToBool(source)), input, [])
    else if source in st.vars then Done(st.(vars := st.vars[target := st.vars[source]]), input, [])
    else if source in st.logic then Done(BindFresh(st, target, TableValue(st, source)), input, [])
    else Failed(VariableNotFound, line, st, [])
  }

  /** `target op words`: the expression's value in a fresh cell. */
  function AssignExpression(st: State, target: string, expr: seq<Token>, input: seq<string>, line: int): (r: Outcome)
    requires Valid(st) && 0 < |expr| && WellFormed(expr)
    ensures Valid(r.st) && Extends(st, r.st) && r.st.logic == st.logic
  {
    match Eval(st, expr)
    case Ok(b) => Done(BindFresh(st, target, b), input, [])
    case NotFound(_) => Failed(VariableNotFound, line, st, [])
  }

  // ---------------------------------------------------------------------------
  // Dispatch

  /** A second token that is not a keyword of the dispatcher nor a literal. */
  predicate IsPlainSource(t: string)
  {
    t !in Operators && t != "set" && t != "min" && t != "1" && t != "0"
  }

  /**
   The statements the source gives a defined meaning: non-empty; expressions
   balanced without an empty group; tables that get evaluated have at most 31
   inputs; `min` arguments of an existing table are read by atoi into an `int`.
   */
  predicate Defined(st: State, stmt: seq<string>)
  {
    && 0 < |stmt|
    && (stmt[0] == "print" ==> forall k :: 1 <= k < |stmt| && stmt[k] !in st.vars ==> Evaluable(st, stmt[k]))
    && (stmt[0] != "input" && stmt[0] != "print" && 2 <= |stmt| ==>
          && (stmt[1] in Operators ==> WellFormed(stmt[1..]))
          && (stmt[1] == "min" && stmt[0] in st.logic ==> forall k :: 2 <= k < |stmt| ==> AtoiInRange(stmt[k]))
          && (IsPlainSource(stmt[1]) && stmt[1] !in st.vars ==> Evaluable(st, stmt[1])))
  }

  /** One statement, dispatched on its first two tokens in the source's order. */
  function Execute(st: State, stmt: seq<string>, input: seq<string>, line: int): (r: Outcome)
    requires Valid(st) && Defined(st, stmt)
    ensures Valid(r.st) && Extends(st, r.st)
    ensures r.Failed? ==> r.line == line
  {
    if stmt[0] == "input" then ReadInputs(st, stmt[1..], input, line)
    else if stmt[0] == "print" then
      assert forall k :: 0 <= k < |stmt[1..]| ==> stmt[1..][k] == stmt[k + 1];
      PrintNames(st, stmt[1..], input, line)
    else if |stmt| < 2 then Done(st, input, [Warned(UnusedLine, line)])
    else if stmt[1] in Operators then AssignExpression(st, stmt[0], stmt[1..], input, line)
    else if stmt[1] == "set" then SetTable(st, stmt[0], stmt[2..], input, line)
    else if stmt[1] == "min" then
      assert forall k :: 0 <= k < |stmt[2..]| ==> stmt[2..][k] == stmt[k + 2];
      InsertMinterms(st, stmt[0], stmt[2..], input, line)
    else Assign(st, stmt[0], stmt[1], input, line)
  }
}
