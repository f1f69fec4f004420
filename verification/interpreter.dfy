/**
 The run loop: the token stream is cut at `;` tokens into statements, each
 statement is dispatched, and the line counter advances once per statement.
 An error aborts the run.
 */
module Interpreter {
  import opened Pools
  import opened Statements

  const Separator: string := ";"

  /**
   The collecting loop of Step, started at `i` with `stmt` already collected:
   it keeps every token up to the next separator, which it consumes.
   */
  function Collect(ts: seq<string>, i: nat, stmt: seq<string>): (r: (seq<string>, nat))
    requires i <= |ts|
    ensures |stmt| <= |r.0| && r.0[..|stmt|] == stmt
    ensures i + |r.0| - |stmt| <= |ts| && r.0[|stmt|..] == ts[i..i + |r.0| - |stmt|]
    ensures forall k :: |stmt| <= k < |r.0| ==> r.0[k] != Separator
    ensures var e := i + |r.0| - |stmt|;
            (e < |ts| && ts[e] == Separator && r.1 == e + 1) || (e == |ts| && r.1 == |ts|)
    decreases |ts| - i
  {
    if i == |ts| then (stmt, i)
    else if ts[i] == Separator then (stmt, i + 1)
    else
      var r := Collect(ts, i + 1, stmt + [ts[i]]);
      assert r.0[..|stmt|] == r.0[..|stmt| + 1][..|stmt|];
      assert r.0[|stmt|..] == [ts[i]] + r.0[|stmt| + 1..];
      r
  }

  /**
   The statement starting at `cursor`: exactly the tokens before the next
   separator. The cursor moves just past that separator, or to the end of the
   stream when there is none, so it always advances.
   */
  function NextStatement(ts: seq<string>, cursor: nat): (r: (seq<string>, nat))
    requires cursor < |ts|
    ensures cursor + |r.0| <= |ts| && r.0 == ts[cursor..cursor + |r.0|]
    ensures Separator !in r.0
    ensures (cursor + |r.0| < |ts| && ts[cursor + |r.0|] == Separator && r.1 == cursor + |r.0| + 1)
            || (cursor + |r.0| == |ts| && r.1 == |ts|)
    ensures cursor < r.1 <= |ts|
  {
    var r := Collect(ts, cursor, []);
    assert r.0 == r.0[0..];
    r
  }

  datatype RunOutcome =
    | Completed(st: State, events: seq<Event>)
    | Aborted(error: ErrorKind, line: int, st: State, events: seq<Event>)
    | Undefined(line: int, stmt: seq<string>, st: State, events: seq<Event>)

  /**
   The loop of Run from `cursor` on: one statement per step, the line counter
   one higher for each. A statement outside Defined has no meaning in the
   source, and the run stops there as Undefined.
   */
  function RunFrom(st: State, ts: seq<string>, cursor: nat, input: seq<string>, line: int, events: seq<Event>)
    : (r: RunOutcome)
    requires Valid(st) && cursor <= |ts|
    ensures Valid(r.st) && Extends(st, r.st)
    ensures |events| <= |r.events| && r.events[..|events|] == events
    ensures !r.Completed? ==> line <= r.line < line + |ts| - cursor
    decreases |ts| - cursor
  {
    if cursor == |ts| then Completed(st, events)
    else
      var (stmt, next) := NextStatement(ts, cursor);
      if !Defined(st, stmt) then Undefined(line, stmt, st, events)
      else
        match Execute(st, stmt, input, line)
        case Failed(err, l, st', evs) =>
          assert (events + evs)[..|events|] == events;
          Aborted(err, l, st', events + evs)
        case Done(st', input', evs) =>
          var r := RunFrom(st', ts, next, input', line + 1, events + evs);
          assert r.events[..|events|] == r.events[..|events + evs|][..|events|];
          assert r.st.cells[..|st.cells|] == r.st.cells[..|st'.cells|][..|st.cells|];
          r
  }

  /**
   Interpreter::Run over a token stream, with the console input as a list of
   words: from empty pools, on line 1. A run that stops early reports a line
   no greater than the number of tokens, since every line consumes one.
   */
  function Run(ts: seq<string>, input: seq<string>): (r: RunOutcome)
    ensures Valid(r.st)
    ensures !r.Completed? ==> 1 <= r.line <= |ts|
  {
    RunFrom(Initial, ts, 0, input, 1, [])
  }
}
