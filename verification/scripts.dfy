/**
 Whole programs run through the interpreter: how the splitter cuts a token
 stream, and small scripts whose outcome follows from the statement rules.
 */
module Scripts {
  import opened Identifiers
  import opened Minterms
  import opened Pools
  import opened Statements
  import opened Interpreter
  import opened StatementProperties

  /**
   The statement NextStatement cuts out is the only one its contract allows:
   the tokens up to the first separator at or after the cursor.
   */
  lemma NextStatementAt(ts: seq<string>, cursor: nat, n: nat)
    requires cursor + n <= |ts| && cursor < |ts|
    requires forall k :: cursor <= k < cursor + n ==> ts[k] != Separator
    requires cursor + n == |ts| || ts[cursor + n] == Separator
    ensures NextStatement(ts, cursor) == (ts[cursor..cursor + n], if cursor + n == |ts| then |ts| else cursor + n + 1)
  {
    var r := NextStatement(ts, cursor);
    var m := |r.0|;
    if m < n {
      assert false;
    } else if m > n {
      assert false;
    }
  }

  /**
   One turn of the run loop: the statement is the tokens before the next
   separator; it runs on the current line, an error aborts with the events so
   far, and otherwise the loop goes on past the separator on the next line.
   */
  lemma RunFromStep(st: State, ts: seq<string>, cursor: nat, n: nat, input: seq<string>, line: int, events: seq<Event>)
    requires Valid(st) && cursor + n <= |ts| && cursor < |ts|
    requires forall k :: cursor <= k < cursor + n ==> ts[k] != Separator
    requires cursor + n == |ts| || ts[cursor + n] == Separator
    requires Defined(st, ts[cursor..cursor + n])
    ensures var next := if cursor + n == |ts| then |ts| else cursor + n + 1;
            RunFrom(st, ts, cursor, input, line, events)
            == match Execute(st, ts[cursor..cursor + n], input, line)
               case Failed(err, l, st', evs) => Aborted(err, l, st', events + evs)
               case Done(st', input', evs) => RunFrom(st', ts, next, input', line + 1, events + evs)
  {
    NextStatementAt(ts, cursor, n);
  }

  /** A run over a stream with no separator executes it as one statement, on line 1. */
  lemma OneStatementProgram(ts: seq<string>, input: seq<string>)
    requires 0 < |ts| && Separator !in ts && Defined(Initial, ts)
    ensures Run(ts, input)
            == match Execute(Initial, ts, input, 1)
               case Failed(err, l, st', evs) => Aborted(err, l, st', evs)
               case Done(st', _, evs) => Completed(st', evs)
  {
    assert ts[0..|ts|] == ts;
    RunFromStep(Initial, ts, 0, |ts|, input, 1, []);
    match Execute(Initial, ts, input, 1)
    case Failed(err, l, st', evs) =>
      assert [] + evs == evs;
    case Done(st', input', evs) =>
      assert [] + evs == evs;
  }

  const AliasScript: seq<string> := ["a", "1", ";", "b", "a", ";", "a", "0", ";", "print", "b"]

  lemma AliasStep1(input: seq<string>)
    ensures RunFrom(Initial, AliasScript, 0, input, 1, [])
            == RunFrom(State(map["a" := 0], map[], [true]), AliasScript, 3, input, 2, [])
  {
    assert AliasScript[0..2] == ["a", "1"];
    assert !IsPlainSource("1");
    assert Defined(Initial, ["a", "1"]);
    assert Assign(Initial, "a", "1", input, 1) == Done(State(map["a" := 0], map[], [true]), input, []);
    assert Execute(Initial, ["a", "1"], input, 1) == Done(State(map["a" := 0], map[], [true]), input, []);
    RunFromStep(Initial, AliasScript, 0, 2, input, 1, []);
  }

  lemma AliasStep2(input: seq<string>)
    ensures RunFrom(State(map["a" := 0], map[], [true]), AliasScript, 3, input, 2, [])
            == RunFrom(State(map["a" := 0, "b" := 0], map[], [true]), AliasScript, 6, input, 3, [])
  {
    var st := State(map["a" := 0], map[], [true]);
    assert AliasScript[3..5] == ["b", "a"];
    assert "a" in st.vars && IsPlainSource("a");
    assert Defined(st, ["b", "a"]);
    assert Assign(st, "b", "a", input, 2) == Done(State(map["a" := 0, "b" := 0], map[], [true]), input, []);
    assert Execute(st, ["b", "a"], input, 2) == Done(State(map["a" := 0, "b" := 0], map[], [true]), input, []);
    RunFromStep(st, AliasScript, 3, 2, input, 2, []);
  }

  lemma AliasStep3(input: seq<string>)
    ensures RunFrom(State(map["a" := 0, "b" := 0], map[], [true]), AliasScript, 6, input, 3, [])
            == RunFrom(State(map["a" := 1, "b" := 0], map[], [true, false]), AliasScript, 9, input, 4, [])
  {
    var st := State(map["a" := 0, "b" := 0], map[], [true]);
    assert AliasScript[6..8] == ["a", "0"];
    assert !IsPlainSource("0");
    assert Defined(st, ["a", "0"]);
    assert BindFresh(st, "a", ConvertToBool("0")) == State(map["a" := 1, "b" := 0], map[], [true, false]);
    assert Assign(st, "a", "0", input, 3) == Done(State(map["a" := 1, "b" := 0], map[], [true, false]), input, []);
    assert Execute(st, ["a", "0"], input, 3) == Done(State(map["a" := 1, "b" := 0], map[], [true, false]), input, []);
    RunFromStep(st, AliasScript, 6, 2, input, 3, []);
  }

  lemma AliasStep4(input: seq<string>)
    ensures RunFrom(State(map["a" := 1, "b" := 0], map[], [true, false]), AliasScript, 9, input, 4, [])
            == Completed(State(map["a" := 1, "b" := 0], map[], [true, false]), [Printed("b", true)])
  {
    var st := State(map["a" := 1, "b" := 0], map[], [true, false]);
    assert AliasScript[9..11] == ["print", "b"];
    assert ["print", "b"][1..] == ["b"];
    assert PrintNames(st, ["b"], input, 4) == Done(st, input, [Printed("b", true)]);
    RunFromStep(st, AliasScript, 9, 2, input, 4, []);
  }

  /**
   `a 1 ; b a ; a 0 ; print b`: `b` shares the cell `a` had, and rebinding `a`
   later gives `a` a new cell, so `b` still shows true.
   */
  lemma AliasKeepsOldValue(input: seq<string>)
    ensures var r := Run(AliasScript, input);
            r.Completed? && r.events == [Printed("b", true)]
  {
    AliasStep1(input);
    AliasStep2(input);
    AliasStep3(input);
    AliasStep4(input);
  }

  /**
   `print z` with nothing defined aborts on line 1 with VariableNotFound and
   shows nothing.
   */
  lemma PrintUnknownAborts(input: seq<string>)
    ensures Run(["print", "z"], input) == Aborted(VariableNotFound, 1, Initial, [])
  {
    OneStatementProgram(["print", "z"], input);
  }

  /**
   `x set a b` with `a` and `b` bound: the table `x` captures their current
   cells, in order, with no minterms, and nothing else changes.
   */
  lemma NorSetStep(st: State, x: string, a: string, b: string, input: seq<string>, line: int)
    requires Valid(st) && x != "input" && x != "print" && a in st.vars && b in st.vars
    ensures Defined(st, [x, "set", a, b])
    ensures var r1 := Execute(st, [x, "set", a, b], input, line);
            && r1.Done? && r1.events == [] && r1.input == input
            && r1.st.vars == st.vars && r1.st.cells == st.cells
            && x in r1.st.logic && r1.st.logic[x] == Logic([st.vars[a], st.vars[b]], {})
  {
    SetStatement(st, x, [a, b], input, line);
    assert [x, "set"] + [a, b] == [x, "set", a, b];
    var r1 := Execute(st, [x, "set", a, b], input, line);
    assert [a, b][0] == a && [a, b][1] == b;
    assert r1.st.logic[x].inputs == [st.vars[a], st.vars[b]];
  }

  /** `x min 0` on a two-input table adds row 0, silently, and changes nothing else. */
  lemma NorMinStep(st: State, x: string, input: seq<string>, line: int)
    requires Valid(st) && x != "input" && x != "print"
    requires x in st.logic && |st.logic[x].inputs| == 2
    ensures Defined(st, [x, "min", "0"])
    ensures Execute(st, [x, "min", "0"], input, line)
            == Done(st.(logic := st.logic[x := Logic(st.logic[x].inputs, st.logic[x].mins + {0})]), input, [])
  {
    assert AtoiInRange("0") && Atoi("0") == 0 by {
      assert Magnitude("0") == "0";
      assert DigitPrefix("0") == "0" by {
        assert "0"[1..] == "";
      }
      assert "0"[..0] == "";
    }
    assert Pow2(0) == 1 && Pow2(1) == 2 && Pow2(2) == 4;
    MinStatement(st, x, ["0"], input, line);
    assert [x, "min"] + ["0"] == [x, "min", "0"];
    assert Accepted(2, ["0"]) == {0};
    assert Rejected(2, ["0"]) == [];
    assert Warnings(0, MeaninglessNumber, line) == [];
  }

  /** A table over any two cells whose only minterm is 0 is their NOR. */
  lemma NorValue(cells: seq<bool>, i: CellId, j: CellId)
    requires i < |cells| && j < |cells|
    ensures IsValueInMins(cells, Logic([i, j], {0})) <==> !cells[i] && !cells[j]
  {
    assert Pow2(0) == 1 && Pow2(1) == 2;
    var bits := InputBits(cells, [i, j]);
    assert bits == [cells[i], cells[j]];
    assert bits[1..] == [cells[j]];
    assert [cells[j]][1..] == [];
    assert WeightedSum([cells[j]]) == BitValue(cells[j]);
    assert WeightedSum(bits) == BitValue(cells[i]) * 2 + BitValue(cells[j]);
  }

  /**
   For any target name and any two bound variables `a` and `b`, the script
   `x set a b ; x min 0` completes silently, and the table `x` is then true
   exactly when both variables are false: row 0 is the row of all zeros.
   */
  lemma NorTable(st: State, x: string, a: string, b: string, input: seq<string>, line: int)
    requires Valid(st) && x != "input" && x != "print" && a in st.vars && b in st.vars
    ensures Defined(st, [x, "set", a, b])
            && var r1 := Execute(st, [x, "set", a, b], input, line);
            r1.Done? && r1.events == [] && Defined(r1.st, [x, "min", "0"])
            && var r2 := Execute(r1.st, [x, "min", "0"], r1.input, line + 1);
            r2.Done? && r2.events == [] && x in r2.st.logic && Evaluable(r2.st, x)
            && (TableValue(r2.st, x) <==> !VarValue(st, a) && !VarValue(st, b))
  {
    NorSetStep(st, x, a, b, input, line);
    var r1 := Execute(st, [x, "set", a, b], input, line);
    NorMinStep(r1.st, x, input, line + 1);
    var r2 := Execute(r1.st, [x, "min", "0"], r1.input, line + 1);
    assert r2.st.logic[x] == Logic([st.vars[a], st.vars[b]], {0});
    NorValue(r2.st.cells, st.vars[a], st.vars[b]);
  }
}
