/**
 What each kind of statement does to the pools, stated against the
 dispatcher as a whole.
 */
module StatementProperties {
  import opened Identifiers
  import opened Grouping
  import opened Minterms
  import opened Pools
  import opened Evaluator
  import opened Statements

  // ---------------------------------------------------------------------------
  // `min`

  /** The decimal digits of n, most significant first, without leading zeros. */
  function Decimal(n: nat): (s: string)
    ensures 0 < |s| && AllDigits(s)
  {
    var d := [(('0' as int) + n % 10) as char];
    if n < 10 then d else Decimal(n / 10) + d
  }

  /** The usual signed rendering of an integer. */
  function Signed(n: int): string
  {
    if n < 0 then "-" + Decimal(-n) else Decimal(n)
  }

  lemma {:induction false} DecimalValue(n: nat)
    ensures DigitsValue(Decimal(n)) == n
    decreases n
  {
    var s := Decimal(n);
    if n >= 10 {
      DecimalValue(n / 10);
      assert s[..|s| - 1] == Decimal(n / 10);
    }
  }

  lemma DigitPrefixOfDigits(s: string)
    requires AllDigits(s)
    ensures DigitPrefix(s) == s
  {
  }

  /** atoi reads back the usual rendering of every integer. */
  lemma AtoiOfSigned(n: int)
    ensures Atoi(Signed(n)) == n
  {
    var m := if n < 0 then -n else n;
    DecimalValue(m);
    DigitPrefixOfDigits(Decimal(m));
    if n < 0 {
      assert Magnitude(Signed(n)) == Decimal(m);
    } else {
      assert Decimal(m)[0] != '-' && Decimal(m)[0] != '+' by {
        assert IsDigit(Decimal(m)[0]);
      }
    }
  }

  /** atoi stops at the first character that is not a digit. */
  lemma AtoiStopsAtNonDigit()
    ensures Atoi("12ab") == 12
  {
    assert Magnitude("12ab") == "12ab";
    assert DigitPrefix("ab") == "";
    assert DigitPrefix("2ab") == "2" by {
      assert "2ab"[1..] == "ab";
    }
    assert DigitPrefix("12ab") == "12" by {
      assert "12ab"[1..] == "2ab";
    }
    assert DigitsValue("1") == 1 by {
      assert "1"[..0] == "";
    }
    assert DigitsValue("12") == 12 by {
      assert "12"[..1] == "1";
    }
  }

  /** Text with no leading digit reads as 0, also after a sign. */
  lemma AtoiWithoutDigitsIsZero()
    ensures Atoi("abc") == 0 && Atoi("--5") == 0
  {
    assert Magnitude("abc") == "abc";
    assert DigitPrefix("abc") == "";
    assert Magnitude("--5") == "-5";
    assert DigitPrefix("-5") == "";
  }

  /** A leading `+` is read as a sign. */
  lemma AtoiReadsPlusSign()
    ensures Atoi("+5") == 5
  {
    assert Magnitude("+5") == "5";
    assert DigitPrefix("5") == "5" by {
      assert "5"[1..] == "";
    }
    assert DigitsValue("5") == 5 by {
      assert "5"[..0] == "";
    }
  }

  /** The numbers of a `min` statement that name a row of a table with k inputs. */
  function Accepted(k: nat, args: seq<string>): set<nat>
    requires forall i :: 0 <= i < |args| ==> AtoiInRange(args[i])
  {
    set i | 0 <= i < |args| && AtoiInRange(args[i]) && InRange(k, Atoi(args[i])) :: Atoi(args[i]) as nat
  }

  /** The arguments of a `min` statement that are out of range, in order. */
  function Rejected(k: nat, args: seq<string>): seq<string>
    requires forall i :: 0 <= i < |args| ==> AtoiInRange(args[i])
  {
    if args == [] then []
    else
      assert AtoiInRange(args[0]);
      if InRange(k, Atoi(args[0])) then Rejected(k, args[1..])
    else [args[0]] + Rejected(k, args[1..])
  }

  function Warnings(n: nat, kind: WarningKind, line: int): seq<Event>
  {
    seq(n, _ => Warned(kind, line))
  }

  lemma {:induction false} AddMintermsSpec(k: nat, mins: set<nat>, args: seq<string>, line: int)
    requires forall i :: 0 <= i < |args| ==> AtoiInRange(args[i])
    ensures AddMinterms(k, mins, args, line).0 == mins + Accepted(k, args)
    ensures AddMinterms(k, mins, args, line).1 == Warnings(|Rejected(k, args)|, MeaninglessNumber, line)
    decreases |args|
  {
    if args != [] {
      var v := Atoi(args[0]);
      var tail := args[1..];
      assert forall i :: 0 <= i < |tail| ==> tail[i] == args[i + 1];
      assert Accepted(k, args) == (if InRange(k, v) then {v as nat} else {}) + Accepted(k, tail) by {
        forall m | m in Accepted(k, args)
          ensures m in (if InRange(k, v) then {v as nat} else {}) + Accepted(k, tail)
        {
          var i :| 0 <= i < |args| && AtoiInRange(args[i]) && InRange(k, Atoi(args[i])) && m == Atoi(args[i]) as nat;
          if i > 0 {
            assert m == Atoi(tail[i - 1]) as nat;
          }
        }
        forall m | m in Accepted(k, tail)
          ensures m in Accepted(k, args)
        {
          var i :| 0 <= i < |tail| && AtoiInRange(tail[i]) && InRange(k, Atoi(tail[i])) && m == Atoi(tail[i]) as nat;
          assert Atoi(args[i + 1]) as nat == m;
        }
      }
      if InRange(k, v) {
        AddMintermsSpec(k, mins + {v}, tail, line);
      } else {
        AddMintermsSpec(k, mins, tail, line);
        assert [Warned(MeaninglessNumber, line)] + Warnings(|Rejected(k, tail)|, MeaninglessNumber, line)
            == Warnings(|Rejected(k, args)|, MeaninglessNumber, line);
      }
    }
  }

  /**
   `name min m1 ... mk` fails, changing nothing, when `name` is not a table.
   Otherwise it inserts exactly the in-range numbers, warns once per
   out-of-range number, and changes nothing else: not the table's inputs, not
   the other tables, not the variables.
   */
  lemma MinStatement(st: State, name: string, args: seq<string>, input: seq<string>, line: int)
    requires Valid(st) && name != "input" && name != "print"
    requires name in st.logic ==> forall i :: 0 <= i < |args| ==> AtoiInRange(args[i])
    ensures Defined(st, [name, "min"] + args)
    ensures name !in st.logic ==>
              Execute(st, [name, "min"] + args, input, line) == Failed(VariableNotFound, line, st, [])
    ensures name in st.logic ==>
              var k := |st.logic[name].inputs|;
              Execute(st, [name, "min"] + args, input, line)
              == Done(st.(logic := st.logic[name := Logic(st.logic[name].inputs, st.logic[name].mins + Accepted(k, args))]),
                      input, Warnings(|Rejected(k, args)|, MeaninglessNumber, line))
  {
    var stmt := [name, "min"] + args;
    assert stmt[2..] == args;
    assert forall i :: 2 <= i < |stmt| ==> stmt[i] == args[i - 2];
    if name in st.logic {
      var entry := st.logic[name];
      AddMintermsSpec(|entry.inputs|, entry.mins, args, line);
    }
  }

  /** A table with two inputs ignores `min 7`: the number is warned about and no row is added. */
  lemma OutOfRangeMintermIgnored(st: State, name: string, input: seq<string>, line: int)
    requires Valid(st) && name != "input" && name != "print"
    requires name in st.logic && |st.logic[name].inputs| == 2
    ensures Execute(st, [name, "min", "7"], input, line)
            == Done(st, input, [Warned(MeaninglessNumber, line)])
  {
    assert AtoiInRange("7") && Atoi("7") == 7 by {
      assert Magnitude("7") == "7";
      assert DigitPrefix("7") == "7";
      assert "7"[..0] == [];
    }
    assert Pow2(2) == 4;
    MinStatement(st, name, ["7"], input, line);
    assert [name, "min"] + ["7"] == [name, "min", "7"];
    assert Accepted(2, ["7"]) == {};
    assert Rejected(2, ["7"]) == ["7"];
    assert st.logic[name := Logic(st.logic[name].inputs, st.logic[name].mins)] == st.logic;
  }

  // ---------------------------------------------------------------------------
  // Too-short statements

  /**
   A statement of a single token other than `input` and `print` does nothing
   but warn "Unused line" on its line.
   */
  lemma UnusedLineWarns(st: State, t: string, input: seq<string>, line: int)
    requires Valid(st) && t != "input" && t != "print"
    ensures Defined(st, [t])
    ensures Execute(st, [t], input, line) == Done(st, input, [Warned(UnusedLine, line)])
  {
  }

  // ---------------------------------------------------------------------------
  // `set`

  /**
   `name set i1 ... ik` looks every input up before touching the logic pool:
   a missing input is an error that changes nothing. Otherwise the entry is
   replaced by one over the inputs' current cells with no minterms, whatever
   minterms an earlier entry of that name had.
   */
  lemma SetStatement(st: State, name: string, inputs: seq<string>, input: seq<string>, line: int)
    requires Valid(st) && name != "input" && name != "print"
    ensures Defined(st, [name, "set"] + inputs)
    ensures (exists k :: 0 <= k < |inputs| && inputs[k] !in st.vars) ==>
              Execute(st, [name, "set"] + inputs, input, line) == Failed(VariableNotFound, line, st, [])
    ensures (forall k :: 0 <= k < |inputs| ==> inputs[k] in st.vars) ==>
              var r := Execute(st, [name, "set"] + inputs, input, line);
              && r.Done? && r.events == [] && r.input == input
              && r.st.vars == st.vars && r.st.cells == st.cells
              && r.st.logic.Keys == st.logic.Keys + {name}
              && (forall n :: n in st.logic && n != name ==> r.st.logic[n] == st.logic[n])
              && r.st.logic[name].mins == {}
              && |r.st.logic[name].inputs| == |inputs|
              && (forall k :: 0 <= k < |inputs| ==> r.st.logic[name].inputs[k] == st.vars[inputs[k]])
  {
    var stmt := [name, "set"] + inputs;
    assert stmt[2..] == inputs;
  }

  // ---------------------------------------------------------------------------
  // Two-token assignment

  /**
   `target source ...` (any further tokens are ignored) tries, in order: a
   literal binds a fresh cell; a variable is shared, cell and all; a table is
   evaluated once into a fresh cell; anything else is an error that changes
   nothing.
   */
  lemma AssignStatement(st: State, target: string, source: string, extra: seq<string>, input: seq<string>, line: int)
    requires Valid(st) && target != "input" && target != "print"
    requires IsPlainSource(source) || source == "1" || source == "0"
    requires source != "1" && source != "0" && source !in st.vars ==> Evaluable(st, source)
    ensures Defined(st, [target, source] + extra)
    ensures var r := Execute(st, [target, source] + extra, input, line);
            && (source == "1" || source == "0" ==>
                  r.Done? && r.st.logic == st.logic
                  && r.st.cells == st.cells + [source == "1"] && r.st.vars == st.vars[target := |st.cells|])
            && (source != "1" && source != "0" && source in st.vars ==>
                  r.Done? && r.st == st.(vars := st.vars[target := st.vars[source]]))
            && (source != "1" && source != "0" && source !in st.vars && source in st.logic ==>
                  r.Done? && r.st.logic == st.logic
                  && r.st.cells == st.cells + [TableValue(st, source)] && r.st.vars == st.vars[target := |st.cells|])
            && (source != "1" && source != "0" && source !in st.vars && source !in st.logic ==>
                  r == Failed(VariableNotFound, line, st, []))
  {
    var stmt := [target, source] + extra;
    assert stmt[0] == target && stmt[1] == source;
  }

  // ---------------------------------------------------------------------------
  // Cells are never overwritten

  /** The names a successful statement may rebind. */
  function Targets(stmt: seq<string>): set<string>
    requires 0 < |stmt|
  {
    if stmt[0] == "input" then set k | 1 <= k < |stmt| :: stmt[k]
    else if stmt[0] == "print" || |stmt| < 2 || stmt[1] == "set" || stmt[1] == "min" then {}
    else {stmt[0]}
  }

  lemma {:induction false} ReadInputsKeepsOthers(st: State, names: seq<string>, input: seq<string>, line: int, n: string)
    requires Valid(st) && n in st.vars && n !in names
    ensures n in ReadInputs(st, names, input, line).st.vars
    ensures ReadInputs(st, names, input, line).st.vars[n] == st.vars[n]
    ensures ReadInputs(st, names, input, line).st.logic == st.logic
    decreases |names|
  {
    if names != [] && IsValidCppIdentifier(names[0]) {
      var st' := BindFresh(st, names[0], ConvertToBool(WordAt(input, 0)));
      ReadInputsKeepsOthers(st', names[1..], if input == [] then [] else input[1..], line, n);
    }
  }

  /**
   A successful statement leaves every variable it does not target bound to
   the same cell, and that cell still holds the same value. So an alias made
   by `b a` keeps the old value when `a` is later rebound.
   */
  lemma OthersKeepTheirValues(st: State, stmt: seq<string>, input: seq<string>, line: int, n: string)
    requires Valid(st) && Defined(st, stmt)
    requires Execute(st, stmt, input, line).Done?
    requires n in st.vars && n !in Targets(stmt)
    ensures n in Execute(st, stmt, input, line).st.vars
    ensures Execute(st, stmt, input, line).st.vars[n] == st.vars[n]
    ensures VarValue(Execute(st, stmt, input, line).st, n) == VarValue(st, n)
  {
    var r := Execute(st, stmt, input, line);
    if stmt[0] == "input" {
      assert n !in stmt[1..];
      ReadInputsKeepsOthers(st, stmt[1..], input, line, n);
    }
    assert r.st.cells[st.vars[n]] == r.st.cells[..|st.cells|][st.vars[n]];
  }

  /**
   A table keeps reading the cells it captured: unless the statement is a
   `set` or `min` on that very table, its entry is unchanged and so is its
   value, whatever variables were rebound.
   */
  lemma TablesKeepTheirCells(st: State, stmt: seq<string>, input: seq<string>, line: int, name: string)
    requires Valid(st) && Defined(st, stmt)
    requires name in st.logic && Evaluable(st, name)
    requires !(stmt[0] == name && 2 <= |stmt| && (stmt[1] == "set" || stmt[1] == "min"))
    requires Execute(st, stmt, input, line).Done?
    ensures name in Execute(st, stmt, input, line).st.logic
    ensures Execute(st, stmt, input, line).st.logic[name] == st.logic[name]
    ensures Evaluable(Execute(st, stmt, input, line).st, name)
    ensures TableValue(Execute(st, stmt, input, line).st, name) == TableValue(st, name)
  {
    var r := Execute(st, stmt, input, line);
    if stmt[0] == "input" {
      ReadInputsLogic(st, stmt[1..], input, line);
    } else if stmt[0] != "print" && 2 <= |stmt| && (stmt[1] == "set" || stmt[1] == "min") {
      assert stmt[0] != name;
    }
    TableValueStable(st, r.st, name);
  }

  lemma {:induction false} ReadInputsLogic(st: State, names: seq<string>, input: seq<string>, line: int)
    requires Valid(st)
    ensures ReadInputs(st, names, input, line).st.logic == st.logic
    decreases |names|
  {
    if names != [] && IsValidCppIdentifier(names[0]) {
      var st' := BindFresh(st, names[0], ConvertToBool(WordAt(input, 0)));
      ReadInputsLogic(st', names[1..], if input == [] then [] else input[1..], line);
    }
  }

  // ---------------------------------------------------------------------------
  // `input`

  /** `input n1 ... nk` fails exactly when some name is not an identifier, before reading past it. */
  lemma {:induction false} InputFailsOnBadName(st: State, names: seq<string>, input: seq<string>, line: int)
    requires Valid(st)
    ensures ReadInputs(st, names, input, line).Failed?
            <==> exists k :: 0 <= k < |names| && !IsValidCppIdentifier(names[k])
    ensures ReadInputs(st, names, input, line).Failed? ==>
              ReadInputs(st, names, input, line).error == InvalidIdentifier
    decreases |names|
  {
    if names != [] && IsValidCppIdentifier(names[0]) {
      var st' := BindFresh(st, names[0], ConvertToBool(WordAt(input, 0)));
      var tail := names[1..];
      InputFailsOnBadName(st', tail, if input == [] then [] else input[1..], line);
      assert forall k :: 0 <= k < |tail| ==> tail[k] == names[k + 1];
      if exists k :: 0 <= k < |names| && !IsValidCppIdentifier(names[k]) {
        var k :| 0 <= k < |names| && !IsValidCppIdentifier(names[k]);
        assert !IsValidCppIdentifier(tail[k - 1]);
      }
    }
  }

  /**
   A successful `input n1 ... nk` appends one cell per name, true exactly when
   its word is "1"; past the end of the input the word is empty, so false.
   */
  lemma {:induction false} InputReadsOneWordPerName(st: State, names: seq<string>, input: seq<string>, line: int)
    requires Valid(st) && ReadInputs(st, names, input, line).Done?
    ensures var r := ReadInputs(st, names, input, line);
            && |r.st.cells| == |st.cells| + |names|
            && (forall i :: 0 <= i < |names| ==> r.st.cells[|st.cells| + i] == (WordAt(input, i) == "1"))
    decreases |names|
  {
    if names != [] {
      var st' := BindFresh(st, names[0], ConvertToBool(WordAt(input, 0)));
      var input' := if input == [] then [] else input[1..];
      var r := ReadInputs(st', names[1..], input', line);
      assert r == ReadInputs(st, names, input, line);
      InputReadsOneWordPerName(st', names[1..], input', line);
      forall i | 0 <= i < |names|
        ensures r.st.cells[|st.cells| + i] == (WordAt(input, i) == "1")
      {
        if i == 0 {
          assert r.st.cells[|st.cells|] == r.st.cells[..|st'.cells|][|st.cells|];
        } else {
          assert WordAt(input', i - 1) == WordAt(input, i);
          assert r.st.cells[|st.cells| + i] == r.st.cells[|st'.cells| + (i - 1)];
        }
      }
    }
  }

  /** A successful `input n1 ... nk` consumes k words of console input, or all that is left. */
  lemma {:induction false} InputConsumesOneWordPerName(st: State, names: seq<string>, input: seq<string>, line: int)
    requires Valid(st) && ReadInputs(st, names, input, line).Done?
    ensures ReadInputs(st, names, input, line).input == (if |names| <= |input| then input[|names|..] else [])
    decreases |names|
  {
    if names != [] {
      var st' := BindFresh(st, names[0], ConvertToBool(WordAt(input, 0)));
      var input' := if input == [] then [] else input[1..];
      assert ReadInputs(st', names[1..], input', line) == ReadInputs(st, names, input, line);
      InputConsumesOneWordPerName(st', names[1..], input', line);
      if |names| <= |input| {
        assert input'[|names| - 1..] == input[|names|..];
      }
    }
  }

  /** k is the last position of its name in the list. */
  predicate LastOccurrence(names: seq<string>, k: nat)
    requires k < |names|
  {
    forall j :: k < j < |names| ==> names[j] != names[k]
  }

  /** After a successful `input n1 ... nk` the names bound are the old ones and the listed ones. */
  lemma {:induction false} InputBindsListedNames(st: State, names: seq<string>, input: seq<string>, line: int)
    requires Valid(st) && ReadInputs(st, names, input, line).Done?
    ensures forall n :: n in ReadInputs(st, names, input, line).st.vars <==> n in st.vars || n in names
    decreases |names|
  {
    if names != [] {
      var st' := BindFresh(st, names[0], ConvertToBool(WordAt(input, 0)));
      var input' := if input == [] then [] else input[1..];
      assert ReadInputs(st', names[1..], input', line) == ReadInputs(st, names, input, line);
      InputBindsListedNames(st', names[1..], input', line);
      assert names == [names[0]] + names[1..];
    }
  }

  /** After a successful `input n1 ... nk` each listed name holds the cell created for its last occurrence. */
  lemma {:induction false} InputBindsLastOccurrence(st: State, names: seq<string>, input: seq<string>, line: int)
    requires Valid(st) && ReadInputs(st, names, input, line).Done?
    ensures var r := ReadInputs(st, names, input, line);
            forall k :: 0 <= k < |names| && LastOccurrence(names, k) ==>
              names[k] in r.st.vars && r.st.vars[names[k]] == |st.cells| + k
    decreases |names|
  {
    if names != [] {
      var st' := BindFresh(st, names[0], ConvertToBool(WordAt(input, 0)));
      var input' := if input == [] then [] else input[1..];
      var tail := names[1..];
      var r := ReadInputs(st', tail, input', line);
      assert r == ReadInputs(st, names, input, line);
      InputBindsLastOccurrence(st', tail, input', line);
      forall k | 0 <= k < |names| && LastOccurrence(names, k)
        ensures names[k] in r.st.vars && r.st.vars[names[k]] == |st.cells| + k
      {
        if k > 0 {
          assert tail[k - 1] == names[k];
          assert LastOccurrence(tail, k - 1);
        } else {
          assert forall j :: 0 <= j < |tail| ==> tail[j] == names[j + 1];
          assert names[0] !in tail;
          ReadInputsKeepsOthers(st', tail, input', line, names[0]);
        }
      }
    }
  }

  /**
   After a successful `input n1 ... nk` the names bound are the old ones and
   the listed ones; each listed name is bound to the cell created for its last
   occurrence; other names keep their cells.
   */
  lemma InputBindsEachName(st: State, names: seq<string>, input: seq<string>, line: int)
    requires Valid(st) && ReadInputs(st, names, input, line).Done?
    ensures var r := ReadInputs(st, names, input, line);
            && (forall n :: n in r.st.vars <==> n in st.vars || n in names)
            && (forall k :: 0 <= k < |names| && LastOccurrence(names, k) ==> r.st.vars[names[k]] == |st.cells| + k)
            && (forall n :: n in st.vars && n !in names ==> r.st.vars[n] == st.vars[n])
  {
    InputBindsListedNames(st, names, input, line);
    InputBindsLastOccurrence(st, names, input, line);
    forall n | n in st.vars && n !in names
      ensures ReadInputs(st, names, input, line).st.vars[n] == st.vars[n]
    {
      ReadInputsKeepsOthers(st, names, input, line, n);
    }
  }

  // ---------------------------------------------------------------------------
  // `print`

  /**
   `print n1 ... nk` changes no state. It shows each name in order with its
   variable's value, or else its table's current value, and stops with an
   error at the first name that is in neither pool, showing nothing for it.
   */
  lemma {:induction false} PrintStatement(st: State, names: seq<string>, input: seq<string>, line: int)
    requires Valid(st) && forall k :: 0 <= k < |names| && names[k] !in st.vars ==> Evaluable(st, names[k])
    ensures var r := PrintNames(st, names, input, line);
            && r.st == st
            && |r.events| <= |names|
            && (forall k :: 0 <= k < |r.events| ==>
                  Resolvable(st, names[k]) && r.events[k] == Printed(names[k], ShownValue(st, names[k])))
            && (r.Done? <==> forall k :: 0 <= k < |names| ==> Resolvable(st, names[k]))
            && (r.Done? ==> |r.events| == |names| && r.input == input)
            && (r.Failed? ==> r.error == VariableNotFound && !Resolvable(st, names[|r.events|]))
    decreases |names|
  {
    if names != [] && Resolvable(st, names[0]) {
      var tail := names[1..];
      assert forall k :: 0 <= k < |tail| ==> tail[k] == names[k + 1];
      PrintStatement(st, tail, input, line);
    }
  }

  // ---------------------------------------------------------------------------
  // Expressions

  /** A statement whose second token is an operator assigns the value of the expression that starts there. */
  lemma ExpressionStatement(st: State, x: string, op: Token, ts: seq<Token>, input: seq<string>, line: int)
    requires Valid(st) && x != "input" && x != "print"
    requires op in Operators && WellFormed([op] + ts)
    ensures Defined(st, [x, op] + ts)
    ensures Execute(st, [x, op] + ts, input, line) == AssignExpression(st, x, [op] + ts, input, line)
  {
    assert ([x, op] + ts)[1..] == [op] + ts;
  }

  /** `x not w rest` assigns the same as `x not w`: later operands are never looked at. */
  lemma NotStatementIgnoresLater(st: State, x: string, w: Word, rest: seq<Token>, input: seq<string>, line: int)
    requires Valid(st) && x != "input" && x != "print"
    requires IsWord(w) && WellFormed(w) && WellFormed(rest)
    ensures Defined(st, [x, "not"] + w) && Defined(st, [x, "not"] + (w + rest))
    ensures Execute(st, [x, "not"] + (w + rest), input, line) == Execute(st, [x, "not"] + w, input, line)
  {
    NotIgnoresLaterOperands(st, w, rest);
    ExpressionStatement(st, x, "not", w, input, line);
    ExpressionStatement(st, x, "not", w + rest, input, line);
  }
}
