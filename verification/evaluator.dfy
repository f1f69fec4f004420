/**
 The recursive boolean evaluator (LogicProcessing). The first word of an
 expression names the operator; every further word is an operand, either a
 variable name or a bracketed sub-expression evaluated recursively.
 */
module Evaluator {
  import opened Grouping
  import opened Minterms
  import opened Pools

  datatype Op = And | Or | Not | NoOp

  /** The operator named by the first token of the first word; anything else is no operator. */
  function OperatorOf(w: Word): Op
    requires |w| > 0
  {
    if w[0] == "and" then And
    else if w[0] == "or" then Or
    else if w[0] == "not" then Not
    else NoOp
  }

  /** Evaluation either yields a value or stops at the first name missing from the variable pool. */
  datatype Result<T> = Ok(value: T) | NotFound(name: string)

  /** The expressions the evaluator is defined on: balanced, and no group with an empty interior. */
  predicate WellFormed(ts: seq<Token>)
  {
    Balanced(ts) && NoEmptyGroup(ts)
  }

  predicate WellFormedWords(ws: seq<Word>)
  {
    AllWords(ws) && forall k :: 0 <= k < |ws| ==> NoEmptyGroup(ws[k])
  }

  function Size(ws: seq<Word>): nat
  {
    |Concat(ws)|
  }

  /** The accumulator's start: true for `and`, false otherwise. */
  function Start(op: Op): bool
  {
    op == And
  }

  function Fold(op: Op, acc: bool, t: bool): bool
  {
    match op
    case And => acc && t
    case Or => acc || t
    case _ => acc
  }

  lemma WordsOfWellFormed(ts: seq<Token>)
    requires WellFormed(ts)
    ensures WellFormedWords(LogicWords(ts)) && Concat(LogicWords(ts)) == ts
  {
  }

  /** The interior of a group is itself a non-empty well-formed expression. */
  lemma GroupInterior(w: Word)
    requires IsGroup(w) && NoEmptyGroup(w)
    ensures 3 <= |w| && WellFormed(w[1..|w| - 1])
  {
    var inner := w[1..|w| - 1];
    forall i | 0 <= i < |inner| - 1
      ensures !(inner[i] == Open && inner[i + 1] == Close)
    {
      assert inner[i] == w[i + 1] && inner[i + 1] == w[i + 2];
    }
  }

  /**
   LogicProcessing over the words of `ts`. The only error it raises is
   "Variable not found", and the name it reports is indeed missing.
   */
  function Eval(st: State, ts: seq<Token>): (r: Result<bool>)
    requires Valid(st) && 0 < |ts| && WellFormed(ts)
    ensures r.NotFound? ==> r.name !in st.vars
    decreases |ts|, 2
  {
    WordsOfWellFormed(ts);
    var ws := LogicWords(ts);
    var op := OperatorOf(ws[0]);
    Combine(st, op, ws[1..], Start(op))
  }

  /** The operand loop: `not` returns at its first operand, the others fold every operand. */
  function Combine(st: State, op: Op, ws: seq<Word>, acc: bool): (r: Result<bool>)
    requires Valid(st) && WellFormedWords(ws)
    ensures r.NotFound? ==> r.name !in st.vars
    decreases Size(ws), 1
  {
    if ws == [] then Ok(acc)
    else
      match Operand(st, ws[0])
      case NotFound(n) => NotFound(n)
      case Ok(t) => if op == Not then Ok(!t) else Combine(st, op, ws[1..], Fold(op, acc, t))
  }

  /** One operand: a variable's current value, or a bracketed sub-expression's value. */
  function Operand(st: State, w: Word): (r: Result<bool>)
    requires Valid(st) && IsWord(w) && NoEmptyGroup(w)
    ensures r.NotFound? ==> r.name !in st.vars
    decreases |w|, 0
  {
    if w[0] != Open then
      if w[0] in st.vars then Ok(VarValue(st, w[0])) else NotFound(w[0])
    else
      GroupInterior(w);
      Eval(st, w[1..|w| - 1])
  }

  // ---------------------------------------------------------------------------
  // Reference semantics

  /** Evaluates every operand in order; the first failure wins. */
  function EvalAll(st: State, ws: seq<Word>): (r: Result<seq<bool>>)
    requires Valid(st) && WellFormedWords(ws)
    ensures r.Ok? ==> |r.value| == |ws| && forall k :: 0 <= k < |ws| ==> Operand(st, ws[k]) == Ok(r.value[k])
    ensures r.NotFound? <==> exists k :: 0 <= k < |ws| && Operand(st, ws[k]).NotFound?
  {
    if ws == [] then Ok([])
    else
      match Operand(st, ws[0])
      case NotFound(n) => NotFound(n)
      case Ok(t) =>
        match EvalAll(st, ws[1..])
        case NotFound(n) =>
          var k :| 0 <= k < |ws[1..]| && Operand(st, ws[1..][k]).NotFound?;
          assert Operand(st, ws[k + 1]).NotFound?;
          NotFound(n)
        case Ok(vs) =>
          assert forall k :: 1 <= k < |ws| ==> Operand(st, ws[k]) == Operand(st, ws[1..][k - 1]);
          Ok([t] + vs)
  }

  predicate AllTrue(vs: seq<bool>)
  {
    forall k :: 0 <= k < |vs| ==> vs[k]
  }

  predicate AnyTrue(vs: seq<bool>)
  {
    exists k :: 0 <= k < |vs| && vs[k]
  }

  /** `and`/`or`/no-operator fold every operand, with no short-circuit, so every error surfaces. */
  lemma {:induction false} CombineFolds(st: State, op: Op, ws: seq<Word>, acc: bool)
    requires Valid(st) && WellFormedWords(ws) && op != Not
    ensures EvalAll(st, ws).NotFound? ==> Combine(st, op, ws, acc) == NotFound(EvalAll(st, ws).name)
    ensures EvalAll(st, ws).Ok? && op == And ==> Combine(st, op, ws, acc) == Ok(acc && AllTrue(EvalAll(st, ws).value))
    ensures EvalAll(st, ws).Ok? && op == Or ==> Combine(st, op, ws, acc) == Ok(acc || AnyTrue(EvalAll(st, ws).value))
    ensures EvalAll(st, ws).Ok? && op == NoOp ==> Combine(st, op, ws, acc) == Ok(acc)
    decreases |ws|
  {
    if ws != [] {
      match Operand(st, ws[0])
      case NotFound(n) =>
      case Ok(t) =>
        CombineFolds(st, op, ws[1..], Fold(op, acc, t));
        var r := EvalAll(st, ws[1..]);
        if r.Ok? {
          var vs := r.value;
          assert EvalAll(st, ws).value == [t] + vs;
          assert AllTrue([t] + vs) == (t && AllTrue(vs)) by {
            assert forall k :: 1 <= k < |vs| + 1 ==> ([t] + vs)[k] == vs[k - 1];
          }
          assert AnyTrue([t] + vs) == (t || AnyTrue(vs)) by {
            assert forall k :: 1 <= k < |vs| + 1 ==> ([t] + vs)[k] == vs[k - 1];
          }
        }
    }
  }

  /** `not` reads only its first operand; with no operand at all it yields false. */
  lemma NotReadsFirstOnly(st: State, ws: seq<Word>, acc: bool)
    requires Valid(st) && WellFormedWords(ws)
    ensures ws == [] ==> Combine(st, Not, ws, acc) == Ok(acc)
    ensures ws != [] && Operand(st, ws[0]).Ok? ==> Combine(st, Not, ws, acc) == Ok(!Operand(st, ws[0]).value)
    ensures ws != [] && Operand(st, ws[0]).NotFound? ==> Combine(st, Not, ws, acc) == Operand(st, ws[0])
  {
  }

  // ---------------------------------------------------------------------------
  // Statement-level expressions: a keyword followed by operand tokens.

  /** A leading keyword is a word of its own: the operands are the words of the rest. */
  lemma KeywordThenWords(kw: Token, rest: seq<Token>)
    requires kw != Open && kw != Close
    requires WellFormed(rest)
    ensures WellFormed([kw] + rest)
    ensures LogicWords([kw] + rest) == [[kw]] + LogicWords(rest)
  {
    var rws := LogicWords(rest);
    var ws := [[kw]] + rws;
    assert IsAtom([kw]);
    assert AllWords(ws) by {
      assert forall k :: 1 <= k < |ws| ==> ws[k] == rws[k - 1];
    }
    assert ws[1..] == rws;
    assert Concat(ws) == [kw] + rest;
    LogicWordsOfConcat(ws);
    DepthConcat([kw], rest);
    forall j | 0 <= j <= |[kw] + rest|
      ensures Depth(([kw] + rest)[..j]) >= 0
    {
      if j > 0 {
        assert ([kw] + rest)[..j] == [kw] + rest[..j - 1];
        DepthConcat([kw], rest[..j - 1]);
      }
    }
    forall i | 0 <= i < |[kw] + rest| - 1
      ensures !(([kw] + rest)[i] == Open && ([kw] + rest)[i + 1] == Close)
    {
      if i > 0 {
        assert ([kw] + rest)[i] == rest[i - 1];
      }
    }
  }

  /** `and w1 ... wn` is the conjunction of all operands (true when there are none). */
  lemma AndIsConjunction(st: State, rest: seq<Token>)
    requires Valid(st) && WellFormed(rest)
    ensures WellFormed(["and"] + rest)
    ensures EvalAll(st, LogicWords(rest)).Ok? ==>
              Eval(st, ["and"] + rest) == Ok(AllTrue(EvalAll(st, LogicWords(rest)).value))
    ensures EvalAll(st, LogicWords(rest)).NotFound? ==>
              Eval(st, ["and"] + rest) == NotFound(EvalAll(st, LogicWords(rest)).name)
  {
    KeywordThenWords("and", rest);
    assert ([[("and")]] + LogicWords(rest))[1..] == LogicWords(rest);
    CombineFolds(st, And, LogicWords(rest), true);
  }

  /** `or w1 ... wn` is the disjunction of all operands (false when there are none). */
  lemma OrIsDisjunction(st: State, rest: seq<Token>)
    requires Valid(st) && WellFormed(rest)
    ensures WellFormed(["or"] + rest)
    ensures EvalAll(st, LogicWords(rest)).Ok? ==>
              Eval(st, ["or"] + rest) == Ok(AnyTrue(EvalAll(st, LogicWords(rest)).value))
    ensures EvalAll(st, LogicWords(rest)).NotFound? ==>
              Eval(st, ["or"] + rest) == NotFound(EvalAll(st, LogicWords(rest)).name)
  {
    KeywordThenWords("or", rest);
    assert ([[("or")]] + LogicWords(rest))[1..] == LogicWords(rest);
    CombineFolds(st, Or, LogicWords(rest), false);
  }

  /**
   `not w rest` is the negation of `w` alone: the later operands are never
   evaluated, so they cannot change the value or raise an error.
   */
  lemma NotIgnoresLaterOperands(st: State, w: Word, rest: seq<Token>)
    requires Valid(st) && IsWord(w) && WellFormed(w) && WellFormed(rest)
    ensures WellFormed(["not"] + w) && WellFormed(["not"] + (w + rest))
    ensures Eval(st, ["not"] + (w + rest)) == Eval(st, ["not"] + w)
    ensures Operand(st, w).Ok? ==> Eval(st, ["not"] + w) == Ok(!Operand(st, w).value)
    ensures Operand(st, w).NotFound? ==> Eval(st, ["not"] + w) == Operand(st, w)
  {
    AppendWellFormed(w, rest);
    WordThenWords(w, rest);
    WordThenWords(w, []);
    assert w + [] == w;
    KeywordThenWords("not", w);
    KeywordThenWords("not", w + rest);
    var ws1 := LogicWords(["not"] + w);
    var ws2 := LogicWords(["not"] + (w + rest));
    assert ws1[1..] == [w];
    assert ws2[1..] == [w] + LogicWords(rest);
    NotReadsFirstOnly(st, ws1[1..], false);
    NotReadsFirstOnly(st, ws2[1..], false);
  }

  /** The words of `w + rest`, for a word `w`, are `w` followed by the words of `rest`. */
  lemma WordThenWords(w: Word, rest: seq<Token>)
    requires IsWord(w) && Balanced(rest)
    ensures LogicWords(w + rest) == [w] + LogicWords(rest)
  {
    var rws := LogicWords(rest);
    var ws := [w] + rws;
    assert ws[1..] == rws;
    assert AllWords(ws) by {
      assert forall k :: 1 <= k < |ws| ==> ws[k] == rws[k - 1];
    }
    assert Concat(ws) == w + rest;
    LogicWordsOfConcat(ws);
  }

  /** A word followed by a well-formed expression is well formed. */
  lemma AppendWellFormed(a: Word, b: seq<Token>)
    requires IsWord(a) && WellFormed(a) && WellFormed(b)
    ensures WellFormed(a + b)
  {
    var ts := a + b;
    DepthConcat(a, b);
    forall j | 0 <= j <= |ts|
      ensures Depth(ts[..j]) >= 0
    {
      if j <= |a| {
        assert ts[..j] == a[..j];
      } else {
        assert ts[..j] == a + b[..j - |a|];
        DepthConcat(a, b[..j - |a|]);
      }
    }
    assert a[|a| - 1] != Open;
    forall i | 0 <= i < |ts| - 1
      ensures !(ts[i] == Open && ts[i + 1] == Close)
    {
      if i + 1 < |a| {
        assert ts[i] == a[i] && ts[i + 1] == a[i + 1];
      } else if i >= |a| {
        assert ts[i] == b[i - |a|] && ts[i + 1] == b[i + 1 - |a|];
      } else {
        assert ts[i] == a[|a| - 1];
      }
    }
  }

  /** `not` with no operand at all never enters the operand loop and yields false. */
  lemma NotWithoutOperandIsFalse(st: State)
    requires Valid(st)
    ensures WellFormed(["not"]) && Eval(st, ["not"]) == Ok(false)
  {
    KeywordThenWords("not", []);
    assert ["not"] + [] == ["not"];
    assert LogicWords(["not"])[1..] == [];
  }

  /** A bare operand name missing from the variable pool makes `and`/`or` fail. */
  lemma MissingOperandFails(st: State, kw: Token, rest: seq<Token>, k: nat)
    requires Valid(st) && WellFormed(rest) && (kw == "and" || kw == "or")
    requires k < |LogicWords(rest)| && IsAtom(LogicWords(rest)[k])
    requires LogicWords(rest)[k][0] !in st.vars
    ensures WellFormed([kw] + rest)
    ensures Eval(st, [kw] + rest).NotFound?
  {
    KeywordThenWords(kw, rest);
    assert Operand(st, LogicWords(rest)[k]).NotFound?;
    if kw == "and" {
      AndIsConjunction(st, rest);
    } else {
      OrIsDisjunction(st, rest);
    }
  }
}
