/** The direct evaluator of the older library: a stack of booleans that
    each character of the formula updates in place, with no tree. */
module BooleanEvaluation {
  import opened Wrappers
  import opened Formula
  import opened Tokens
  import opened Lexing
  import opened Rpn

  /** A binary operator character: both operands popped, right first,
      and the result pushed. */
  function EvalBinary(stack: seq<bool>, c: char): (r: Result<seq<bool>, Panic>)
    requires IsBinary(c)
    ensures r.Ok? <==> |stack| >= 2
    ensures r.Ok? ==> |r.value| == |stack| - 1 && r.value[..|stack| - 2] == stack[..|stack| - 2]
    ensures r.Ok? ==> r.value[|stack| - 2] == Apply(BinaryOp(c), stack[|stack| - 2], stack[|stack| - 1])
  {
    if |stack| < 2 then Fail(MissingOperand(BinaryOp(c)))
    else Ok(stack[..|stack| - 2] + [Apply(BinaryOp(c), stack[|stack| - 2], stack[|stack| - 1])])
  }

  /** `eval` as written: `!` negates the entry at the bottom of the stack. */
  function EvalStep(stack: seq<bool>, c: char): Result<seq<bool>, Panic>
  {
    if IsConstant(c) then Ok(stack + [c == '1'])
    else if c == '!' then
      (if |stack| < 1 then Fail(MissingOperand(Op.Neg)) else Ok(stack[0 := !stack[0]]))
    else if IsBinary(c) then EvalBinary(stack, c)
    else Fail(UnexpectedChar(c))
  }

  /** `eval` as evidently intended: `!` negates the entry on top. */
  function EvalStepIntended(stack: seq<bool>, c: char): Result<seq<bool>, Panic>
  {
    if IsConstant(c) then Ok(stack + [c == '1'])
    else if c == '!' then
      (if |stack| < 1 then Fail(MissingOperand(Op.Neg))
       else Ok(stack[|stack| - 1 := !stack[|stack| - 1]]))
    else if IsBinary(c) then EvalBinary(stack, c)
    else Fail(UnexpectedChar(c))
  }

  function EvalRun(stack: seq<bool>, s: seq<char>): Result<seq<bool>, Panic>
    decreases |s|
  {
    if s == [] then Ok(stack)
    else
      match EvalStep(stack, s[0])
      case Ok(next) => EvalRun(next, s[1..])
      case Fail(e) => Fail(e)
  }

  function EvalRunIntended(stack: seq<bool>, s: seq<char>): Result<seq<bool>, Panic>
    decreases |s|
  {
    if s == [] then Ok(stack)
    else
      match EvalStepIntended(stack, s[0])
      case Ok(next) => EvalRunIntended(next, s[1..])
      case Fail(e) => Fail(e)
  }

  /** The end check of `result`: exactly one value must be left. */
  function Single(r: Result<seq<bool>, Panic>): Result<bool, Panic>
  {
    match r
    case Ok(stack) => if |stack| != 1 then Fail(StackLength(|stack|)) else Ok(stack[0])
    case Fail(e) => Fail(e)
  }

  /** `eval_formula` as written. */
  function EvalSpec(s: seq<char>): Result<bool, Panic>
  {
    Single(EvalRun([], s))
  }

  /** `eval_formula` with the negation corrected. */
  function EvalIntended(s: seq<char>): Result<bool, Panic>
  {
    Single(EvalRunIntended([], s))
  }

  class BoolRpnStack {
    var stack: seq<bool>

    constructor ()
      ensures stack == []
    {
      stack := [];
    }

    /** `op_len_check`: stop unless the stack holds `exp` operands. */
    function OpLenCheck(exp: nat, op: Op): (o: Outcome<Panic>)
      reads this
      ensures o.Pass? <==> |stack| >= exp
      ensures o.Stop? ==> o.error == MissingOperand(op)
    {
      if |stack| < exp then Stop(MissingOperand(op)) else Pass
    }

    /** As written, the negation flips `stack[0]`, the oldest entry. */
    method Negation() returns (o: Outcome<Panic>)
      modifies this
      ensures old(stack) == [] ==> o == Stop(MissingOperand(Op.Neg))
      ensures old(stack) != [] ==> o == Pass && stack == old(stack)[0 := !old(stack)[0]]
    {
      o := OpLenCheck(1, Op.Neg);
      if o.Stop? {
        return;
      }
      stack := stack[0 := !stack[0]];
    }

    /** The two unwrapped pops of a binary operator, right operand first. */
    method PopOperands() returns (a: bool, b: bool)
      requires |stack| >= 2
      modifies this
      ensures stack == old(stack)[..|old(stack)| - 2]
      ensures a == old(stack)[|old(stack)| - 2] && b == old(stack)[|old(stack)| - 1]
    {
      b := stack[|stack| - 1];
      stack := stack[..|stack| - 1];
      a := stack[|stack| - 1];
      stack := stack[..|stack| - 1];
    }

    method Conjunction() returns (o: Outcome<Panic>)
      modifies this
      ensures |old(stack)| < 2 ==> o == Stop(MissingOperand(Op.And))
      ensures |old(stack)| >= 2 ==> o == Pass && stack == EvalBinary(old(stack), '&').value
    {
      o := OpLenCheck(2, Op.And);
      if o.Stop? {
        return;
      }
      var a, b := PopOperands();
      stack := stack + [a && b];
    }

    method Disjunction() returns (o: Outcome<Panic>)
      modifies this
      ensures |old(stack)| < 2 ==> o == Stop(MissingOperand(Op.Or))
      ensures |old(stack)| >= 2 ==> o == Pass && stack == EvalBinary(old(stack), '|').value
    {
      o := OpLenCheck(2, Op.Or);
      if o.Stop? {
        return;
      }
      var a, b := PopOperands();
      stack := stack + [a || b];
    }

    method ExclusiveDisjunction() returns (o: Outcome<Panic>)
      modifies this
      ensures |old(stack)| < 2 ==> o == Stop(MissingOperand(Op.Xor))
      ensures |old(stack)| >= 2 ==> o == Pass && stack == EvalBinary(old(stack), '^').value
    {
      o := OpLenCheck(2, Op.Xor);
      if o.Stop? {
        return;
      }
      var a, b := PopOperands();
      stack := stack + [a != b];
    }

    method MaterialCondition() returns (o: Outcome<Panic>)
      modifies this
      ensures |old(stack)| < 2 ==> o == Stop(MissingOperand(Op.Cond))
      ensures |old(stack)| >= 2 ==> o == Pass && stack == EvalBinary(old(stack), '>').value
    {
      o := OpLenCheck(2, Op.Cond);
      if o.Stop? {
        return;
      }
      var a, b := PopOperands();
      stack := stack + [if a && !b then false else true];
    }

    method LogicalEquivalence() returns (o: Outcome<Panic>)
      modifies this
      ensures |old(stack)| < 2 ==> o == Stop(MissingOperand(Op.Eq))
      ensures |old(stack)| >= 2 ==> o == Pass && stack == EvalBinary(old(stack), '=').value
    {
      o := OpLenCheck(2, Op.Eq);
      if o.Stop? {
        return;
      }
      var a, b := PopOperands();
      stack := stack + [a == b];
    }

    /** `eval`: one character applied to the stack. */
    method Eval(c: char) returns (o: Outcome<Panic>)
      modifies this
      ensures EvalStep(old(stack), c).Ok? ==> o == Pass && stack == EvalStep(old(stack), c).value
      ensures EvalStep(old(stack), c).Fail? ==> o == Stop(EvalStep(old(stack), c).error)
    {
      match c {
        case '0' => stack := stack + [false]; o := Pass;
        case '1' => stack := stack + [true]; o := Pass;
        case '!' => o := Negation();
        case '&' => o := Conjunction();
        case '|' => o := Disjunction();
        case '^' => o := ExclusiveDisjunction();
        case '>' => o := MaterialCondition();
        case '=' => o := LogicalEquivalence();
        case _ => o := Stop(UnexpectedChar(c));
      }
    }

    /** `result`: the single value left on the stack. */
    function Result(): (r: Result<bool, Panic>)
      reads this
      ensures r.Ok? <==> |stack| == 1
      ensures r.Ok? ==> r.value == stack[0]
      ensures r.Fail? ==> r.error == StackLength(|stack|)
    {
      if |stack| != 1 then Fail(StackLength(|stack|)) else Ok(stack[0])
    }
  }

  /** `eval_formula`: every character through `eval`, then `result`. */
  method EvalFormula(formula: string) returns (r: Result<bool, Panic>)
    ensures r == EvalSpec(formula)
  {
    var evaluator := new BoolRpnStack();
    for k := 0 to |formula|
      invariant EvalRun([], formula) == EvalRun(evaluator.stack, formula[k..])
    {
      assert formula[k..][1..] == formula[k + 1..];
      var o := evaluator.Eval(formula[k]);
      if o.Stop? {
        return Fail(o.error);
      }
    }
    r := evaluator.Result();
  }

  /** The values of a stack of trees. */
  function Values(ns: seq<Node>): (vs: seq<bool>)
    ensures |vs| == |ns|
    ensures forall k :: 0 <= k < |ns| ==> vs[k] == ns[k].Value()
  {
    seq(|ns|, k requires 0 <= k < |ns| => ns[k].Value())
  }

  /** The corrected evaluator computes, step by step, the values of the
      trees the tree builder keeps on its stack. */
  lemma {:induction false} IntendedRunMatchesRun(ns: seq<Node>, s: seq<char>)
    ensures EvalRunIntended(Values(ns), s).Ok? <==> Run(ns, TokensOf(s)).Ok?
    ensures EvalRunIntended(Values(ns), s).Ok? ==>
      EvalRunIntended(Values(ns), s).value == Values(Run(ns, TokensOf(s)).value)
    decreases |s|
  {
    if s != [] {
      TokensOfTail(s);
      var r := Step(ns, FromChar(s[0]));
      if r.Ok? {
        StepValues(ns, s[0]);
        IntendedRunMatchesRun(r.value, s[1..]);
      }
    }
  }

  /** One step of the corrected evaluator on the values of a stack of
      trees is one step of the tree builder, read through `Values`. */
  lemma StepValues(ns: seq<Node>, c: char)
    requires Step(ns, FromChar(c)).Ok?
    ensures EvalStepIntended(Values(ns), c) == Ok(Values(Step(ns, FromChar(c)).value))
  {
    var next := Step(ns, FromChar(c)).value;
    var n := |ns|;
    if c == '!' {
      assert next == ns[..n - 1] + [OneOp(Op.Neg, ns[n - 1])];
      assert Values(next) == Values(ns)[n - 1 := !ns[n - 1].Value()];
    } else if IsBinary(c) {
      var op := BinaryOp(c);
      assert next == ns[..n - 2] + [TwoOp(op, ns[n - 2], ns[n - 1])];
      assert Values(next) == Values(ns)[..n - 2] + [Apply(op, ns[n - 2].Value(), ns[n - 1].Value())];
    } else {
      assert IsConstant(c);
      assert Values(next) == Values(ns) + [c == '1'];
    }
  }

  /** The corrected evaluator accepts exactly what the tree builder
      accepts, and gives the value of the tree. */
  lemma IntendedMatchesTree(s: seq<char>)
    ensures EvalIntended(s).Ok? <==> Parse(s).Ok?
    ensures EvalIntended(s).Ok? ==> EvalIntended(s).value == Parse(s).value.Value()
  {
    IntendedRunMatchesRun([], s);
  }

  /** Only the arity of each character decides whether the evaluator as
      written succeeds, and how many values it leaves. */
  lemma {:induction false} RunHeight(stack: seq<bool>, s: seq<char>)
    ensures EvalRun(stack, s).Ok? <==> Height(|stack|, s).Some?
    ensures EvalRun(stack, s).Ok? ==> |EvalRun(stack, s).value| == Height(|stack|, s).value
    decreases |s|
  {
    if s != [] {
      var r := EvalStep(stack, s[0]);
      if r.Ok? {
        RunHeight(r.value, s[1..]);
      }
    }
  }

  /** The evaluator as written accepts exactly the well-formed formulas:
      the misplaced negation changes values, never acceptance. */
  lemma AsWrittenAccepts(s: seq<char>)
    ensures EvalSpec(s).Ok? <==> WellFormed(s)
  {
    RunHeight([], s);
  }

  /** Every `!` of `s` meets a stack of at most one value. */
  predicate ShallowNegations(h: nat, s: seq<char>)
    decreases |s|
  {
    if s == [] then true
    else if IsConstant(s[0]) then ShallowNegations(h + 1, s[1..])
    else if s[0] == '!' then h <= 1 && ShallowNegations(h, s[1..])
    else if IsBinary(s[0]) then h >= 2 && ShallowNegations(h - 1, s[1..])
    else true
  }

  /** When every negation meets a single value, bottom and top coincide
      and the evaluator as written computes the intended result. */
  lemma {:induction false} ShallowRunsAgree(stack: seq<bool>, s: seq<char>)
    requires ShallowNegations(|stack|, s)
    ensures EvalRun(stack, s) == EvalRunIntended(stack, s)
    decreases |s|
  {
    if s != [] {
      var r := EvalStep(stack, s[0]);
      assert r == EvalStepIntended(stack, s[0]);
      if r.Ok? {
        ShallowRunsAgree(r.value, s[1..]);
      }
    }
  }

  lemma ShallowAgree(s: seq<char>)
    requires ShallowNegations(0, s)
    ensures EvalSpec(s) == EvalIntended(s)
  {
    ShallowRunsAgree([], s);
  }

  /** "10!&" is 1 & !0, which is true, but the negation as written flips
      the 1 at the bottom and the result is false. */
  lemma NegationCounterexample()
    ensures EvalSpec("10!&") == Ok(false)
    ensures EvalIntended("10!&") == Ok(true)
  {
    NegationAsWritten();
    NegationIntended();
  }

  lemma NegationAsWritten()
    ensures EvalSpec("10!&") == Ok(false)
  {
    var s := "10!&";
    assert s[1..] == "0!&" && s[1..][1..] == "!&" && s[1..][1..][1..] == "&";
    assert EvalRun([true, false], "!&") == EvalRun([false, false], "&");
  }

  lemma NegationIntended()
    ensures EvalIntended("10!&") == Ok(true)
  {
    var s := "10!&";
    assert s[1..] == "0!&" && s[1..][1..] == "!&" && s[1..][1..][1..] == "&";
    assert EvalRunIntended([true, false], "!&") == EvalRunIntended([true, true], "&");
  }

  /** The evaluator's `should_panic` vectors with an illegal character. */
  lemma IllegalCharVectors()
    ensures EvalSpec("a") == Fail(UnexpectedChar('a'))
    ensures EvalSpec("10!x") == Fail(UnexpectedChar('x'))
  {
    var s := "10!x";
    assert s[1..] == "0!x" && s[2..] == "!x" && s[3..] == "x";
    assert EvalRun([], s) == EvalRun([true], s[1..]);
    assert EvalRun([true], s[1..]) == EvalRun([true, false], s[2..]);
    assert EvalRun([true, false], s[2..]) == EvalRun([false, false], s[3..]);
  }

  /** The evaluator's `should_panic` vector with two values left. */
  lemma AmbiguousResultVector()
    ensures EvalSpec("10") == Fail(StackLength(2))
  {
    assert "10"[1..] == "0";
  }

  /** Where every negation meets a single value, the evaluator as written
      accepts what the tree parser accepts and agrees with its value. */
  lemma ShallowMatchesTree(s: seq<char>)
    requires ShallowNegations(0, s)
    ensures EvalSpec(s).Ok? <==> Evaluate(s).Ok?
    ensures EvalSpec(s).Ok? ==> EvalSpec(s).value == Evaluate(s).value
  {
    ShallowAgree(s);
    IntendedMatchesTree(s);
  }

  /** The evaluator's basic test table. */
  lemma BasicVectors()
    ensures EvalSpec("0") == Ok(false) && EvalSpec("1") == Ok(true) && EvalSpec("1!") == Ok(false)
    ensures EvalSpec("10&") == Ok(false) && EvalSpec("10|") == Ok(true)
    ensures EvalSpec("10^") == Ok(true) && EvalSpec("00^") == Ok(false)
    ensures EvalSpec("10>") == Ok(false) && EvalSpec("01>") == Ok(true)
    ensures EvalSpec("11=") == Ok(true)
  {
    Rpn.BasicVectors();
    ShallowMatchesTree("0");
    ShallowMatchesTree("1");
    ShallowMatchesTree("1!");
    ShallowBinary('1', '0', '&');
    ShallowBinary('1', '0', '|');
    ShallowBinary('1', '0', '^');
    ShallowBinary('0', '0', '^');
    ShallowBinary('1', '0', '>');
    ShallowBinary('0', '1', '>');
    ShallowBinary('1', '1', '=');
  }

  /** The evaluator's subject vectors "11>" and "10=". */
  lemma SubjectVectors()
    ensures EvalSpec("11>") == Ok(true) && EvalSpec("10=") == Ok(false)
  {
    Rpn.SubjectVectors();
    ShallowBinary('1', '1', '>');
    ShallowBinary('1', '0', '=');
  }

  /** Two constants and an operator hold no negation. */
  lemma ShallowBinary(x: char, y: char, c: char)
    requires IsConstant(x) && IsConstant(y) && IsBinary(c)
    ensures EvalSpec([x, y, c]).Ok? <==> Evaluate([x, y, c]).Ok?
    ensures EvalSpec([x, y, c]).Ok? ==> EvalSpec([x, y, c]).value == Evaluate([x, y, c]).value
  {
    var s := [x, y, c];
    assert s[1..] == [y, c] && s[1..][1..] == [c] && s[1..][1..][1..] == [];
    assert ShallowNegations(2, [c]);
    assert ShallowNegations(1, [y, c]);
    ShallowMatchesTree(s);
  }

  /** The subject's vector "1011||=", 1 == (0 | (1 | 1)), holds for the
      evaluator as written and for the tree parser. */
  lemma VectorEquivalence()
    ensures EvalSpec("1011||=") == Ok(true)
    ensures Evaluate("1011||=") == Ok(true)
  {
    PushTwo();
    PushFour();
    FoldFour();
    NoNegation();
    ShallowAgree("1011||=");
    IntendedMatchesTree("1011||=");
  }

  /** The four constants of "1011||=" pushed two at a time, then the
      three operators folded, by the corrected evaluator. */
  lemma PushTwo()
    ensures EvalRunIntended([], "1011||=") == EvalRunIntended([true, false], "11||=")
  {
    var s := "1011||=";
    assert s[1..] == "011||=" && s[2..] == "11||=";
    assert s[1..][1..] == s[2..];
    assert [] + [true] == [true] && [true] + [false] == [true, false];
    assert EvalStepIntended([], '1') == Ok([true]);
    assert EvalStepIntended([true], '0') == Ok([true, false]);
  }

  lemma PushFour()
    ensures EvalRunIntended([true, false], "11||=") == EvalRunIntended([true, false, true, true], "||=")
  {
    var s := "11||=";
    assert s[1..] == "1||=" && s[2..] == "||=";
    assert s[1..][1..] == s[2..];
    assert [true, false] + [true] == [true, false, true];
    assert [true, false, true] + [true] == [true, false, true, true];
    assert EvalStepIntended([true, false], '1') == Ok([true, false, true]);
    assert EvalStepIntended([true, false, true], '1') == Ok([true, false, true, true]);
  }

  lemma FoldFour()
    ensures EvalRunIntended([true, false, true, true], "||=") == Ok([true])
  {
    var s := "||=";
    assert s[1..] == "|=" && s[2..] == "=";
    assert s[1..][1..] == s[2..];
  }

  lemma NoNegation()
    ensures ShallowNegations(0, "1011||=")
  {
    var s := "1011||=";
    assert s[1..] == "011||=" && s[2..] == "11||=" && s[3..] == "1||=";
    assert s[4..] == "||=" && s[5..] == "|=" && s[6..] == "=";
  }
}
