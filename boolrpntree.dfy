/** The char-driven tree builder of the boole library: it reads a formula
    one character at a time, keeping a stack of expression trees, with one
    helper per operator that checks the stack, pops the operands and
    pushes the new node. */
module BoolRpnTree {
  import opened Wrappers
  import opened Formula
  import opened Lexing
  import ExpTree
  import opened Rpn

  /** The built tree; `Result` is its value. */
  datatype BoolRpnTree = BoolRpnTree(tree: Node)
  {
    function Result(): bool
    {
      tree.Value()
    }
  }

  /** `stack_len_check`: stop unless the stack holds `exp` operands. */
  function StackLenCheck(len: nat, exp: nat, op: Op): (o: Outcome<Panic>)
    ensures o.Pass? <==> len >= exp
    ensures o.Stop? ==> o.error == MissingOperand(op)
  {
    if len < exp then Stop(MissingOperand(op)) else Pass
  }

  /** The two pops of a binary helper: the right operand first, then the
      left one, each unwrapped. */
  method PopOperands(stack: seq<Node>) returns (r: Result<(seq<Node>, Node, Node), Panic>)
    ensures |stack| < 2 <==> r.Fail?
    ensures r.Fail? ==> r.error == UnwrapNone
    ensures r.Ok? ==> r.value == (stack[..|stack| - 2], stack[|stack| - 2], stack[|stack| - 1])
  {
    if |stack| == 0 {
      return Fail(UnwrapNone);
    }
    var right := stack[|stack| - 1];
    var rest := stack[..|stack| - 1];
    if |rest| == 0 {
      return Fail(UnwrapNone);
    }
    var left := rest[|rest| - 1];
    assert rest[..|rest| - 1] == stack[..|stack| - 2];
    return Ok((rest[..|rest| - 1], left, right));
  }

  method StackAddNegation(stack: seq<Node>) returns (r: Result<seq<Node>, Panic>)
    ensures |stack| == 0 ==> r == Fail(MissingOperand(Op.Neg))
    ensures |stack| >= 1 ==> r == Ok(stack[..|stack| - 1] + [ExpTree.Neg(stack[|stack| - 1])])
  {
    var check := StackLenCheck(|stack|, 1, Op.Neg);
    if check.Stop? {
      return Fail(check.error);
    }
    var node := stack[|stack| - 1];
    return Ok(stack[..|stack| - 1] + [ExpTree.Neg(node)]);
  }

  /** The conjunction helper checks for one operand only, so a stack of
      one passes the check and fails on the second unwrap. */
  method StackAddConjunction(stack: seq<Node>) returns (r: Result<seq<Node>, Panic>)
    ensures |stack| == 0 ==> r == Fail(MissingOperand(Op.And))
    ensures |stack| == 1 ==> r == Fail(UnwrapNone)
    ensures |stack| >= 2 ==> r == Ok(stack[..|stack| - 2] + [ExpTree.And(stack[|stack| - 2], stack[|stack| - 1])])
  {
    var check := StackLenCheck(|stack|, 1, Op.And);
    if check.Stop? {
      return Fail(check.error);
    }
    var operands := PopOperands(stack);
    if operands.Fail? {
      return Fail(operands.error);
    }
    var (rest, left, right) := operands.value;
    return Ok(rest + [ExpTree.And(left, right)]);
  }

  method StackAddDisjunction(stack: seq<Node>) returns (r: Result<seq<Node>, Panic>)
    ensures |stack| < 2 ==> r == Fail(MissingOperand(Op.Or))
    ensures |stack| >= 2 ==> r == Ok(stack[..|stack| - 2] + [ExpTree.Or(stack[|stack| - 2], stack[|stack| - 1])])
  {
    var check := StackLenCheck(|stack|, 2, Op.Or);
    if check.Stop? {
      return Fail(check.error);
    }
    var operands := PopOperands(stack);
    var (rest, left, right) := operands.value;
    return Ok(rest + [ExpTree.Or(left, right)]);
  }

  method StackAddExclusiveDisjunction(stack: seq<Node>) returns (r: Result<seq<Node>, Panic>)
    ensures |stack| < 2 ==> r == Fail(MissingOperand(Op.Xor))
    ensures |stack| >= 2 ==> r == Ok(stack[..|stack| - 2] + [ExpTree.Xor(stack[|stack| - 2], stack[|stack| - 1])])
  {
    var check := StackLenCheck(|stack|, 2, Op.Xor);
    if check.Stop? {
      return Fail(check.error);
    }
    var operands := PopOperands(stack);
    var (rest, left, right) := operands.value;
    return Ok(rest + [ExpTree.Xor(left, right)]);
  }

  method StackAddMaterialCondition(stack: seq<Node>) returns (r: Result<seq<Node>, Panic>)
    ensures |stack| < 2 ==> r == Fail(MissingOperand(Op.Cond))
    ensures |stack| >= 2 ==> r == Ok(stack[..|stack| - 2] + [ExpTree.MatCondition(stack[|stack| - 2], stack[|stack| - 1])])
  {
    var check := StackLenCheck(|stack|, 2, Op.Cond);
    if check.Stop? {
      return Fail(check.error);
    }
    var operands := PopOperands(stack);
    var (rest, left, right) := operands.value;
    return Ok(rest + [ExpTree.MatCondition(left, right)]);
  }

  method StackAddLogicalEquivalence(stack: seq<Node>) returns (r: Result<seq<Node>, Panic>)
    ensures |stack| < 2 ==> r == Fail(MissingOperand(Op.Eq))
    ensures |stack| >= 2 ==> r == Ok(stack[..|stack| - 2] + [ExpTree.Eq(stack[|stack| - 2], stack[|stack| - 1])])
  {
    var check := StackLenCheck(|stack|, 2, Op.Eq);
    if check.Stop? {
      return Fail(check.error);
    }
    var operands := PopOperands(stack);
    var (rest, left, right) := operands.value;
    return Ok(rest + [ExpTree.Eq(left, right)]);
  }

  /** What one character does to the builder's stack. */
  function BuildStep(stack: seq<Node>, c: char): Result<seq<Node>, Panic>
  {
    if c == '0' || c == '1' then Ok(stack + [ExpTree.New(c == '1')])
    else if c == '!' then
      (if |stack| < 1 then Fail(MissingOperand(Op.Neg)) else Ok(stack[..|stack| - 1] + [ExpTree.Neg(stack[|stack| - 1])]))
    else if c == '&' then
      (if |stack| < 1 then Fail(MissingOperand(Op.And))
       else if |stack| < 2 then Fail(UnwrapNone)
       else Combine(stack, Op.And))
    else if c == '|' then Combine(stack, Op.Or)
    else if c == '^' then Combine(stack, Op.Xor)
    else if c == '>' then Combine(stack, Op.Cond)
    else if c == '=' then Combine(stack, Op.Eq)
    else Fail(UnexpectedChar(c))
  }

  /** The builder's loop over the characters, stopping at the first panic. */
  function BuildRun(stack: seq<Node>, s: seq<char>): Result<seq<Node>, Panic>
    decreases |s|
  {
    if s == [] then Ok(stack)
    else
      match BuildStep(stack, s[0])
      case Ok(next) => BuildRun(next, s[1..])
      case Fail(e) => Fail(e)
  }

  /** `From<&str>`, as a specification. */
  function Build(s: seq<char>): Result<BoolRpnTree, Panic>
  {
    match BuildRun([], s)
    case Ok(stack) =>
      if |stack| != 1 then Fail(StackLength(|stack|)) else Ok(BoolRpnTree(stack[0]))
    case Fail(e) => Fail(e)
  }

  /** `From<&str>`: the loop over the formula's characters. */
  method FromStr(formula: string) returns (r: Result<BoolRpnTree, Panic>)
    ensures r == Build(formula)
  {
    var stack: seq<Node> := [];
    for k := 0 to |formula|
      invariant BuildRun([], formula) == BuildRun(stack, formula[k..])
    {
      var c := formula[k];
      assert formula[k..][1..] == formula[k + 1..];
      var next: Result<seq<Node>, Panic>;
      match c {
        case '0' => next := Ok(stack + [ExpTree.New(false)]);
        case '1' => next := Ok(stack + [ExpTree.New(true)]);
        case '!' => next := StackAddNegation(stack);
        case '&' => next := StackAddConjunction(stack);
        case '|' => next := StackAddDisjunction(stack);
        case '^' => next := StackAddExclusiveDisjunction(stack);
        case '>' => next := StackAddMaterialCondition(stack);
        case '=' => next := StackAddLogicalEquivalence(stack);
        case _ => next := Fail(UnexpectedChar(c));
      }
      if next.Fail? {
        return Fail(next.error);
      }
      stack := next.value;
    }
    if |stack| != 1 {
      return Fail(StackLength(|stack|));
    }
    return Ok(BoolRpnTree(stack[0]));
  }

  /** The char-driven builder and the lexer-driven one accept the same
      inputs and, when they accept, build the same stack. */
  lemma {:induction false} BuildRunMatchesRun(stack: seq<Node>, s: seq<char>)
    ensures BuildRun(stack, s).Ok? <==> Run(stack, TokensOf(s)).Ok?
    ensures BuildRun(stack, s).Ok? ==> BuildRun(stack, s).value == Run(stack, TokensOf(s)).value
    decreases |s|
  {
    if s != [] {
      TokensOfTail(s);
      var r := BuildStep(stack, s[0]);
      if r.Ok? {
        BuildRunMatchesRun(r.value, s[1..]);
      }
    }
  }

  /** Both builders accept exactly the same formulas, the well-formed
      ones, and build the same tree from them. */
  lemma BuildAgreesWithParse(s: seq<char>)
    ensures Build(s).Ok? <==> Parse(s).Ok?
    ensures Build(s).Ok? <==> WellFormed(s)
    ensures Build(s).Ok? ==> Build(s).value.tree == Parse(s).value
  {
    BuildRunMatchesRun([], s);
    ParseAccepts(s);
  }
}
