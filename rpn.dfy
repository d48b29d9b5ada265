/** The reverse-Polish reading of a formula, as a specification shared by
    the builders and evaluators: a stack of trees that constants push onto
    and operators pop their operands from. A formula is accepted when
    every operator finds its operands and exactly one tree is left. */
module Rpn {
  import opened Wrappers
  import opened Tokens
  import opened Formula
  import opened Lexing

  /** Why a builder or an evaluator stops: the panics of the source. */
  datatype Panic =
    | MissingOperand(op: Op)    // an operator finds too few operands
    | UnexpectedToken           // an illegal character reaches the tree builder
    | UnexpectedChar(c: char)   // an illegal character reaches a char-driven loop
    | StackLength(len: nat)     // not exactly one value is left at the end
    | UnwrapNone                // an `unwrap` on an empty stack

  /** Replace the two topmost trees by the operator node over them; the
      right operand is the one popped first. */
  function Combine(stack: seq<Node>, op: Op): (r: Result<seq<Node>, Panic>)
    ensures r.Ok? <==> |stack| >= 2
    ensures r.Fail? ==> r.error == MissingOperand(op)
    ensures r.Ok? ==> r.value == stack[..|stack| - 2] + [TwoOp(op, stack[|stack| - 2], stack[|stack| - 1])]
  {
    if |stack| < 2 then Fail(MissingOperand(op))
    else Ok(stack[..|stack| - 2] + [TwoOp(op, stack[|stack| - 2], stack[|stack| - 1])])
  }

  /** One iteration of the tree builder's loop. */
  function Step(stack: seq<Node>, t: Token): Result<seq<Node>, Panic>
  {
    match t
    case False => Ok(stack + [Node.New(false)])
    case True => Ok(stack + [Node.New(true)])
    case Negation =>
      if |stack| < 1 then Fail(MissingOperand(Op.Neg))
      else Ok(stack[..|stack| - 1] + [Node.Negation(stack[|stack| - 1])])
    case And => Combine(stack, Op.And)
    case Or => Combine(stack, Op.Or)
    case Xor => Combine(stack, Op.Xor)
    case Cond => Combine(stack, Op.Cond)
    case Eq => Combine(stack, Op.Eq)
    case EOF => Fail(UnexpectedToken)
    case Illegal => Fail(UnexpectedToken)
  }

  /** The builder's loop over a token sequence, stopping at the first panic. */
  function Run(stack: seq<Node>, ts: seq<Token>): Result<seq<Node>, Panic>
    decreases |ts|
  {
    if ts == [] then Ok(stack)
    else
      match Step(stack, ts[0])
      case Ok(next) => Run(next, ts[1..])
      case Fail(e) => Fail(e)
  }

  /** The end-of-input check: exactly one tree must be left. */
  function Finish(stack: seq<Node>): (r: Result<Node, Panic>)
    ensures r.Ok? <==> |stack| == 1
    ensures r.Ok? ==> r.value == stack[0]
    ensures r.Fail? ==> r.error == StackLength(|stack|)
  {
    if |stack| != 1 then Fail(StackLength(|stack|)) else Ok(stack[0])
  }

  /** The tree a lexer over `s` is turned into. */
  function Parse(s: seq<char>): Result<Node, Panic>
  {
    match Run([], TokensOf(s))
    case Ok(stack) => Finish(stack)
    case Fail(e) => Fail(e)
  }

  /** Parse and evaluate. */
  function Evaluate(s: seq<char>): Result<bool, Panic>
  {
    match Parse(s)
    case Ok(n) => Ok(n.Value())
    case Fail(e) => Fail(e)
  }

  predicate IsConstant(c: char)
  {
    c == '0' || c == '1'
  }

  predicate IsBinary(c: char)
  {
    c == '&' || c == '|' || c == '^' || c == '>' || c == '='
  }

  /** The operator of a binary operator character. */
  function BinaryOp(c: char): (op: Op)
    requires IsBinary(c)
    ensures op != Op.Neg
    ensures TokensOf([c]) == [match op
      case And => Token.And
      case Or => Token.Or
      case Xor => Token.Xor
      case Cond => Token.Cond
      case _ => Token.Eq]
  {
    match c
    case '&' => Op.And
    case '|' => Op.Or
    case '^' => Op.Xor
    case '>' => Op.Cond
    case _ => Op.Eq
  }

  /** The stack height reached after reading `s` from height `h`, or `None`
      when an operator finds too few operands or a character is not part of
      the language. Only the arity of each character matters. */
  function Height(h: nat, s: seq<char>): Option<nat>
    decreases |s|
  {
    if s == [] then Some(h)
    else if IsConstant(s[0]) then Height(h + 1, s[1..])
    else if s[0] == '!' then (if h < 1 then None else Height(h, s[1..]))
    else if IsBinary(s[0]) then (if h < 2 then None else Height(h - 1, s[1..]))
    else None
  }

  /** A well-formed formula leaves exactly one value on the stack. */
  predicate WellFormed(s: seq<char>)
  {
    Height(0, s) == Some(1)
  }

  lemma TokensOfTail(s: seq<char>)
    requires s != []
    ensures TokensOf(s)[1..] == TokensOf(s[1..])
  {
  }

  /** The tree builder's loop succeeds exactly when the height count does,
      and then leaves as many trees as the count says. */
  lemma {:induction false} RunHeight(stack: seq<Node>, s: seq<char>)
    ensures Run(stack, TokensOf(s)).Ok? <==> Height(|stack|, s).Some?
    ensures Run(stack, TokensOf(s)).Ok? ==> |Run(stack, TokensOf(s)).value| == Height(|stack|, s).value
    decreases |s|
  {
    if s != [] {
      TokensOfTail(s);
      var r := Step(stack, FromChar(s[0]));
      if r.Ok? {
        RunHeight(r.value, s[1..]);
      }
    }
  }

  /** The builder accepts exactly the well-formed formulas. */
  lemma ParseAccepts(s: seq<char>)
    ensures Parse(s).Ok? <==> WellFormed(s)
  {
    RunHeight([], s);
  }

  /** The builder's loop reads the formula one character at a time. */
  lemma RunChar(stack: seq<Node>, s: seq<char>)
    requires s != [] && Step(stack, FromChar(s[0])).Ok?
    ensures Run(stack, TokensOf(s)) == Run(Step(stack, FromChar(s[0])).value, TokensOf(s[1..]))
  {
    TokensOfCons(s);
  }

  /** A constant pushes its leaf. */
  lemma StepConstant(stack: seq<Node>, x: char)
    requires IsConstant(x)
    ensures Step(stack, FromChar(x)) == Ok(stack + [Leaf(x == '1')])
  {
  }

  /** A binary operator replaces the two topmost trees of any stack by its
      node, with the earlier-pushed tree on the left; the trees below stay. */
  lemma StepBinary(st: seq<Node>, l: Node, r: Node, c: char)
    requires IsBinary(c)
    ensures Step(st + [l, r], FromChar(c)) == Ok(st + [TwoOp(BinaryOp(c), l, r)])
  {
    var s := st + [l, r];
    assert s[..|s| - 2] == st;
    assert s[|s| - 2] == l && s[|s| - 1] == r;
    if c == '&' {
      assert FromChar(c) == Token.And;
    } else if c == '|' {
      assert FromChar(c) == Token.Or;
    } else if c == '^' {
      assert FromChar(c) == Token.Xor;
    } else if c == '>' {
      assert FromChar(c) == Token.Cond;
    } else {
      assert FromChar(c) == Token.Eq;
    }
  }

  /** The end of the formula with exactly one tree left. */
  lemma RunEnd(n: Node)
    ensures Run([n], TokensOf([])) == Ok([n])
  {
  }

  /** A single constant evaluates to itself. */
  lemma OneConstant(x: char)
    requires IsConstant(x)
    ensures Evaluate([x]) == Ok(x == '1')
  {
    StepConstant([], x);
    RunChar([], [x]);
    assert [x][1..] == [];
    RunEnd(Leaf(x == '1'));
  }

  /** A negated constant evaluates to its negation. */
  lemma NegatedConstant(x: char)
    requires IsConstant(x)
    ensures Evaluate([x, '!']) == Ok(x != '1')
  {
    var leaf := Leaf(x == '1');
    StepConstant([], x);
    RunChar([], [x, '!']);
    assert [x, '!'][1..] == ['!'];
    RunChar([leaf], ['!']);
    assert ['!'][1..] == [];
    RunEnd(OneOp(Op.Neg, leaf));
  }

  /** Two constants and a binary operator: the first constant is the left
      operand, the second the right one. */
  lemma TwoConstants(x: char, y: char, c: char)
    requires IsConstant(x) && IsConstant(y) && IsBinary(c)
    ensures Evaluate([x, y, c]) == Ok(Apply(BinaryOp(c), x == '1', y == '1'))
  {
    var l, r := Leaf(x == '1'), Leaf(y == '1');
    StepConstant([], x);
    RunChar([], [x, y, c]);
    assert [x, y, c][1..] == [y, c];
    StepConstant([l], y);
    RunChar([l], [y, c]);
    assert [y, c][1..] == [c];
    assert [] + [l, r] == [l, r] && [] + [TwoOp(BinaryOp(c), l, r)] == [TwoOp(BinaryOp(c), l, r)];
    StepBinary([], l, r, c);
    RunChar([l, r], [c]);
    assert [c][1..] == [];
    RunEnd(TwoOp(BinaryOp(c), l, r));
  }

  /** The builders' basic test table. */
  lemma BasicVectors()
    ensures Evaluate("0") == Ok(false) && Evaluate("1") == Ok(true) && Evaluate("1!") == Ok(false)
    ensures Evaluate("10&") == Ok(false) && Evaluate("10|") == Ok(true)
    ensures Evaluate("10^") == Ok(true) && Evaluate("00^") == Ok(false)
    ensures Evaluate("10>") == Ok(false) && Evaluate("01>") == Ok(true)
    ensures Evaluate("11=") == Ok(true)
  {
    OneConstant('0');
    OneConstant('1');
    NegatedConstant('1');
    TwoConstants('1', '0', '&');
    TwoConstants('1', '0', '|');
    TwoConstants('1', '0', '^');
    TwoConstants('0', '0', '^');
    TwoConstants('1', '0', '>');
    TwoConstants('0', '1', '>');
    TwoConstants('1', '1', '=');
  }

  /** The subject's vectors "11>" and "10=". */
  lemma SubjectVectors()
    ensures Evaluate("11>") == Ok(true) && Evaluate("10=") == Ok(false)
  {
    TwoConstants('1', '1', '>');
    TwoConstants('1', '0', '=');
  }

  /** The builders' test vector "10|1&": (1 | 0) & 1. */
  lemma VectorOrThenAnd()
    ensures Evaluate("10|1&") == Ok(true)
  {
    assert TokensOf("10|1&") == [True, False, Token.Or, True, Token.And];
  }

  /** The builders' test vector "101|&": 1 & (0 | 1). */
  lemma VectorAndOfOr()
    ensures Evaluate("101|&") == Ok(true)
  {
    assert TokensOf("101|&") == [True, False, True, Token.Or, Token.And];
  }

  /** The `should_panic` vector: "01!&" builds 0 & !1, after which the
      disjunction finds a single operand. */
  lemma PanicVector()
    ensures Parse("01!&|^>=7") == Fail(MissingOperand(Op.Or))
  {
    var ts := TokensOf("01!&|^>=7");
    PanicTokens();
    var one := [TwoOp(Op.And, Leaf(false), OneOp(Op.Neg, Leaf(true)))];
    assert Run(one, ts[4..]) == Fail(MissingOperand(Op.Or));
    assert ts[2..][1..] == ts[3..] && ts[3..][1..] == ts[4..];
    assert Run([Leaf(false), OneOp(Op.Neg, Leaf(true))], ts[3..]) == Run(one, ts[4..]);
    assert Run([Leaf(false), Leaf(true)], ts[2..]) == Run([Leaf(false), OneOp(Op.Neg, Leaf(true))], ts[3..]);
    assert Run([], ts) == Run([Leaf(false), Leaf(true)], ts[2..]);
  }

  lemma PanicTokens()
    ensures TokensOf("01!&|^>=7")[..5] == [False, True, Negation, Token.And, Token.Or]
  {
    LexerVector();
  }
}
