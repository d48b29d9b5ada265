/** The tree builder of the newer library: it drains a lexer, keeping a
    stack of partial trees, and returns the single tree that is left. */
module Ast {
  import opened Wrappers
  import opened Tokens
  import opened Formula
  import opened Lexing
  import opened Rpn

  /** `From<Lexer>` for `Node`: the lexer's remaining input read as a
      formula in reverse Polish notation. Each panic of the source is a
      `Fail`. */
  method NodeFromLexer(lexer: Lexer) returns (r: Result<Node, Panic>)
    requires lexer.Valid()
    modifies lexer
    ensures r == Parse(old(lexer.Rest()))
  {
    ghost var all := TokensOf(lexer.Rest());
    var stack: seq<Node> := [];
    var current := lexer.NextToken();
    if current != EOF {
      TokensOfCons(old(lexer.Rest()));
    }
    while current != EOF
      invariant lexer.Valid()
      invariant current != EOF ==> Run([], all) == Run(stack, [current] + TokensOf(lexer.Rest()))
      invariant current == EOF ==> Run([], all) == Ok(stack)
      decreases |lexer.Rest()| + (if current == EOF then 0 else 1)
    {
      ghost var rest := TokensOf(lexer.Rest());
      assert ([current] + rest)[1..] == rest;
      match current {
        case False =>
          stack := stack + [Node.New(false)];
        case True =>
          stack := stack + [Node.New(true)];
        case Negation =>
          if |stack| < 1 { return Fail(MissingOperand(Op.Neg)); }
          var node := stack[|stack| - 1];
          stack := stack[..|stack| - 1] + [Node.Negation(node)];
        case And =>
          if |stack| < 2 { return Fail(MissingOperand(Op.And)); }
          var right, left := stack[|stack| - 1], stack[|stack| - 2];
          stack := stack[..|stack| - 2] + [Node.Conjunction(left, right)];
        case Or =>
          if |stack| < 2 { return Fail(MissingOperand(Op.Or)); }
          var right, left := stack[|stack| - 1], stack[|stack| - 2];
          stack := stack[..|stack| - 2] + [Node.Disjunction(left, right)];
        case Xor =>
          if |stack| < 2 { return Fail(MissingOperand(Op.Xor)); }
          var right, left := stack[|stack| - 1], stack[|stack| - 2];
          stack := stack[..|stack| - 2] + [Node.ExclusiveDisjunction(left, right)];
        case Cond =>
          if |stack| < 2 { return Fail(MissingOperand(Op.Cond)); }
          var right, left := stack[|stack| - 1], stack[|stack| - 2];
          stack := stack[..|stack| - 2] + [Node.Condition(left, right)];
        case Eq =>
          if |stack| < 2 { return Fail(MissingOperand(Op.Eq)); }
          var right, left := stack[|stack| - 1], stack[|stack| - 2];
          stack := stack[..|stack| - 2] + [Node.Equivalence(left, right)];
        case EOF =>
          return Fail(UnexpectedToken);
        case Illegal =>
          return Fail(UnexpectedToken);
      }
      ghost var before := lexer.Rest();
      current := lexer.NextToken();
      if current != EOF {
        TokensOfCons(before);
      }
    }
    if |stack| != 1 {
      return Fail(StackLength(|stack|));
    }
    return Ok(stack[0]);
  }
}
