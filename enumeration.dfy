/** The evaluation of a formula under one assignment, by either of the two
    evaluators the enumerators call: the character-driven tree builder of
    the newer library or the lexer-driven parser of the older one. */
module Enumeration {
  import opened Wrappers
  import opened Rpn
  import opened Labels
  import opened BoolRpnTree

  datatype Evaluator = TreeBuilder | LexerParser

  /** `BoolRpnTree::from(s).result()` or `eval_formula(s)`, panics included. */
  function EvalWith(ev: Evaluator, s: string): Result<bool, Panic>
  {
    match ev
    case TreeBuilder =>
      (match Build(s)
       case Ok(t) => Ok(t.Result())
       case Fail(e) => Fail(e))
    case LexerParser => Evaluate(s)
  }

  /** The value of formula `s` under assignment `i`. */
  function Row(ev: Evaluator, s: string, i: nat): Result<bool, Panic>
  {
    EvalWith(ev, Assign(s, LabelsOf(s), i))
  }

  /** Both evaluators accept exactly the well-formed formulas and agree on
      their value. */
  lemma EvaluatorsAgree(s: string)
    ensures EvalWith(TreeBuilder, s).Ok? <==> WellFormed(s)
    ensures EvalWith(LexerParser, s).Ok? <==> WellFormed(s)
    ensures WellFormed(s) ==> EvalWith(TreeBuilder, s) == EvalWith(LexerParser, s)
  {
    BuildAgreesWithParse(s);
    ParseAccepts(s);
  }

  /** A row evaluates exactly when the formula under the first assignment
      does: the assignment does not change the formula's shape. */
  lemma RowOk(ev: Evaluator, s: string, i: nat)
    ensures Row(ev, s, i).Ok? <==> WellFormed(Assign(s, LabelsOf(s), 0))
  {
    EvaluatorsAgree(Assign(s, LabelsOf(s), i));
    WellFormedUnderEveryAssignment(s, i, 0);
  }
}
