/** The entry points of the older library: evaluation through the lexer
    and the tree parser, and its truth-table printer, which upper-cases the
    formula first and takes every ASCII letter as a variable. */
module RsbLib {
  import opened Wrappers
  import opened Word
  import opened Rpn
  import opened Lexing
  import opened Labels
  import opened Enumeration
  import opened TruthTable
  import Ast

  /** `eval_formula`: the value of the tree parsed from a fresh lexer. */
  method EvalFormula(formula: string) returns (r: Result<bool, Panic>)
    ensures r == Evaluate(formula)
  {
    var lexer := new Lexer(formula);
    var rpn := Ast.NodeFromLexer(lexer);
    match rpn
    case Ok(n) =>
      return Ok(n.Value());
    case Fail(e) =>
      return Fail(e);
  }

  /** `print_truth_table`: the table of the upper-cased formula, each row
      evaluated by `eval_formula`. */
  method PrintTruthTable(formula: string) returns (lines: seq<string>, o: Outcome<Panic>)
    ensures (lines, o) == Table(LexerParser, Uppercase(formula))
  {
    var upper := Uppercase(formula);
    var vars := SortDedup(Alphabetic(upper));
    UppercaseLabels(formula);
    LabelsFit(upper);
    lines := PrintHeader(vars);
    lines, o := PrintRows(upper, vars, lines);
  }

  /** The row loop of `print_truth_table`, after the header. */
  method PrintRows(upper: string, vars: seq<char>, header: seq<string>) returns (lines: seq<string>, o: Outcome<Panic>)
    requires vars == LabelsOf(upper) && |vars| <= 26 && Pow2(|vars|) < Modulus
    requires header == Header(vars)
    ensures lines == header + RowsFrom(|vars|, Results(LexerParser, upper), 0, Pow2(|vars|)).0
    ensures o == RowsFrom(|vars|, Results(LexerParser, upper), 0, Pow2(|vars|)).1
  {
    var l := |vars|;
    lines := header;
    var count := Pow2(l);
    ghost var results := Results(LexerParser, upper);
    ghost var rows := RowsFrom(l, results, 0, count);
    for i := 0 to count
      invariant lines + RowsFrom(l, results, i, count).0 == header + rows.0
      invariant RowsFrom(l, results, i, count).1 == rows.1
    {
      var row := TableRow(upper, vars, i);
      assert results(i) == Row(LexerParser, upper, i);
      if row.Fail? {
        Halt(l, results, i, count, lines);
        return lines, Stop(row.error);
      }
      Advance(l, results, i, count, lines, row.value);
      lines := lines + [row.value];
    }
    Done(l, results, count, lines);
    return lines, Pass;
  }

  /** The body of the row loop: substitute, evaluate, format. */
  method TableRow(upper: string, vars: seq<char>, i: nat) returns (r: Result<string, Panic>)
    requires vars == LabelsOf(upper) && i < Modulus && |vars| <= 26
    ensures Row(LexerParser, upper, i).Fail? ==> r == Fail(Row(LexerParser, upper, i).error)
    ensures Row(LexerParser, upper, i).Ok? ==> r == Ok(RowLine(|vars|, i, Row(LexerParser, upper, i).value))
  {
    var current, tableLine := AssignRow(upper, vars, i);
    var value := EvalFormula(current);
    match value
    case Fail(e) =>
      return Fail(e);
    case Ok(b) =>
      var ret := if b then "1" else "0";
      assert tableLine + "| " + ret + " |" == RowLine(|vars|, i, b);
      return Ok(tableLine + "| " + ret + " |");
  }
}
