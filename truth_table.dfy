/** The truth-table printer: a header naming the variables, a separator,
    then one row per assignment with the variables' values and the
    formula's value. Printing is modelled as the list of lines printed. */
module TruthTable {
  import opened Wrappers
  import opened Word
  import opened Rpn
  import opened Labels
  import opened BoolRpnTree
  import opened Enumeration

  /** One cell: "| c ". */
  function Cell(c: char): (cell: string)
    ensures |cell| == 4
  {
    "| " + [c] + " "
  }

  /** The cells of a line, one per character. */
  function Cells(cs: seq<char>): (line: string)
    ensures |line| == 4 * |cs|
    decreases |cs|
  {
    if cs == [] then "" else Cells(cs[..|cs| - 1]) + Cell(cs[|cs| - 1])
  }

  /** The separator cells, "|---" per variable. */
  function Dashes(l: nat): (line: string)
    ensures |line| == 4 * l
  {
    if l == 0 then "" else Dashes(l - 1) + "|---"
  }

  /** The values of the `l` variables under assignment `i`. */
  function Values(l: nat, i: nat): (vs: seq<char>)
    ensures |vs| == l
    ensures forall n :: 0 <= n < l ==> vs[n] == ValueChar(i, l, n)
  {
    seq(l, n requires 0 <= n < l => ValueChar(i, l, n))
  }

  function Header(ls: seq<char>): seq<string>
  {
    [Cells(ls) + "| = |", Dashes(|ls|) + "|---|"]
  }

  function BoolChar(b: bool): char
  {
    if b then '1' else '0'
  }

  /** The line of assignment `i` whose formula value is `b`. */
  function RowLine(l: nat, i: nat, b: bool): string
  {
    Cells(Values(l, i)) + "| " + [BoolChar(b)] + " |"
  }

  /** The rows of assignments `i` up to `n` of a formula with `l`
      variables whose row `j` evaluates to `results(j)`, cut short by the
      first panic. */
  function RowsFrom(l: nat, results: nat -> Result<bool, Panic>, i: nat, n: nat): (seq<string>, Outcome<Panic>)
    decreases n - i
  {
    if i >= n then ([], Pass)
    else
      match results(i)
      case Fail(e) => ([], Stop(e))
      case Ok(b) =>
        var (rest, o) := RowsFrom(l, results, i + 1, n);
        ([RowLine(l, i, b)] + rest, o)
  }

  /** The value of every row of formula `s`. */
  function Results(ev: Evaluator, s: string): nat -> Result<bool, Panic>
  {
    (j: nat) => Row(ev, s, j)
  }

  /** Everything a printer prints for formula `s`, and whether it panics. */
  function Table(ev: Evaluator, s: string): (seq<string>, Outcome<Panic>)
  {
    var (rows, o) := RowsFrom(|LabelsOf(s)|, Results(ev, s), 0, Pow2(|LabelsOf(s)|));
    (Header(LabelsOf(s)) + rows, o)
  }

  /** `print_header` */
  method PrintHeader(labels: seq<char>) returns (out: seq<string>)
    ensures out == Header(labels)
  {
    var line := "";
    var underscore := "";
    for n := 0 to |labels|
      invariant line == Cells(labels[..n])
      invariant underscore == Dashes(n)
    {
      assert labels[..n + 1][..n] == labels[..n];
      line := line + "| " + [labels[n]] + " ";
      underscore := underscore + "|---";
    }
    assert labels[..|labels|] == labels;
    out := [line + "| = |", underscore + "|---|"];
  }

  /** The inner loop of the printers: replace each variable by its bit of
      `i` and collect the value cells. */
  method AssignRow(formula: string, labels: seq<char>, i: nat) returns (current: string, tableLine: string)
    requires i < Modulus && |labels| <= 32
    ensures current == Assign(formula, labels, i)
    ensures tableLine == Cells(Values(|labels|, i))
  {
    var l := |labels|;
    current := formula;
    tableLine := "";
    for n := 0 to l
      invariant current == Substituted(formula, labels, i, n)
      invariant tableLine == Cells(Values(l, i)[..n])
    {
      MaskBit(i, l - 1 - n);
      assert Values(l, i)[..n + 1][..n] == Values(l, i)[..n];
      var val: char;
      if And(i, Shl(1, l - 1 - n)) != 0 {
        tableLine := tableLine + "| 1 ";
        val := '1';
      } else {
        tableLine := tableLine + "| 0 ";
        val := '0';
      }
      current := Replace(current, labels[n], val);
    }
    assert Values(l, i)[..l] == Values(l, i);
  }

  /** `print_truth_table`, evaluating each row with the tree builder. */
  method PrintTruthTable(formula: string) returns (lines: seq<string>, o: Outcome<Panic>)
    ensures (lines, o) == Table(TreeBuilder, formula)
  {
    var labels := LabelsOf(formula);
    LabelsFit(formula);
    lines := PrintHeader(labels);
    lines, o := BuilderRows(formula, labels, lines);
  }

  /** The row loop of `print_truth_table`, after the header. */
  method BuilderRows(formula: string, labels: seq<char>, header: seq<string>) returns (lines: seq<string>, o: Outcome<Panic>)
    requires labels == LabelsOf(formula) && |labels| <= 26 && Pow2(|labels|) < Modulus
    requires header == Header(labels)
    ensures lines == header + RowsFrom(|labels|, Results(TreeBuilder, formula), 0, Pow2(|labels|)).0
    ensures o == RowsFrom(|labels|, Results(TreeBuilder, formula), 0, Pow2(|labels|)).1
  {
    var l := |labels|;
    lines := header;
    var count := Pow2(l);
    ghost var results := Results(TreeBuilder, formula);
    ghost var rows := RowsFrom(l, results, 0, count);
    for i := 0 to count
      invariant lines + RowsFrom(l, results, i, count).0 == header + rows.0
      invariant RowsFrom(l, results, i, count).1 == rows.1
    {
      var row := BuilderRow(formula, labels, i);
      assert results(i) == Row(TreeBuilder, formula, i);
      if row.Fail? {
        Halt(l, results, i, count, lines);
        return lines, Stop(row.error);
      }
      Advance(l, results, i, count, lines, row.value);
      lines := lines + [row.value];
    }
    Done(l, results, count, lines);
    return lines, Pass;
  }

  /** The body of the row loop: substitute, build, format. */
  method BuilderRow(formula: string, labels: seq<char>, i: nat) returns (r: Result<string, Panic>)
    requires labels == LabelsOf(formula) && i < Modulus && |labels| <= 26
    ensures Row(TreeBuilder, formula, i).Fail? ==> r == Fail(Row(TreeBuilder, formula, i).error)
    ensures Row(TreeBuilder, formula, i).Ok? ==> r == Ok(RowLine(|labels|, i, Row(TreeBuilder, formula, i).value))
  {
    var current, tableLine := AssignRow(formula, labels, i);
    var tree := FromStr(current);
    match tree
    case Fail(e) =>
      return Fail(e);
    case Ok(t) =>
      var ret := if t.Result() then "1" else "0";
      assert tableLine + "| " + ret + " |" == RowLine(|labels|, i, t.Result());
      return Ok(tableLine + "| " + ret + " |");
  }

  /** One step of the row loop: a panic ends the rows, a value adds a line. */
  lemma RowsFromStep(l: nat, results: nat -> Result<bool, Panic>, i: nat, n: nat)
    requires i < n
    ensures results(i).Fail? ==> RowsFrom(l, results, i, n) == ([], Stop(results(i).error))
    ensures results(i).Ok? ==>
      RowsFrom(l, results, i, n).0 == [RowLine(l, i, results(i).value)] + RowsFrom(l, results, i + 1, n).0 &&
      RowsFrom(l, results, i, n).1 == RowsFrom(l, results, i + 1, n).1
  {
  }

  /** Printing the line of row `i` keeps what is printed so far plus what
      is still to come equal to the whole table. */
  lemma Advance(l: nat, results: nat -> Result<bool, Panic>, i: nat, n: nat, lines: seq<string>, line: string)
    requires i < n && results(i).Ok?
    requires line == RowLine(l, i, results(i).value)
    ensures (lines + [line]) + RowsFrom(l, results, i + 1, n).0 == lines + RowsFrom(l, results, i, n).0
    ensures RowsFrom(l, results, i + 1, n).1 == RowsFrom(l, results, i, n).1
  {
    RowsFromStep(l, results, i, n);
    assert lines + ([line] + RowsFrom(l, results, i + 1, n).0) == (lines + [line]) + RowsFrom(l, results, i + 1, n).0;
  }

  /** A panic in row `i` leaves what is printed so far as the whole output. */
  lemma Halt(l: nat, results: nat -> Result<bool, Panic>, i: nat, n: nat, lines: seq<string>)
    requires i < n && results(i).Fail?
    ensures lines + RowsFrom(l, results, i, n).0 == lines
    ensures RowsFrom(l, results, i, n).1 == Stop(results(i).error)
  {
    RowsFromStep(l, results, i, n);
    assert lines + [] == lines;
  }

  /** After the last row nothing is left to print. */
  lemma Done(l: nat, results: nat -> Result<bool, Panic>, n: nat, lines: seq<string>)
    ensures lines + RowsFrom(l, results, n, n).0 == lines
    ensures RowsFrom(l, results, n, n).1 == Pass
  {
    assert lines + [] == lines;
  }

  /** Cell `n` of a line sits at columns `4n` to `4n + 3`. */
  lemma {:induction false} CellAt(cs: seq<char>, n: nat)
    requires n < |cs|
    ensures Cells(cs)[4 * n..4 * n + 4] == Cell(cs[n])
    decreases |cs|
  {
    var front := cs[..|cs| - 1];
    if n < |cs| - 1 {
      CellAt(front, n);
      assert Cells(cs)[..4 * |front|] == Cells(front);
    }
  }

  /** When every row from `i` on evaluates, one line per row is printed
      and the printer does not panic. */
  lemma {:induction false} RowsFromComplete(l: nat, results: nat -> Result<bool, Panic>, i: nat, n: nat)
    requires forall j :: i <= j < n ==> results(j).Ok?
    ensures RowsFrom(l, results, i, n).1 == Pass
    ensures |RowsFrom(l, results, i, n).0| == if i <= n then n - i else 0
    decreases n - i
  {
    if i < n {
      RowsFromComplete(l, results, i + 1, n);
      RowsFromStep(l, results, i, n);
    }
  }

  /** When rows `i` to `j` evaluate, line `j - i` of the rows from `i` is
      the line of row `j`. */
  lemma {:induction false} RowsFromAt(l: nat, results: nat -> Result<bool, Panic>, i: nat, n: nat, j: nat)
    requires i <= j < n
    requires forall k :: i <= k <= j ==> results(k).Ok?
    ensures j - i < |RowsFrom(l, results, i, n).0|
    ensures RowsFrom(l, results, i, n).0[j - i] == RowLine(l, j, results(j).value)
    decreases j - i
  {
    RowsFromStep(l, results, i, n);
    if i < j {
      RowsFromAt(l, results, i + 1, n, j);
      var rest := RowsFrom(l, results, i + 1, n).0;
      assert ([RowLine(l, i, results(i).value)] + rest)[j - i] == rest[j - (i + 1)];
    }
  }

  /** A well-formed formula gets a header, a separator and `2^l` rows, row
      `i` holding the bits of `i` and the formula's value under assignment
      `i`; otherwise only the header lines are printed before the panic. */
  lemma TableMeaning(ev: Evaluator, s: string)
    ensures var (lines, o) := Table(ev, s);
      var ls := LabelsOf(s);
      lines[..2] == Header(ls) &&
      (WellFormed(Assign(s, ls, 0)) ==>
        o == Pass && |lines| == 2 + Pow2(|ls|) &&
        forall i :: 0 <= i < Pow2(|ls|) ==>
          Row(ev, s, i).Ok? && lines[2 + i] == RowLine(|ls|, i, Row(ev, s, i).value)) &&
      (!WellFormed(Assign(s, ls, 0)) ==> lines == Header(ls) && o == Stop(Row(ev, s, 0).error))
  {
    var l := |LabelsOf(s)|;
    var n := Pow2(l);
    var results := Results(ev, s);
    forall j | 0 <= j < n
      ensures results(j) == Row(ev, s, j)
      ensures results(j).Ok? <==> WellFormed(Assign(s, LabelsOf(s), 0))
    {
      RowOk(ev, s, j);
    }
    if WellFormed(Assign(s, LabelsOf(s), 0)) {
      RowsFromComplete(l, results, 0, n);
      forall j | 0 <= j < n
        ensures RowsFrom(l, results, 0, n).0[j] == RowLine(l, j, results(j).value)
      {
        RowsFromAt(l, results, 0, n, j);
      }
    } else {
      RowOk(ev, s, 0);
      RowsFromStep(l, results, 0, n);
    }
  }
}
