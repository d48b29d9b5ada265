# Ready, Set, Boole — a Dafny model

This project models the core of the "Ready, Set, Boole" exercises in
Dafny. Three small Rust libraries (`lib`, `boole_lib`, `rsb-lib`) implement
overlapping versions of the same parts:

- **The propositional RPN front end.** Formulas in reverse Polish notation
  over `0 1 ! & | ^ > =` are handled by:
  - a token table and a one-character-per-call lexer;
  - two lexer-driven tree builders (`ast.rs` and its copy `rpn_bool.rs`);
  - a character-driven tree builder (`boolrpntree.rs`) over the generic
    expression tree (`exptree.rs`);
  - a direct evaluator on a stack of booleans (`boolean_evaluation.rs`).

  Every operator node of the source stores a closure. Here the node stores a
  tag from the closed set `Neg/And/Or/Xor/Cond/Eq`, and `Formula.Apply` gives
  each tag its meaning. Every panic of the source becomes a `Fail` value
  (`Rpn.Panic`, `Word.ArithPanic`).
- **Brute-force enumeration.** The steps are:
  1. collect the sorted, deduplicated variable letters;
  2. try the `2^l` assignments, the first letter being the most significant
     bit;
  3. substitute `0`/`1` textually, then evaluate.

  `sat` stops at the first true row. The two truth-table printers are
  modelled as the list of lines they print, plus whether they panic.
- **Bitwise arithmetic.** It covers:
  - the recursive carry/xor adder;
  - the 32-round ripple-carry adder, which panics on overflow;
  - the carry loop `adder2` and `adder_ref`;
  - two Russian-peasant multipliers;
  - Gray code;
  - the fold-based power set.

  A `u32` is a natural below `2^32` (`Word.u32`). Its shifts and bitwise
  operators are defined one bit at a time. Gray code works on `bv32`.

The imperative parts of the source are methods whose loops mirror the Rust
loops:
- the lexer, a class whose position field advances;
- the `BoolRpnStack` evaluator, a class with a `stack` field;
- the stack loops of the builders;
- the enumerators' nested loops;
- the adders' and multipliers' loops;
- the power-set fold.

Each method is proved against a specification function. Lemmas then relate
those functions: the builders and evaluators agree with each other, the
enumeration covers every assignment, and the arithmetic loops compute sums
and products.

## Model

| member | source | states |
|---|---|---|
| Tokens.FromChar | rsb-lib/src/token.rs:25-38 | `'0'`/`'1'` give False/True and the six operator symbols give their six variants. Each variant comes from exactly its one character. Every other character gives Illegal, and no character gives EOF. |
| Tokens.Eof | rsb-lib/src/token.rs:19-23 | The end marker is produced by no character. |
| Tokens.SymbolsDistinct | rsb-lib/src/token.rs:28-35 | The table is injective on the eight symbols. |
| Lexing.TokensOf | rsb-lib/src/lexer.rs:7-13 | The tokens a lexer hands out are one per character, each the table entry of its character, and never EOF. |
| Lexing.Lexer.constructor | rsb-lib/src/lexer.rs:21-25 | A new lexer has the whole input still to read. |
| Lexing.Lexer.NextChar | rsb-lib/src/lexer.rs:29-31 | Hands out the next character and consumes exactly that one; on exhausted input, returns None and stays exhausted. |
| Lexing.Lexer.NextToken | rsb-lib/src/lexer.rs:7-13 | While characters remain, returns the token of the next one and consumes it; afterwards, returns EOF on every call. |
| Lexing.LexerVector | rsb-lib/src/lexer.rs:39-64 | The test input (the eight symbols, then `7`) lexes to the eight symbol tokens, then Illegal. |
| Lexing.Drain | rsb-lib/src/lexer.rs:7-13 | Calling `next_token` until EOF yields the tokens of the remaining characters in order, then EOF once, and leaves the lexer exhausted. |
| Lexing.LexerRun | rsb-lib/src/lexer.rs:39-64 | A lexer built on the test input returns, over ten calls, the eight symbol tokens, Illegal and EOF; a further call past the end returns EOF again. |
| Formula.Node.New | rsb-lib/src/ast.rs:73-75 | A leaf's value is the stored bool. |
| Formula.Node.Negation | rsb-lib/src/ast.rs:89-97 | The negation node's value is the negation of its child's value. |
| Formula.Node.Conjunction | rsb-lib/src/ast.rs:99-109 | The node's value is left and right. |
| Formula.Node.Disjunction | rsb-lib/src/ast.rs:111-121 | The node's value is left or right. |
| Formula.Node.ExclusiveDisjunction | rsb-lib/src/ast.rs:123-133 | The node's value is true iff the operands differ. |
| Formula.Node.Condition | rsb-lib/src/ast.rs:135-145 | The node's value is (not l) or r. |
| Formula.Node.Equivalence | rsb-lib/src/ast.rs:147-157 | The node's value is true iff the operands are equal. |
| ExpTree.New | lib/src/exptree.rs:117-126 | A leaf's value is the stored value; the leaf is the newer library's `Node::new` leaf. |
| ExpTree.Neg | lib/src/exptree.rs:17-30 | The value is the negation of the child's value. |
| ExpTree.And | lib/src/exptree.rs:32-47 | The value is the conjunction of the children's values. |
| ExpTree.Or | lib/src/exptree.rs:49-64 | The value is the disjunction of the children's values. |
| ExpTree.Xor | lib/src/exptree.rs:66-81 | The value is true iff the children's values differ. |
| ExpTree.MatCondition | lib/src/exptree.rs:83-98 | The value is `!(l & !r)`: false exactly when l holds and r does not. |
| ExpTree.Eq | lib/src/exptree.rs:100-115 | The value is true iff the children's values are equal. |
| Rpn.Combine | rsb-lib/src/ast.rs:180-224 | A binary operator succeeds iff two trees are on the stack. It pops right, then left, and pushes `op(left, right)`. Otherwise it fails with the operator's missing-operand panic. |
| Rpn.Finish | rsb-lib/src/ast.rs:231-234 | At the end, the parse succeeds iff exactly one tree is left, and that tree is the result. Otherwise it fails with the stack length. |
| Rpn.RunHeight | rsb-lib/src/ast.rs:170-230 | The builder's loop succeeds iff counting operand arities never goes below an operator's arity and meets no illegal character. The stack it leaves has the counted height. |
| Rpn.ParseAccepts | rsb-lib/src/ast.rs:166-235 | The lexer-driven builder accepts exactly the well-formed formulas. |
| Rpn.StepConstant | rsb-lib/src/ast.rs:172-173 | A constant pushes its leaf. |
| Rpn.StepBinary | rsb-lib/src/ast.rs:180-187 | On any stack, a binary operator character replaces the two topmost trees by its node, with the earlier-pushed tree on the left; the trees below stay as they were. |
| Rpn.TwoConstants | rsb-lib/src/ast.rs:180-224 | Two constants and a binary operator evaluate to the operator applied to the first constant (left) and the second (right). |
| Rpn.NegatedConstant | rsb-lib/src/ast.rs:174-179 | A constant followed by `!` evaluates to its negation. |
| Rpn.BasicVectors | rsb-lib/src/ast.rs:269-288 | The ten basic test vectors hold for the lexer-driven builder. |
| Rpn.SubjectVectors | rsb-lib/src/ast.rs:290-306 | `"11>"` is true and `"10="` is false. |
| Rpn.VectorOrThenAnd | rsb-lib/src/ast.rs:293 | The vector (1 or 0) and 1, written in RPN as `10`, or-bar, `1&`, is true. |
| Rpn.VectorAndOfOr | rsb-lib/src/rpn_bool.rs:119 | The vector 1 and (0 or 1), written in RPN as `101`, or-bar, `&`, is true. |
| Rpn.PanicVector | rsb-lib/src/ast.rs:260-267 | The lexer test input (the eight symbols, then `7`) fails to parse: after `0 & !1` the disjunction finds only one operand. |
| Ast.NodeFromLexer | rsb-lib/src/ast.rs:166-235 | Draining the lexer with the stack loop gives exactly `Parse` of the lexer's remaining input, panics included. `rpn_bool.rs:8-78` is the same loop over `BoolNode`, so this method models both. |
| BoolRpnTree.StackLenCheck | boole_lib/src/boolrpntree.rs:35-42 | Passes iff the stack holds at least the expected number of operands. Otherwise it stops with the operator's missing-operand panic. |
| BoolRpnTree.PopOperands | boole_lib/src/boolrpntree.rs:53-54 | Two unwrapped pops: right, then left. Fails with an unwrap panic iff fewer than two trees are on the stack. |
| BoolRpnTree.StackAddNegation | boole_lib/src/boolrpntree.rs:45-49 | On an empty stack, fails the length check. Otherwise it replaces the top by its negation node. |
| BoolRpnTree.StackAddConjunction | boole_lib/src/boolrpntree.rs:51-56 | On 0 trees, fails the length check (which asks for one). On 1 tree, fails on the second unwrap. Otherwise it pushes `and(left, right)`. |
| BoolRpnTree.StackAddDisjunction | boole_lib/src/boolrpntree.rs:58-63 | Fails the check below two trees; otherwise it pops right then left and pushes `or(left, right)`. |
| BoolRpnTree.StackAddExclusiveDisjunction | boole_lib/src/boolrpntree.rs:65-70 | Fails the check below two trees; otherwise it pushes `xor(left, right)`. |
| BoolRpnTree.StackAddMaterialCondition | boole_lib/src/boolrpntree.rs:72-77 | Fails the check below two trees; otherwise it pushes `mat_condition(left, right)`. |
| BoolRpnTree.StackAddLogicalEquivalence | boole_lib/src/boolrpntree.rs:79-84 | Fails the check below two trees; otherwise it pushes `eq(left, right)`. |
| BoolRpnTree.FromStr | boole_lib/src/boolrpntree.rs:7-33 | The character loop gives `Build` of the formula. It panics on any character outside the language, and unless exactly one tree is left. |
| BoolRpnTree.BuildRunMatchesRun | boole_lib/src/boolrpntree.rs:10-22 | The character-driven loop and the lexer-driven loop accept the same inputs and leave the same stack. |
| BoolRpnTree.BuildAgreesWithParse | boole_lib/src/boolrpntree.rs:7-33 | Both builders accept exactly the well-formed formulas and build the same tree from them. |
| Enumeration.EvaluatorsAgree | boole_lib/src/boolrpntree.rs:86-89 | The tree builder's `result` and the lexer parser's `value` accept the same formulas, the well-formed ones, and agree on their value. |
| Enumeration.RowOk | boole_lib/src/sat.rs:12-20 | Every assignment row evaluates iff the first one does: the substitution never changes the formula's shape. |
| BooleanEvaluation.EvalBinary | lib/src/boolean_evaluation.rs:38-71 | A binary operator succeeds iff two values are on the stack. It replaces the top two values a (below) and b (top) by the operator applied to a and b: conjunction, disjunction, exclusive or, material condition or equality. Everything below stays untouched. |
| BooleanEvaluation.BoolRpnStack.constructor | lib/src/boolean_evaluation.rs:27-31 | The stack starts empty. |
| BooleanEvaluation.BoolRpnStack.OpLenCheck | lib/src/boolean_evaluation.rs:73-82 | Passes iff the stack holds at least the expected number of values. Otherwise it stops with the operator's missing-operand panic. |
| BooleanEvaluation.BoolRpnStack.Negation | lib/src/boolean_evaluation.rs:33-36 | On an empty stack, panics. Otherwise it flips `stack[0]`, the bottom entry, and nothing else. |
| BooleanEvaluation.BoolRpnStack.PopOperands | lib/src/boolean_evaluation.rs:40-41 | Pops b (the top), then a; the stack loses exactly those two. |
| BooleanEvaluation.BoolRpnStack.Conjunction | lib/src/boolean_evaluation.rs:38-43 | Panics below two values; otherwise it replaces a, b by `a & b`. |
| BooleanEvaluation.BoolRpnStack.Disjunction | lib/src/boolean_evaluation.rs:45-50 | Panics below two values; otherwise it replaces a, b by a or b. |
| BooleanEvaluation.BoolRpnStack.ExclusiveDisjunction | lib/src/boolean_evaluation.rs:52-57 | Panics below two values; otherwise it replaces a, b by `a ^ b`. |
| BooleanEvaluation.BoolRpnStack.MaterialCondition | lib/src/boolean_evaluation.rs:59-64 | Panics below two values; otherwise it pushes false iff `a && !b`. |
| BooleanEvaluation.BoolRpnStack.LogicalEquivalence | lib/src/boolean_evaluation.rs:66-71 | Panics below two values; otherwise it replaces a, b by `a == b`. |
| BooleanEvaluation.BoolRpnStack.Eval | lib/src/boolean_evaluation.rs:84-96 | One character: constants push their value, operators act as above, and any other character panics. |
| BooleanEvaluation.BoolRpnStack.Result | lib/src/boolean_evaluation.rs:98-106 | Succeeds iff exactly one value is left, and returns that value. |
| BooleanEvaluation.EvalFormula | lib/src/boolean_evaluation.rs:14-20 | Feeds every character to `eval`, then calls `result`: exactly `EvalSpec`, panics included. |
| BooleanEvaluation.AsWrittenAccepts | lib/src/boolean_evaluation.rs:84-106 | The evaluator as written accepts exactly the well-formed formulas: the misplaced negation changes values, never acceptance. |
| BooleanEvaluation.ShallowMatchesTree | lib/src/boolean_evaluation.rs:33-36 | Where every `!` meets a stack of at most one value, the evaluator as written agrees with the tree parser. |
| BooleanEvaluation.IntendedMatchesTree | lib/src/boolean_evaluation.rs:33-71 | With `!` applied to the top, the evaluator accepts what the tree parser accepts and returns the tree's value. |
| BooleanEvaluation.StepValues | lib/src/boolean_evaluation.rs:84-96 | One corrected evaluator step on the values of a stack of trees is one tree-builder step, read through the values. |
| BooleanEvaluation.NegationCounterexample | lib/src/boolean_evaluation.rs:35 | `"10!&"` gives false as written; with the negation on the top it gives true (`1 & !0`). |
| BooleanEvaluation.BasicVectors | lib/src/boolean_evaluation.rs:113-124 | The ten basic test vectors hold for the evaluator as written. |
| BooleanEvaluation.SubjectVectors | lib/src/boolean_evaluation.rs:127-131 | `"11>"` is true and `"10="` is false. |
| BooleanEvaluation.VectorEquivalence | lib/src/boolean_evaluation.rs:132 | The vector 1 == (0 or (1 or 1)), written in RPN as `1011`, two or-bars, `=`, is true, both for this evaluator and for the tree parser. |
| BooleanEvaluation.IllegalCharVectors | lib/src/boolean_evaluation.rs:135-145 | `"a"` and `"10!x"` panic on their illegal character. |
| BooleanEvaluation.AmbiguousResultVector | lib/src/boolean_evaluation.rs:147-151 | `"10"` panics in `result` with two values left. |
| Labels.ToUpper | rsb-lib/src/lib.rs:29 | Maps ASCII lower-case letters to upper case, and leaves every other character. |
| Labels.Uppercase | rsb-lib/src/lib.rs:29 | Upper-cases each character in place. |
| Labels.Insert | boole_lib/src/sat.rs:6-7 | Inserting into a sorted list without duplicates keeps it so, and adds exactly the new letter. |
| Labels.SortDedup | boole_lib/src/sat.rs:6-7 | `sort` then `dedup` gives a strictly increasing list with the same members. |
| Labels.LabelsOf | boole_lib/src/sat.rs:5-7 | The labels are the formula's distinct upper-case letters, strictly increasing. |
| Labels.SortedUnique | boole_lib/src/sat.rs:5-7 | A strictly increasing list is determined by its members, so the labels are unique. |
| Labels.LabelsFit | boole_lib/src/sat.rs:10 | There are at most 26 labels, so `2u32.pow(l)` does not overflow. |
| Labels.Replace | boole_lib/src/sat.rs:18 | `replace` changes every occurrence of the letter and nothing else. |
| Labels.ValueChar | boole_lib/src/sat.rs:12-17 | The value of a label is `'0'` or `'1'`. |
| Labels.AssignAt | boole_lib/src/sat.rs:11-19 | Under assignment i, every occurrence of label j becomes bit `l-1-j` of i, and every non-letter stays. |
| Labels.WellFormedUnderEveryAssignment | boole_lib/src/sat.rs:11-19 | Either every assignment gives a well-formed formula, or none does. |
| Labels.IndexBits | boole_lib/src/sat.rs:10-17 | Assignment number `Index(v)` gives every label n the value `v[n]`. |
| Labels.EveryAssignmentTried | boole_lib/src/sat.rs:10-19 | Every choice of values for the labels is one of the `2^l` assignments tried. |
| Labels.UppercaseLabels | rsb-lib/src/lib.rs:29-36 | In the upper-cased formula, the ASCII letters, sorted and deduplicated, are exactly its labels. |
| Sat.Sat | boole_lib/src/sat.rs:1-25 | The nested loops with their early exits compute `SatSpec`: the first panic or the first true row ends the search. |
| Sat.SatFromAnswers | boole_lib/src/sat.rs:10-24 | When every row evaluates, the search answers whether some row is true. |
| Sat.SatMeaning | boole_lib/src/sat.rs:1-25 | `sat` panics iff the substituted formula is malformed. Otherwise it is true iff some assignment makes the formula true. |
| Sat.VectorOr | boole_lib/src/sat.rs:34 | A or B is satisfiable. |
| Sat.VectorAnd | boole_lib/src/sat.rs:35 | `"AB&"` is satisfiable, by its last row only. |
| Sat.VectorContradiction | boole_lib/src/sat.rs:36 | `"AA!&"` is unsatisfiable. |
| Sat.VectorXorSelf | boole_lib/src/sat.rs:37 | `"AA^"` is unsatisfiable. |
| TruthTable.Values | lib/src/truth_table.rs:23-31 | The cell value of variable n in row i is bit `l-1-n` of i. |
| TruthTable.PrintHeader | lib/src/truth_table.rs:3-12 | Prints a header line with a cell (bar, space, letter, space) per label followed by the result column, then a separator line with a bar and three dashes per label followed by the result column. |
| TruthTable.AssignRow | lib/src/truth_table.rs:21-32 | The inner loop yields the formula under assignment i, and the line of its value cells. |
| TruthTable.BuilderRow | lib/src/truth_table.rs:21-38 | One row is the value cells followed by the result cell holding the tree builder's value, or that row's panic. |
| TruthTable.BuilderRows | lib/src/truth_table.rs:20-39 | The row loop prints the rows of `2^l` assignments in order and stops at the first panic. |
| TruthTable.PrintTruthTable | lib/src/truth_table.rs:14-40 | Prints exactly `Table(TreeBuilder, formula)`. |
| TruthTable.RowsFromComplete | lib/src/truth_table.rs:20-39 | When every row evaluates, one line per row is printed and nothing panics. |
| TruthTable.RowsFromAt | lib/src/truth_table.rs:20-39 | Line j of the rows is row j's line. |
| TruthTable.TableMeaning | lib/src/truth_table.rs:15-39 | A well-formed formula gives the two header lines and `2^l` rows, row i holding the bits of i and the value under assignment i. Otherwise only the header is printed before the panic. |
| TruthTable.CellAt | lib/src/truth_table.rs:23-31 | Cell n of a row line sits at columns 4n to 4n+3. |
| RsbLib.EvalFormula | rsb-lib/src/lib.rs:12-15 | The value of the tree built from a fresh lexer over the formula, panics included. |
| RsbLib.PrintRows | rsb-lib/src/lib.rs:39-58 | The row loop prints `2^l` rows in order, each evaluated by `eval_formula`, and stops at the first panic. |
| RsbLib.TableRow | rsb-lib/src/lib.rs:40-57 | One row is its value cells followed by the result cell holding `eval_formula`'s value, or that row's panic. |
| RsbLib.PrintTruthTable | rsb-lib/src/lib.rs:28-59 | Prints exactly the table of the upper-cased formula, with `eval_formula` as the evaluator. |
| Powerset.Powerset | rsb-lib/src/powerset.rs:1-10 | The fold returns `Subsets(input)`, which has `2^n` entries. |
| Powerset.SubsetsSelect | rsb-lib/src/powerset.rs:1-10 | Subset k holds exactly the elements whose bit is set in k, so every combination appears exactly once. |
| Powerset.FirstIsEmpty | rsb-lib/src/powerset.rs:2 | The first subset is empty. |
| Powerset.LastIsWhole | rsb-lib/src/powerset.rs:1-10 | The last subset is the whole input. |
| Powerset.SubsetsAreSubsequences | rsb-lib/src/powerset.rs:3-7 | Every subset lists its elements in input order. |
| RsbAdder.Adder | rsb-lib/src/adder.rs:21-28 | Returns `(a + b) mod 2^32`, which equals `a + b` whenever the sum fits. |
| RsbAdder.HalfAdd | rsb-lib/src/adder.rs:22-23 | `((a & b) << 1) + (a ^ b)` is congruent to `a + b` mod `2^32`. |
| RsbAdder.Calls | rsb-lib/src/adder.rs:17-28 | The recursion makes at most 33 calls: the doc comment's O(32). |
| RsbAdder.MaxPlusFiveWraps | rsb-lib/src/adder.rs:91-97 | `u32::MAX + 5` returns 4 rather than panicking. |
| RippleAdder.FullAdder | lib/src/adder.rs:9-13 | Sum bit plus twice the carry out equals the two operand bits plus the carry in. |
| RippleAdder.RoundKeepsSum | lib/src/adder.rs:4-14 | After round i, `ret` plus the carry at bit i+1 is the sum of the operands' low i+1 bits. |
| RippleAdder.Adder | lib/src/adder.rs:1-19 | Returns `a + b` when it fits in 32 bits, and the overflow panic exactly when it does not. The boole library's `adder` (boole_lib/src/adder.rs:1-20), which its multiplier calls, is the same function and is modelled by this member. |
| BooleAdder.Adder2 | boole_lib/src/adder.rs:22-32 | Returns `(a + b) mod 2^32`; the loop ends because the carry's trailing zeros grow. |
| BooleAdder.CarryStep | boole_lib/src/adder.rs:26-30 | One round keeps `result + 2*carry` mod `2^32`, and moves the lowest carry up by at least one bit. |
| BooleAdder.AdderRef | boole_lib/src/adder.rs:34-37 | `a + b`, with debug overflow as a failure exactly when the sum does not fit. |
| RsbMultiplier.Multiplier | rsb-lib/src/multiplier.rs:22-34 | Returns `(a * b) mod 2^32`, which equals `a * b` whenever the product fits. |
| BooleMultiplier.Multiplier | boole_lib/src/multiplier.rs:3-15 | The 32 rounds add the doubled (bit-dropping) multiplicand of every set bit of b. The result is that sum, or the adder's overflow panic when the sum does not fit. |
| BooleMultiplier.PartialSumExact | boole_lib/src/multiplier.rs:7-13 | When the product fits, the first k rounds add up `a` times the low k bits of b. |
| BooleMultiplier.ExactWhenProductFits | boole_lib/src/multiplier.rs:3-15 | When `a * b` fits in 32 bits, the multiplier returns `a * b`. |
| BooleMultiplier.QuarterMaxTimesFiveOverflows | boole_lib/src/multiplier.rs:71-77 | `(u32::MAX / 4) * 5` panics: the rounds' sum does not fit. |
| BooleMultiplier.ShiftOverflowUnnoticed | boole_lib/src/multiplier.rs:12 | `2^31 * 2` overflows, yet the rounds add up to 0. |
| BooleMultiplier.CheckedMultiplier | boole_lib/src/multiplier.rs:3-15 | With the doubling overflow also reported: `a * b` when it fits, a panic exactly when it does not. |
| BooleMultiplier.PeasantStep | boole_lib/src/multiplier.rs:8-12 | One round keeps `ret + a * b` equal to the product. |
| GrayCode.GrayCode | lib/src/gray_code.rs:1-6 | The most significant digit is brought down. The code's bit 31 equals n's, and for every k the code has no set bit at position k or above iff n has none, so the code's highest set bit is n's. |
| GrayCode.LeadingBitKept | lib/src/gray_code.rs:1-6 | For every shift k up to 32, `n ^ (n >> 1)` is zero above position k iff n is. |
| GrayCode.AdjacentCodesDifferInOneBit | rsb-lib/src/graycode.rs:1-3 | Codes of consecutive numbers differ in exactly one bit. |
| GrayCode.DecodeGrayCode | lib/src/gray_code.rs:1-6 | The xor-of-shifts decoder undoes the code. |
| GrayCode.GrayCodeInjective | lib/src/gray_code.rs:4-6 | Distinct numbers have distinct codes. |
| GrayCode.GrayCodeVectors | lib/src/gray_code.rs:17-43 | Both libraries' test vectors hold, 0→0 through 8→12 and the two binary ones. |
| Word.XorAndSum | rsb-lib/src/adder.rs:22-23 | `x + y == (x ^ y) + 2 * (x & y)`: xor is the sum without carries, and `and` marks the carries. |
| Word.MaskBit | boole_lib/src/sat.rs:13 | `i & (1 << k)` is nonzero iff bit k of i is set. |

## Left out

- Output: `println!` in the truth-table printers is modelled as a returned list of lines. Stdout itself is not modelled.
- Labels.ToUpper: `str::to_uppercase` is modelled for ASCII only. Non-ASCII characters are left unchanged, whereas Rust would map some of them, such as `ß` or accented letters.
- Ast.NodeFromLexer: the `Enumerate` index that `ast.rs` pairs with each character is unused by the source and is not modelled.
- `rpn_bool.rs` uses a `BoolNode` that no shown file defines. It is given the shape of `Node` in `ast.rs`, so its parser is the same loop as `Ast.NodeFromLexer`.
- RsbAdder.MaxPlusFiveWraps: the `#[should_panic]` test of the recursive adder is not backed by the code. The model returns the wrapped sum, since the source never panics there.
- RsbMultiplier.Multiplier: its `#[should_panic]` test at rsb-lib/src/multiplier.rs:90-96 is not backed either. The adder it calls wraps, so the model returns the wrapped product.
- BooleAdder.AdderRef: Rust's debug-build overflow panic of `a + b` becomes a `Fail`. A release build would wrap instead, and that build is not modelled.
- The NNF and CNF rewriters (`05_NNF/src/main.rs`, `06_CNF/src/main.rs`) call `negation_normal_form` and `conjunctive_normal_form`. Neither function is defined in any of the library files, so there is nothing to model.
- The iced user interface (`gui/src/main.rs`) and the benchmark harness (`boole_lib/benches/bench.rs`) are not part of this model. The benchmark names `multiplier2`, `multiplier_easy` and `multiplier_ref`, which no library file defines.
- The module wiring in `lib/src/lib.rs` and `boole_lib/src/lib.rs` only re-exports functions and is not modelled.
- The generic `T` of `ExpNode<T>` is instantiated with `bool`, the only type it is used with. The boxed closures become the `Op` tag.

## Findings

| source | as written | input that shows it | evidently intended | confidence | as-written member | corrected member |
|---|---|---|---|---|---|---|
| lib/src/boolean_evaluation.rs:35 | `!` flips `stack[0]`, the bottom of the stack | `"10!&"`: returns false | flip the top entry; `1 & !0` is true | not executed | BooleanEvaluation.NegationCounterexample | BooleanEvaluation.IntendedMatchesTree |
| boole_lib/src/multiplier.rs:12 | `a << 1` silently drops bit 31 of the multiplicand | `multiplier(2^31, 2)`: returns 0 with no panic | report the overflow, as the adder does for a carry out of bit 31 | not executed | BooleMultiplier.ShiftOverflowUnnoticed | BooleMultiplier.CheckedMultiplier |
