/** Token classification of the propositional RPN language: one token per
    input character, plus an end-of-input marker. */
module Tokens {

  datatype Token = False | True | Negation | And | Or | Xor | Cond | Eq | EOF | Illegal

  /** The eight characters of the language, in the order of the table. */
  const Symbols: seq<char> := ['0', '1', '!', '&', '|', '^', '>', '=']

  /** `From<char>`: the character table. */
  function FromChar(c: char): (t: Token)
    ensures t != EOF
    ensures t == Illegal <==> c !in Symbols
    ensures (t == False <==> c == '0') && (t == True <==> c == '1')
    ensures (t == Negation <==> c == '!') && (t == And <==> c == '&')
    ensures (t == Or <==> c == '|') && (t == Xor <==> c == '^')
    ensures (t == Cond <==> c == '>') && (t == Eq <==> c == '=')
  {
    match c
    case '0' => False
    case '1' => True
    case '!' => Negation
    case '&' => And
    case '|' => Or
    case '^' => Xor
    case '>' => Cond
    case '=' => Eq
    case _ => Illegal
  }

  /** `Token::eof`: the end marker, which no character produces. */
  function Eof(): (t: Token)
    ensures forall c: char :: FromChar(c) != t
  {
    EOF
  }

  /** The table is injective on the eight symbols: distinct symbols give
      distinct tokens. */
  lemma SymbolsDistinct(c: char, d: char)
    requires c in Symbols && d in Symbols && c != d
    ensures FromChar(c) != FromChar(d)
  {
  }
}
