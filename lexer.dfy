/** The character-at-a-time lexer: each call consumes exactly one
    character and classifies it; once the input is exhausted every call
    returns the end marker. */
module Lexing {
  import opened Wrappers
  import opened Tokens

  /** The tokens a lexer hands out for `s` before the end marker. */
  function TokensOf(s: seq<char>): (ts: seq<Token>)
    ensures |ts| == |s|
    ensures forall i :: 0 <= i < |s| ==> ts[i] == FromChar(s[i])
    ensures forall i :: 0 <= i < |s| ==> ts[i] != EOF
  {
    seq(|s|, i requires 0 <= i < |s| => FromChar(s[i]))
  }

  lemma TokensOfCons(s: seq<char>)
    requires s != []
    ensures TokensOf(s) == [FromChar(s[0])] + TokensOf(s[1..])
  {
  }

  class Lexer {
    /** The text being lexed. */
    const input: seq<char>
    /** The position of the character iterator in `input`. */
    var pos: nat

    ghost predicate Valid()
      reads this
    {
      pos <= |input|
    }

    /** The characters the iterator has not yet handed out. */
    function Rest(): seq<char>
      reads this
      requires Valid()
    {
      input[pos..]
    }

    /** `Lexer::new`: the iterator starts at the first character. */
    constructor (input: seq<char>)
      ensures Valid() && this.input == input && Rest() == input
    {
      this.input := input;
      pos := 0;
    }

    /** `next_char`: advance the character iterator by one. */
    method NextChar() returns (c: Option<char>)
      requires Valid()
      modifies this
      ensures Valid()
      ensures old(Rest()) == [] ==> c == None && Rest() == []
      ensures old(Rest()) != [] ==> c == Some(old(Rest())[0]) && Rest() == old(Rest())[1..]
    {
      if pos < |input| {
        c := Some(input[pos]);
        pos := pos + 1;
      } else {
        c := None;
      }
    }

    /** `next_token`: the token of the next character, or the end marker. */
    method NextToken() returns (t: Token)
      requires Valid()
      modifies this
      ensures Valid()
      ensures old(Rest()) == [] ==> t == Eof() && Rest() == []
      ensures old(Rest()) != [] ==> t == FromChar(old(Rest())[0]) && Rest() == old(Rest())[1..]
    {
      var c := NextChar();
      match c
      case Some(value) => t := FromChar(value);
      case None => t := Eof();
    }
  }

  /** Calls `next_token` until the end marker comes back: the tokens of
      the remaining characters in order, then the end marker once. */
  method Drain(lexer: Lexer) returns (ts: seq<Token>)
    requires lexer.Valid()
    modifies lexer
    ensures lexer.Valid() && lexer.Rest() == []
    ensures ts == TokensOf(old(lexer.Rest())) + [EOF]
  {
    ghost var all := lexer.Rest();
    ts := [];
    var t := lexer.NextToken();
    DrainStep(all, [], all);
    while t != EOF
      invariant lexer.Valid()
      invariant t == EOF ==> lexer.Rest() == [] && ts == TokensOf(all)
      invariant t != EOF ==> TokensOf(all) == ts + [t] + TokensOf(lexer.Rest())
      decreases |lexer.Rest()| + (if t == EOF then 0 else 1)
    {
      ts := ts + [t];
      ghost var rest := lexer.Rest();
      t := lexer.NextToken();
      DrainStep(all, ts, rest);
    }
    ts := ts + [t];
  }

  // One call of `Drain`'s loop: the token of the next character moves from
  // the remaining input to the handed-out tokens.
  lemma DrainStep(all: seq<char>, done: seq<Token>, rest: seq<char>)
    requires TokensOf(all) == done + TokensOf(rest)
    ensures rest == [] ==> done == TokensOf(all)
    ensures rest != [] ==> TokensOf(all) == done + [FromChar(rest[0])] + TokensOf(rest[1..])
  {
    if rest != [] {
      TokensOfCons(rest);
    }
  }

  /** The lexer's own test: "01!&|^>=7" gives the eight symbol tokens and
      then an illegal token. */
  lemma LexerVector()
    ensures TokensOf("01!&|^>=7") == [False, True, Negation, And, Or, Xor, Cond, Eq, Illegal]
  {
  }

  /** The same test driven through a `Lexer`: ten calls of `next_token`
      hand out the nine tokens and the end marker, and a further call past
      the end returns the end marker again. */
  method LexerRun() returns (ts: seq<Token>, after: Token)
    ensures ts == [False, True, Negation, And, Or, Xor, Cond, Eq, Illegal, EOF]
    ensures after == EOF
  {
    var lexer := new Lexer("01!&|^>=7");
    ts := Drain(lexer);
    LexerVector();
    assert ts == [False, True, Negation, And, Or, Xor, Cond, Eq, Illegal] + [EOF];
    after := lexer.NextToken();
  }
}
