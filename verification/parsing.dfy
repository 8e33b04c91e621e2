/** The parser's two-slot lookahead window over the lexer's token stream. */
module Parsing {
  import opened Wrappers
  import opened Tokens
  import Lexing

  /** Parser state: the lexer it owns and the two buffered tokens. */
  datatype Parser = Parser(lexer: Lexing.Lexer, currentToken: Option<Token>, peekToken: Option<Token>)

  /** The private `next_token` shift: the peeked token becomes current and
      exactly one lexer call refills the peek slot. The lexer's result is
      passed through as it is. */
  function NextToken(p: Parser): (q: Parser)
    ensures q.currentToken == p.peekToken
    ensures (q.peekToken, q.lexer) == Lexing.NextToken(p.lexer)
    ensures q.lexer.input == p.lexer.input
  {
    var step := Lexing.NextToken(p.lexer);
    Parser(step.1, p.peekToken, step.0)
  }

  /** `Parser::new`: both slots start empty and two shifts prime them, so the
      window holds the lexer's first and second results and the lexer has
      been called exactly twice. */
  function New(lexer: Lexing.Lexer): (p: Parser)
    ensures p.currentToken == Lexing.Emitted(lexer, 0)
    ensures p.peekToken == Lexing.Emitted(lexer, 1)
    ensures p.lexer == Lexing.Calls(lexer, 2)
  {
    NextToken(NextToken(Parser(lexer, None, None)))
  }

  /** The parser after `k` shifts. */
  function Shifts(p: Parser, k: nat): Parser {
    if k == 0 then p else NextToken(Shifts(p, k - 1))
  }

  /** After `k` shifts past construction the window holds the results of the
      `(k+1)`-th and `(k+2)`-th lexer calls, and the lexer has been called
      exactly `k + 2` times: one call per shift, current always the old peek. */
  lemma {:induction false} WindowFollowsLexerCalls(lexer: Lexing.Lexer, k: nat)
    ensures Shifts(New(lexer), k).currentToken == Lexing.Emitted(lexer, k)
    ensures Shifts(New(lexer), k).peekToken == Lexing.Emitted(lexer, k + 1)
    ensures Shifts(New(lexer), k).lexer == Lexing.Calls(lexer, k + 2)
  {
    if k > 0 {
      WindowFollowsLexerCalls(lexer, k - 1);
    }
  }

  /** For a parser built over an input, after `k` shifts the window holds the
      `k`-th and `(k+1)`-th bracket tokens of the input with whitespace
      removed, or None past the last one. */
  lemma WindowFollowsTokenStream(input: string, k: nat)
    ensures Shifts(New(Lexing.New(input)), k).currentToken == At(Lexing.Brackets(Lexing.Strip(input)), k)
    ensures Shifts(New(Lexing.New(input)), k).peekToken == At(Lexing.Brackets(Lexing.Strip(input)), k + 1)
  {
    var lexer := Lexing.New(input);
    WindowFollowsLexerCalls(lexer, k);
    Lexing.EmittedFollowsTokenize(lexer, k);
    Lexing.EmittedFollowsTokenize(lexer, k + 1);
    Lexing.TokenizeInput(input);
  }

  /** Once the lexer has nothing more to give, one shift empties the peek slot
      for good and leaves the lexer at a state that gives nothing either. */
  lemma {:induction false} ExhaustedLexerStaysExhausted(p: Parser, k: nat)
    requires Lexing.NextToken(p.lexer).0.None?
    requires k >= 1
    ensures Shifts(p, k).peekToken.None?
    ensures Lexing.NextToken(Shifts(p, k).lexer).0.None?
  {
    if k == 1 {
      Lexing.NoTokenRepeats(p.lexer);
    } else {
      ExhaustedLexerStaysExhausted(p, k - 1);
      Lexing.NoTokenRepeats(Shifts(p, k - 1).lexer);
    }
  }

  /** Once the lexer has reached the end of what it can tokenise, two more
      shifts make both slots None, and every later shift keeps them None. */
  lemma ExhaustedWindowEmpties(p: Parser, k: nat)
    requires Lexing.NextToken(p.lexer).0.None?
    requires k >= 2
    ensures Shifts(p, k).currentToken.None?
    ensures Shifts(p, k).peekToken.None?
  {
    ExhaustedLexerStaysExhausted(p, k);
    ExhaustedLexerStaysExhausted(p, k - 1);
  }

  /** A parser over empty input has both slots None. */
  lemma NewOnEmptyInput()
    ensures New(Lexing.New("")).currentToken.None?
    ensures New(Lexing.New("")).peekToken.None?
  {
    Lexing.NextTokenAtEnd(Lexing.New(""));
  }

  /** A parser over `{}` starts with the opening brace current and the closing
      brace peeked. The input is a parameter fixed by the precondition, as in
      `Lexing.TestTokenizeBraces`, only to keep verification fast. */
  lemma NewOnBraces(input: string)
    requires input == "{}"
    ensures New(Lexing.New(input)).currentToken == Some(NewToken(LBrace, "{"))
    ensures New(Lexing.New(input)).peekToken == Some(NewToken(RBrace, "}"))
  {
    Lexing.TestTokenizeBraces(input);
  }
}
