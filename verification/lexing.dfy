/** The character-cursor lexer: a cursor over an immutable character buffer
    that recognises the four bracket characters. */
module Lexing {
  import opened Wrappers
  import opened Tokens

  /** Lexer state. `ch` is the character under `currentPosition`, or None at
      end of input. Positions are `usize` in the Rust struct; they never
      come near overflow because they stay within `|input| + 1`. */
  datatype Lexer = Lexer(input: seq<char>, currentPosition: nat, nextPosition: nat, ch: Option<char>)

  /** The state every lexer built by `New` is in: the next position is one past
      the current one, the cursor is inside the buffer or at its end, and `ch`
      is the character under the cursor exactly when there is one. */
  predicate Valid(lx: Lexer) {
    && lx.nextPosition == lx.currentPosition + 1
    && lx.currentPosition <= |lx.input|
    && lx.ch == (if lx.currentPosition < |lx.input| then Some(lx.input[lx.currentPosition]) else None)
  }

  /** Characters left to scan, counting the one in `ch`. For a valid lexer this
      is `|input| - currentPosition`; it is defined for any field values so
      that the step functions need no precondition. */
  function Fuel(lx: Lexer): nat {
    match lx.ch
    case None => 0
    case Some(_) => if lx.nextPosition <= |lx.input| then |lx.input| - lx.nextPosition + 1 else 1
  }

  lemma FuelOfValid(lx: Lexer)
    requires Valid(lx)
    ensures Fuel(lx) == |lx.input| - lx.currentPosition
  {
  }

  /** `input_len`: the length of the buffer. */
  function InputLen(lx: Lexer): nat {
    |lx.input|
  }

  /** The four characters `skip_whitespace` skips. */
  predicate IsWhitespace(c: char) {
    c == ' ' || c == '\r' || c == '\n' || c == '\t'
  }

  /** The token kind `next_token` assigns to a character, if any. */
  function BracketKind(c: char): Option<TokenType> {
    if c == '{' then Some(LBrace)
    else if c == '}' then Some(RBrace)
    else if c == '[' then Some(LBracket)
    else if c == ']' then Some(RBracket)
    else None
  }

  /** The only tokens the lexer produces: a bracket kind with its own
      one-character spelling. */
  predicate IsBracketToken(t: Token) {
    |t.literal| == 1 && BracketKind(t.literal[0]) == Some(t.tokenType)
  }

  lemma BracketTokenKinds(t: Token)
    requires IsBracketToken(t)
    ensures t.tokenType in {LBrace, RBrace, LBracket, RBracket}
    ensures t.tokenType == LBrace <==> t.literal == "{"
    ensures t.tokenType == RBrace <==> t.literal == "}"
    ensures t.tokenType == LBracket <==> t.literal == "["
    ensures t.tokenType == RBracket <==> t.literal == "]"
  {
  }

  /** `read_char`: move the cursor to the next position and load the character
      there, or None once the buffer is exhausted. */
  function ReadChar(lx: Lexer): (r: Lexer)
    ensures r.input == lx.input
    ensures lx.ch.Some? ==> Fuel(r) < Fuel(lx)
  {
    var ch := if lx.nextPosition >= InputLen(lx) then None else Some(lx.input[lx.nextPosition]);
    Lexer(lx.input, lx.nextPosition, lx.nextPosition + 1, ch)
  }

  /** `read_char` moves the cursor to the old next position, keeps the next
      position one ahead, and loads the character there exactly when the
      cursor is still inside the buffer. */
  lemma ReadCharSteps(lx: Lexer)
    ensures var r := ReadChar(lx);
      && r.currentPosition == lx.nextPosition
      && r.nextPosition == r.currentPosition + 1
      && (r.ch.Some? <==> r.currentPosition < |r.input|)
      && (r.ch.Some? ==> r.ch.value == r.input[r.currentPosition])
      && (lx.nextPosition <= |lx.input| ==> Valid(r))
      && (Valid(lx) && lx.ch.Some? ==> Valid(r) && r.currentPosition == lx.currentPosition + 1)
  {
  }

  /** `Lexer::new`: the cursor on the first character (None for empty input). */
  function New(input: string): (lx: Lexer)
    ensures Valid(lx)
    ensures lx.input == input
    ensures lx.currentPosition == 0 && lx.nextPosition == 1
    ensures lx.ch == (if |input| == 0 then None else Some(input[0]))
  {
    ReadChar(Lexer(input, 0, 0, None))
  }

  /** Every character of `s` in `[lo, hi)` is whitespace. */
  ghost predicate WhitespaceBetween(s: seq<char>, lo: nat, hi: nat) {
    hi <= |s| && forall i :: lo <= i < hi ==> IsWhitespace(s[i])
  }

  /** `skip_whitespace`: advance while the current character is one of the
      four whitespace characters. */
  function SkipWhitespace(lx: Lexer): (r: Lexer)
    ensures r.input == lx.input
    ensures Fuel(r) <= Fuel(lx)
    decreases Fuel(lx)
  {
    if lx.ch.Some? && IsWhitespace(lx.ch.value) then SkipWhitespace(ReadChar(lx)) else lx
  }

  /** After `skip_whitespace` the current character is absent or not
      whitespace; a lexer already there is unchanged; from a valid state the
      result is valid, the cursor only moved forward, and every character it
      passed over is whitespace. */
  lemma {:induction false} SkipWhitespaceSkipsOnlyWhitespace(lx: Lexer)
    ensures var r := SkipWhitespace(lx);
      && (r.ch.None? || !IsWhitespace(r.ch.value))
      && (lx.ch.None? || !IsWhitespace(lx.ch.value) ==> r == lx)
      && (Valid(lx) ==> Valid(r) && lx.currentPosition <= r.currentPosition)
      && (Valid(lx) ==> WhitespaceBetween(lx.input, lx.currentPosition, r.currentPosition))
    decreases Fuel(lx)
  {
    if lx.ch.Some? && IsWhitespace(lx.ch.value) {
      ReadCharSteps(lx);
      SkipWhitespaceSkipsOnlyWhitespace(ReadChar(lx));
    }
  }

  /** A lexer on which `next_token` makes no progress: at end of input, or on
      a character that is neither whitespace nor a bracket. */
  predicate Stuck(lx: Lexer) {
    lx.ch.None? || (!IsWhitespace(lx.ch.value) && BracketKind(lx.ch.value).None?)
  }

  /** `next_token`: skip whitespace, then emit the bracket under the cursor and
      step past it. At end of input, and on any other character, no token is
      produced and the cursor stays where the whitespace skip left it. */
  function NextToken(lx: Lexer): (r: (Option<Token>, Lexer))
    ensures r.1.input == lx.input
    ensures r.0.Some? ==> Fuel(r.1) < Fuel(lx)
  {
    var s := SkipWhitespace(lx);
    var kind := if s.ch.Some? then BracketKind(s.ch.value) else None;
    if kind.Some? then (Some(NewToken(kind.value, CharToString(s.ch.value))), ReadChar(s)) else (None, s)
  }

  /** The three outcomes of `next_token` from a valid state, in terms of the
      position `p` where the whitespace skip stops: end of input gives None,
      a bracket gives its token and moves to `p + 1`, any other character
      gives None and leaves the cursor on it. */
  lemma NextTokenCases(lx: Lexer)
    requires Valid(lx)
    ensures var s := SkipWhitespace(lx); var p := s.currentPosition;
      && Valid(s)
      && lx.currentPosition <= p <= |lx.input|
      && WhitespaceBetween(lx.input, lx.currentPosition, p)
      && (p == |lx.input| ==> NextToken(lx) == (None, s))
      && (p < |lx.input| ==> !IsWhitespace(lx.input[p]))
      && (p < |lx.input| && BracketKind(lx.input[p]).Some? ==>
            && NextToken(lx) == (Some(Token(BracketKind(lx.input[p]).value, [lx.input[p]])), ReadChar(s))
            && Valid(ReadChar(s)) && ReadChar(s).currentPosition == p + 1)
      && (p < |lx.input| && BracketKind(lx.input[p]).None? ==> NextToken(lx) == (None, s))
  {
    SkipWhitespaceSkipsOnlyWhitespace(lx);
    ReadCharSteps(SkipWhitespace(lx));
  }

  /** At end of input `next_token` returns None and changes nothing. */
  lemma NextTokenAtEnd(lx: Lexer)
    requires lx.ch.None?
    ensures NextToken(lx) == (None, lx)
  {
    SkipWhitespaceSkipsOnlyWhitespace(lx);
  }

  /** Every token `next_token` produces is a bracket with its own spelling. */
  lemma NextTokenOnlyBrackets(lx: Lexer)
    requires NextToken(lx).0.Some?
    ensures IsBracketToken(NextToken(lx).0.value)
  {
  }

  /** Every token `next_token` produces is the one `build_token` makes from
      the character the whitespace skip stopped on. */
  lemma NextTokenBuildsFromChar(lx: Lexer)
    requires NextToken(lx).0.Some?
    ensures SkipWhitespace(lx).ch.Some?
    ensures NextToken(lx).0.value == BuildToken(NextToken(lx).0.value.tokenType, SkipWhitespace(lx).ch.value, CharToString)
  {
    var s := SkipWhitespace(lx);
    BuildTokenFromChar(NextToken(lx).0.value.tokenType, s.ch.value);
  }

  /** When `next_token` returns None the lexer is left stuck. */
  lemma NextTokenNoneIsStuck(lx: Lexer)
    ensures NextToken(lx).0.None? ==> Stuck(NextToken(lx).1)
  {
    SkipWhitespaceSkipsOnlyWhitespace(lx);
  }

  /** Once `next_token` has returned None, the lexer is at a fixed point: every
      further call returns None and changes nothing. */
  lemma NoTokenRepeats(lx: Lexer)
    requires NextToken(lx).0.None?
    ensures NextToken(NextToken(lx).1) == (None, NextToken(lx).1)
  {
    SkipWhitespaceSkipsOnlyWhitespace(lx);
    SkipWhitespaceSkipsOnlyWhitespace(NextToken(lx).1);
  }

  /** On a non-whitespace character that is not a bracket, `next_token`
      returns None and leaves the cursor on that character. */
  lemma OtherCharacterNotConsumed(lx: Lexer)
    requires Valid(lx) && lx.ch.Some?
    requires !IsWhitespace(lx.ch.value) && BracketKind(lx.ch.value).None?
    ensures NextToken(lx) == (None, lx)
  {
    SkipWhitespaceSkipsOnlyWhitespace(lx);
  }

  /** The tokens produced by calling `next_token` until it returns None. */
  function Tokenize(lx: Lexer): (ts: seq<Token>)
    ensures forall i :: 0 <= i < |ts| ==> IsBracketToken(ts[i])
    ensures |ts| <= Fuel(lx)
    decreases Fuel(lx)
  {
    var step := NextToken(lx);
    if step.0.None? then []
    else [step.0.value] + Tokenize(step.1)
  }

  /** Reference: the characters of `s` other than whitespace, in order. */
  function Strip(s: seq<char>): seq<char> {
    if |s| == 0 then []
    else (if IsWhitespace(s[0]) then [] else [s[0]]) + Strip(s[1..])
  }

  /** Reference: one bracket token per character of the longest prefix of `s`
      made of bracket characters. */
  function Brackets(s: seq<char>): seq<Token> {
    if |s| == 0 then []
    else match BracketKind(s[0])
      case None => []
      case Some(k) => [Token(k, [s[0]])] + Brackets(s[1..])
  }

  lemma {:induction false} StripAppend(a: seq<char>, b: seq<char>)
    ensures Strip(a + b) == Strip(a) + Strip(b)
  {
    if |a| == 0 {
      assert a + b == b;
    } else {
      assert (a + b)[1..] == a[1..] + b;
      StripAppend(a[1..], b);
    }
  }

  lemma {:induction false} StripAllWhitespace(a: seq<char>)
    requires forall i :: 0 <= i < |a| ==> IsWhitespace(a[i])
    ensures Strip(a) == []
  {
    if |a| > 0 {
      StripAllWhitespace(a[1..]);
    }
  }

  /** Removing whitespace from a suffix ignores a leading run of whitespace. */
  lemma StripSkipsWhitespace(input: seq<char>, lo: nat, hi: nat)
    requires lo <= hi && WhitespaceBetween(input, lo, hi)
    ensures Strip(input[lo..]) == Strip(input[hi..])
  {
    assert input[lo..] == input[lo..hi] + input[hi..];
    StripAllWhitespace(input[lo..hi]);
    StripAppend(input[lo..hi], input[hi..]);
  }

  /** Removing whitespace from a suffix that starts with a non-whitespace
      character keeps that character first. */
  lemma StripKeepsFirst(input: seq<char>, p: nat)
    requires p < |input| && !IsWhitespace(input[p])
    ensures Strip(input[p..]) == [input[p]] + Strip(input[p + 1..])
  {
    assert input[p..][1..] == input[p + 1..];
  }

  /** One `next_token` call peels exactly the first reference token off the
      rest of the input: None when the reference sequence is empty, otherwise
      its first token, leaving a valid lexer whose rest yields the others. */
  lemma NextTokenFollowsReference(lx: Lexer)
    requires Valid(lx)
    ensures var step := NextToken(lx); var expected := Brackets(Strip(lx.input[lx.currentPosition..]));
      && (step.0.None? <==> expected == [])
      && (step.0.Some? ==>
            && Valid(step.1)
            && expected == [step.0.value] + Brackets(Strip(lx.input[step.1.currentPosition..])))
  {
    var input := lx.input;
    NextTokenCases(lx);
    var s := SkipWhitespace(lx);
    var p := s.currentPosition;
    StripSkipsWhitespace(input, lx.currentPosition, p);
    if p == |input| {
      assert input[p..] == [];
    } else {
      StripKeepsFirst(input, p);
    }
  }

  /** Tokenising from any valid state yields the bracket tokens of the rest of
      the input with whitespace removed, up to the first character that is
      not a bracket. */
  lemma {:induction false} TokenizeFollowsReference(lx: Lexer)
    requires Valid(lx)
    ensures Tokenize(lx) == Brackets(Strip(lx.input[lx.currentPosition..]))
    decreases Fuel(lx)
  {
    NextTokenFollowsReference(lx);
    var step := NextToken(lx);
    if step.0.Some? {
      TokenizeFollowsReference(step.1);
    }
  }

  /** `next_token` answers None both at end of input and on a character it
      does not recognise, so a caller cannot tell the two apart: on `x` the
      first call returns None although a character remains. The two inputs
      are parameters fixed by the precondition rather than inline literals:
      this only keeps the verifier from unfolding the literals eagerly. */
  lemma EndAndUnknownLookAlike(empty: string, unknown: string)
    requires empty == "" && unknown == "x"
    ensures NextToken(New(empty)).0 == NextToken(New(unknown)).0 == None
    ensures NextToken(New(empty)).1.currentPosition == |empty|
    ensures NextToken(New(unknown)).1.currentPosition < |unknown|
  {
    NextTokenAtEnd(New(empty));
    OtherCharacterNotConsumed(New(unknown));
  }

  /** Tokenising a whole input equals the reference token sequence. */
  lemma TokenizeInput(input: string)
    ensures Tokenize(New(input)) == Brackets(Strip(input))
  {
    TokenizeFollowsReference(New(input));
    assert input[0..] == input;
  }

  /** Whitespace inserted anywhere in the input leaves the token sequence
      unchanged. */
  lemma WhitespaceInsertionIgnored(a: string, w: string, b: string)
    requires forall i :: 0 <= i < |w| ==> IsWhitespace(w[i])
    ensures Tokenize(New(a + w + b)) == Tokenize(New(a + b))
  {
    StripAppend(a + w, b);
    StripAppend(a, w);
    StripAppend(a, b);
    StripAllWhitespace(w);
    assert Strip(a + w + b) == Strip(a + b);
    TokenizeInput(a + w + b);
    TokenizeInput(a + b);
  }

  /** The lexer after `n` successive `next_token` calls. */
  function Calls(lx: Lexer, n: nat): Lexer {
    if n == 0 then lx else NextToken(Calls(lx, n - 1)).1
  }

  /** The result of the `(n+1)`-th `next_token` call. */
  function Emitted(lx: Lexer, n: nat): Option<Token> {
    NextToken(Calls(lx, n)).0
  }

  lemma {:induction false} CallsFromNext(lx: Lexer, n: nat)
    ensures Calls(lx, n + 1) == Calls(NextToken(lx).1, n)
  {
    if n > 0 {
      CallsFromNext(lx, n - 1);
    }
  }

  lemma {:induction false} CallsFromStuck(lx: Lexer, n: nat)
    requires NextToken(lx) == (None, lx)
    ensures Calls(lx, n) == lx
  {
    if n > 0 {
      CallsFromStuck(lx, n - 1);
    }
  }

  lemma EmittedFromNext(lx: Lexer, n: nat)
    ensures Emitted(lx, n + 1) == Emitted(NextToken(lx).1, n)
  {
    CallsFromNext(lx, n);
  }

  lemma EmittedFromFixedPoint(lx: Lexer, n: nat)
    requires NextToken(lx) == (None, lx)
    ensures Emitted(lx, n) == None
  {
    CallsFromStuck(lx, n);
  }

  /** When the first call produces nothing, every later call does too. */
  lemma EmittedAfterNone(lx: Lexer, n: nat)
    requires NextToken(lx).0.None?
    ensures Emitted(lx, n) == None
  {
    if n > 0 {
      EmittedFromNext(lx, n - 1);
      NoTokenRepeats(lx);
      EmittedFromFixedPoint(NextToken(lx).1, n - 1);
    }
  }

  lemma TokenizeAfterNone(lx: Lexer)
    requires NextToken(lx).0.None?
    ensures Tokenize(lx) == []
  {
  }

  lemma TokenizeAfterSome(lx: Lexer)
    requires NextToken(lx).0.Some?
    ensures Tokenize(lx) == [NextToken(lx).0.value] + Tokenize(NextToken(lx).1)
  {
  }

  /** When the first call produces a token, both the later calls and the rest
      of the token sequence continue from the lexer that call left. */
  lemma EmittedAfterSome(lx: Lexer, n: nat)
    requires NextToken(lx).0.Some?
    requires Emitted(NextToken(lx).1, n) == At(Tokenize(NextToken(lx).1), n)
    ensures Emitted(lx, n + 1) == At(Tokenize(lx), n + 1)
  {
    EmittedFromNext(lx, n);
    TokenizeAfterSome(lx);
    AtCons(NextToken(lx).0.value, Tokenize(NextToken(lx).1), n);
  }

  /** The `(n+1)`-th `next_token` call yields the `n`-th token of `Tokenize`,
      or None once the sequence is exhausted. */
  lemma {:induction false} EmittedFollowsTokenize(lx: Lexer, n: nat)
    ensures Emitted(lx, n) == At(Tokenize(lx), n)
    decreases n
  {
    if NextToken(lx).0.None? {
      EmittedAfterNone(lx, n);
      TokenizeAfterNone(lx);
    } else if n > 0 {
      EmittedFollowsTokenize(NextToken(lx).1, n - 1);
      EmittedAfterSome(lx, n - 1);
    }
  }

  /** Every state reached by `next_token` calls from a valid lexer is valid,
      and the cursor only moves forward. */
  lemma {:induction false} CallsStayValid(lx: Lexer, n: nat)
    requires Valid(lx)
    ensures Valid(Calls(lx, n))
    ensures lx.currentPosition <= Calls(lx, n).currentPosition <= |lx.input|
    ensures Calls(lx, n).input == lx.input
  {
    if n > 0 {
      CallsStayValid(lx, n - 1);
      NextTokenCases(Calls(lx, n - 1));
    }
  }

  /** The expectations of `test_tokenize`: on `{}` the first two `next_token`
      calls yield the opening and then the closing brace. As in the lemmas
      below, the input is a parameter fixed by the precondition rather than an
      inline literal, only to keep the verifier from unfolding it eagerly. */
  lemma TestTokenizeBraces(input: string)
    requires input == "{}"
    ensures Emitted(New(input), 0) == Some(NewToken(LBrace, "{"))
    ensures Emitted(New(input), 1) == Some(NewToken(RBrace, "}"))
  {
    TestCallsPair(input, '{', '}', "");
  }

  /** The expectations of `test_tokenize`: on `[]` the first two `next_token`
      calls yield the opening and then the closing bracket. */
  lemma TestTokenizeBrackets(input: string)
    requires input == "[]"
    ensures Emitted(New(input), 0) == Some(NewToken(LBracket, "["))
    ensures Emitted(New(input), 1) == Some(NewToken(RBracket, "]"))
  {
    TestCallsPair(input, '[', ']', "");
  }

  /** The first two `next_token` calls on an opening and a closing bracket,
      with whitespace between them, yield their two tokens. */
  lemma TestCallsPair(input: string, open: char, close: char, ws: string)
    requires open in "{[" && close in "}]"
    requires forall i :: 0 <= i < |ws| ==> IsWhitespace(ws[i])
    requires input == [open] + ws + [close]
    ensures Emitted(New(input), 0) == Some(NewToken(BracketKind(open).value, [open]))
    ensures Emitted(New(input), 1) == Some(NewToken(BracketKind(close).value, [close]))
  {
    TestTokenizePair(input, open, close, ws);
    EmittedFollowsTokenize(New(input), 0);
    EmittedFollowsTokenize(New(input), 1);
  }

  lemma StripPair(input: string, open: char, close: char, ws: string)
    requires !IsWhitespace(open) && !IsWhitespace(close)
    requires forall i :: 0 <= i < |ws| ==> IsWhitespace(ws[i])
    requires input == [open] + ws + [close]
    ensures Strip(input) == [open, close]
  {
    StripAppend([open] + ws, [close]);
    StripAppend([open], ws);
    StripAllWhitespace(ws);
    assert [open][1..] == [] == [close][1..];
  }

  lemma BracketsPair(open: char, close: char)
    requires BracketKind(open).Some? && BracketKind(close).Some?
    ensures Brackets([open, close]) ==
              [NewToken(BracketKind(open).value, [open]), NewToken(BracketKind(close).value, [close])]
  {
    assert [close][1..] == [];
    assert Brackets([close]) == [NewToken(BracketKind(close).value, [close])];
    assert [open, close][1..] == [close];
  }

  /** The whole token sequence of a test input: whitespace around and
      between two brackets is dropped and each bracket becomes its token. */
  lemma TestTokenizePair(input: string, open: char, close: char, ws: string)
    requires open in "{[" && close in "}]"
    requires forall i :: 0 <= i < |ws| ==> IsWhitespace(ws[i])
    requires input == [open] + ws + [close]
    ensures Tokenize(New(input)) ==
              [NewToken(BracketKind(open).value, [open]), NewToken(BracketKind(close).value, [close])]
  {
    TokenizeInput(input);
    StripPair(input, open, close, ws);
    BracketsPair(open, close);
  }
}
