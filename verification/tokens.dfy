/** The token vocabulary: token kinds, the token record and the keyword table. */
module Tokens {
  import opened Wrappers

  /** The closed set of token kinds. Only the four brackets are ever produced
      by the lexer; the others are declared vocabulary. */
  datatype TokenType =
    | LBrace | RBrace | LBracket | RBracket
    | Colon | Comma | Period
    | Plus | Minus
    | Integer | String
    | Null | True | False
    | EOF

  /** A token: its kind and the literal text it was scanned from. */
  datatype Token = Token(tokenType: TokenType, literal: string)

  /** `Token::new`: the token carries exactly the kind and literal it was given. */
  function NewToken(tokenType: TokenType, literal: string): (t: Token)
    ensures t.tokenType == tokenType && t.literal == literal
  {
    Token(tokenType, literal)
  }

  /** Two tokens built by `NewToken` are equal exactly when kind and literal agree. */
  lemma NewTokenInjective(k: TokenType, s: string, k': TokenType, s': string)
    ensures NewToken(k, s) == NewToken(k', s') <==> k == k' && s == s'
  {
  }

  /** `build_token`: any value with a textual rendering `toString` becomes the
      token of that kind whose literal is the rendering. */
  function BuildToken<T>(tokenType: TokenType, literal: T, toString: T -> string): (t: Token)
    ensures t.tokenType == tokenType && t.literal == toString(literal)
  {
    NewToken(tokenType, toString(literal))
  }

  /** `char::to_string`: the one-character string. */
  function CharToString(c: char): (s: string)
    ensures |s| == 1 && s[0] == c
  {
    [c]
  }

  /** What the lexer builds from a character: `build_token` with the
      character rendering gives the one-character token. */
  lemma BuildTokenFromChar(k: TokenType, c: char)
    ensures BuildToken(k, c, CharToString) == NewToken(k, [c])
    ensures BuildToken(k, c, CharToString).literal[0] == c
  {
  }

  /** The kinds the keyword table may produce. */
  predicate IsKeywordKind(k: TokenType) {
    k.Null? || k.True? || k.False?
  }

  /** Reference table in the other direction: how each keyword kind is spelled. */
  function KeywordSpelling(k: TokenType): Option<string> {
    match k
    case Null => Some("null")
    case True => Some("true")
    case False => Some("false")
    case _ => None
  }

  /** `lookup_keyword`: the exact lower-case spellings of the three JSON
      keywords map to their kinds; every other string maps to None. */
  function LookupKeyword(literal: string): (r: Option<TokenType>)
    ensures r.Some? <==> literal in {"null", "true", "false"}
    ensures r.Some? ==> IsKeywordKind(r.value)
    ensures r.Some? ==> KeywordSpelling(r.value) == Some(literal)
  {
    if literal == "null" then Some(Null)
    else if literal == "true" then Some(True)
    else if literal == "false" then Some(False)
    else None
  }

  /** The keyword table and the spelling table are inverse to each other, in
      both directions. */
  lemma LookupKeywordInvertsSpelling(literal: string, k: TokenType)
    ensures LookupKeyword(literal) == Some(k) <==> KeywordSpelling(k) == Some(literal)
  {
  }

  /** A string is a keyword exactly when it is one of the three spellings. */
  lemma LookupKeywordDomain(literal: string)
    ensures LookupKeyword(literal).Some? <==> literal in {"null", "true", "false"}
  {
  }

  /** The three keywords map to three distinct kinds. */
  lemma KeywordKindsDistinct()
    ensures LookupKeyword("null") == Some(Null)
    ensures LookupKeyword("true") == Some(True)
    ensures LookupKeyword("false") == Some(False)
    ensures Null != True && True != False && Null != False
  {
  }

  /** Case variants, prefixes and extensions of a keyword are not keywords. */
  lemma LookupKeywordRejectsNearMisses()
    ensures LookupKeyword("Null") == None && LookupKeyword("NULL") == None
    ensures LookupKeyword("nul") == None && LookupKeyword("nulls") == None
    ensures LookupKeyword("True") == None && LookupKeyword("tru") == None
    ensures LookupKeyword("FALSE") == None && LookupKeyword("fals") == None
    ensures LookupKeyword("") == None
  {
  }
}
