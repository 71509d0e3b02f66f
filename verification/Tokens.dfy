/** Tokens and the raw tokenizer the directive parser pulls from. */
module Tokens {

  /** The token types the directive layer distinguishes. Every other type
      the tokenizer produces (numbers, operators, ...) is `Other`, tagged
      with its type code. End of input is compared against `0` in one place
      and against `Token::LAST` in another; both are the single `Eof` kind
      here. */
  datatype TokenKind =
    | Eof
    | Identifier
    | Hash
    | LParen
    | RParen
    | Comma
    | Newline
    | Other(code: OtherCode)

  /** The type code of an `Other` token: never `0` (end of input) nor the
      character code of `'\n'`, `'#'`, `'('`, `')'` or `','`, whose tokens
      have kinds of their own. Nor is it the code of `Token::IDENTIFIER` or
      `Token::LAST`, whose values are not part of this model. */
  type OtherCode = c: int | c != 0 && c != 10 && c != 35 && c != 40 && c != 41 && c != 44
    witness 1

  datatype SourceLocation = SourceLocation(file: int, line: int)

  /** The value a default-constructed location has. */
  const DefaultLocation := SourceLocation(0, 0)

  datatype Token = Token(kind: TokenKind, value: string, location: SourceLocation, leadingSpace: bool)

  /** What the tokenizer yields once its input is used up. */
  const EndOfInput := Token(Eof, "", DefaultLocation, false)

  /** A token that ends a directive line. */
  predicate EndsLine(t: Token)
  {
    t.kind.Newline? || t.kind.Eof?
  }

  /** The token with its location reset, as stored in a replacement list. */
  function Neutral(t: Token): Token
  {
    t.(location := DefaultLocation)
  }

  /** The tokenizer is its already-lexed input and a position in it; the
      token at the position is the one most recently lexed. Past the end of
      the input it yields end of input. */
  function TokenAt(input: seq<Token>, i: nat): Token
  {
    if i < |input| then input[i] else EndOfInput
  }

  /** `Tokenizer::lex`: the position of the next token. The position never
      moves past an end-of-input token, so end of input is reported forever. */
  function Step(input: seq<Token>, i: nat): (j: nat)
    ensures TokenAt(input, i).kind.Eof? ==> j == i
    ensures !TokenAt(input, i).kind.Eof? ==> i < |input| && j == i + 1
  {
    if i < |input| && !input[i].kind.Eof? then i + 1 else i
  }
}
