/** The tokens of a document: where each one ends and of what kind it is, for every document whatsoever. */
module JsonToken {
  import opened Wrappers
  import opened JsonText
  import opened JsonString
  import opened JsonScan

  datatype TokenType =
    | EndOfStream | ObjectBegin | ObjectEnd | ArrayBegin | ArrayEnd | StringToken | NumberToken
    | TrueToken | FalseToken | NullToken | ArraySeparator | MemberSeparator | Comment | ErrorToken

  datatype Token = Token(kind: TokenType, start: nat, end: nat)

  /** The end of a comment, from behind its first slash; none when it is no comment or not terminated. */
  function CommentEnd(doc: string, p: nat): (end: Option<nat>)
    requires p <= |doc|
    ensures end.Some? ==> p < end.value <= |doc|
  {
    if p == |doc| then None
    else if doc[p] == '*' then BlockEnd(doc, p + 1)
    else if doc[p] == '/' then Some(LineEnd(doc, p + 1))
    else None
  }

  /** Where the reader is when there was no comment. */
  function CommentFailure(doc: string, p: nat): (end: nat)
    requires p <= |doc|
    ensures p <= end <= |doc|
  {
    if p == |doc| || doc[p] == '*' then |doc| else p + 1
  }

  /** Behind the first star with a slash after it. */
  function BlockEnd(doc: string, p: nat): (end: Option<nat>)
    requires p <= |doc|
    ensures end.Some? ==> p < end.value <= |doc|
    decreases |doc| - p
  {
    if p == |doc| then None
    else if doc[p] == '*' && p + 1 < |doc| && doc[p + 1] == '/' then Some(p + 2)
    else BlockEnd(doc, p + 1)
  }

  /** Behind the first line end of any of the three kinds. */
  function LineEnd(doc: string, p: nat): (end: nat)
    requires p <= |doc|
    ensures p <= end <= |doc|
    decreases |doc| - p
  {
    if p == |doc| then p
    else if doc[p] == '\n' then p + 1
    else if doc[p] == '\r' then if p + 1 < |doc| && doc[p + 1] == '\n' then p + 2 else p + 1
    else LineEnd(doc, p + 1)
  }

  /** The end of a number, from behind its first character. */
  function NumberEnd(doc: string, at: nat): (p: nat)
    requires at <= |doc|
    ensures at <= p <= |doc|
    ensures Ends(doc, DigitEnd(doc, at)) ==> p == DigitEnd(doc, at)
  {
    ExponentEnd(doc, FractionEnd(doc, DigitEnd(doc, at)))
  }

  /** The token at p, which is no blank. */
  function TokenOf(doc: string, p: nat): (token: Token)
    requires p <= |doc|
    ensures token.start == p <= token.end <= |doc|
    ensures if p == |doc| then token.kind == EndOfStream else p < token.end
    ensures token.kind == StringToken ==> p + 2 <= token.end
    ensures token.kind == Comment ==> p < |doc| && doc[p] == '/'
  {
    if p == |doc| then Token(EndOfStream, p, p) else
    match doc[p]
    case '{' => Token(ObjectBegin, p, p + 1)
    case '}' => Token(ObjectEnd, p, p + 1)
    case '[' => Token(ArrayBegin, p, p + 1)
    case ']' => Token(ArrayEnd, p, p + 1)
    case ',' => Token(ArraySeparator, p, p + 1)
    case ':' => Token(MemberSeparator, p, p + 1)
    case '\"' => Ended(StringToken, p, StringEnd(doc, p + 1), |doc|)
    case '/' => Ended(Comment, p, CommentEnd(doc, p + 1), CommentFailure(doc, p + 1))
    case 't' => WordOf(doc, p, "rue", TrueToken)
    case 'f' => WordOf(doc, p, "alse", FalseToken)
    case 'n' => WordOf(doc, p, "ull", NullToken)
    case '\0' => Token(EndOfStream, p, p + 1)
    case c =>
      if c == '-' || IsDigit(c) then Token(NumberToken, p, NumberEnd(doc, p + 1)) else Token(ErrorToken, p, p + 1)
  }

  function WordOf(doc: string, p: nat, rest: string, kind: TokenType): Token {
    Ended(kind, p, if StartsWith(doc, p + 1, rest) then Some(p + 1 + |rest|) else None, p + 1)
  }

  function Ended(kind: TokenType, p: nat, end: Option<nat>, failure: nat): Token {
    match end
    case Some(e) => Token(kind, p, e)
    case None => Token(ErrorToken, p, failure)
  }

  predicate TokenAt(doc: string, p: nat, token: Token)
    requires p <= |doc|
  {
    token == TokenOf(doc, p)
  }

  /** The first token from at on that is no comment. */
  function Uncommented(doc: string, at: nat): (token: Token)
    requires at <= |doc|
    ensures at <= token.start <= token.end <= |doc| && token.kind != Comment && TokenAt(doc, token.start, token)
    ensures token.kind != EndOfStream ==> token.start < token.end
    decreases |doc| - at
  {
    var token := TokenOf(doc, SkipBlank(doc, at));
    if token.kind == Comment then Uncommented(doc, token.end) else token
  }

  /** Where a recovery stops: behind the first token of the kind, or of the end of the stream. */
  function Recovered(doc: string, at: nat, kind: TokenType): (end: nat)
    requires at <= |doc|
    ensures at <= end <= |doc|
    decreases |doc| - at
  {
    var token := TokenOf(doc, SkipBlank(doc, at));
    if token.kind == kind || token.kind == EndOfStream then token.end else Recovered(doc, token.end, kind)
  }
}
