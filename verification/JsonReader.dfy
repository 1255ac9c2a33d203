/** Json::Reader with default features, called without comment collection: the tokenizer, the recursive
    descent with its explicit node stack, and error recovery.

    Pointers into the document are positions.  A node on the stack is the value built so far; popping
    stores it in the slot of its parent that the source's pointer designates. */
module JsonReader {
  import opened Wrappers
  import opened JsonValue
  import opened JsonText
  import opened JsonNumber
  import opened JsonString
  import opened JsonScan
  import opened JsonToken
  import opened JsonTree

  /** The error messages, by what they complain about. */
  datatype Message =
    | ValueExpected | NotANumber | BadString | MissingArraySeparator
    | MissingColon | MissingObjectSeparator | MissingMemberName

  datatype ErrorInfo = ErrorInfo(message: Message, token: Token)

  /** What follows an element: another one, the closing bracket, or neither. */
  datatype Next = More | Closed | Failed

  /** What a caller knows about the text at the cursor. */
  datatype Expect = Anything | Exactly(lead: string, s: Syntax)

  /** The text s, behind blanks, and with no number character after it if it is a number. */
  ghost predicate TextAt(doc: string, at: nat, lead: string, s: Syntax) {
    Blank(lead) && ValidSyntax(s) && StartsWith(doc, at, lead) && StartsWith(doc, at + |lead|, Show(s))
    && (s.Integer? ==> Ends(doc, at + |lead| + |Show(s)|))
  }

  /** The kind of token a text starts with; a scalar is that one token. */
  function FirstKind(s: Syntax): TokenType {
    match s
    case Word(v) => if v.Null? then NullToken else if v == Bool(true) then TrueToken else FalseToken
    case Integer(_, _) => NumberToken
    case Float(_) => NumberToken
    case Text(_) => StringToken
    case List(_, _) => ArrayBegin
    case Record(_, _) => ObjectBegin
  }

  lemma FirstToken(doc: string, at: nat, lead: string, s: Syntax, token: Token)
    requires TextAt(doc, at, lead, s)
    ensures at + |lead| < |doc| && SkipBlank(doc, at) == at + |lead| && doc[at + |lead|] != '/'
    ensures TokenAt(doc, at + |lead|, token) ==>
              token.kind == FirstKind(s)
              && if s.List? || s.Record? then token.end == token.start + 1 else token.end == token.start + |Show(s)|
  {
    hide StartsWith;
    hide StringEnd;
    hide DigitEnd;
    var p := at + |lead|;
    FirstChar(s);
    StartsChar(doc, p, Show(s));
    BlanksSkipped(doc, at, lead);
    if s.Word? {
      WordToken(doc, p, s.v);
    } else if s.Text? {
      QuotedToken(doc, p, s.pieces);
    } else if s.Integer? {
      IntegerShape(s.negative, s.digits);
      IntegerToken(doc, p, Show(s));
    }
  }

  /** The token is the text of a scalar. */
  ghost predicate ScalarAt(doc: string, token: Token, s: Syntax) {
    ValidSyntax(s) && !s.List? && !s.Record? && token.kind == FirstKind(s)
    && StartsWith(doc, token.start, Show(s)) && token.end == token.start + |Show(s)|
  }

  lemma IntegerScalar(doc: string, token: Token, s: Syntax)
    requires ScalarAt(doc, token, s) && s.Integer?
    ensures token.end <= |doc|
    ensures var text := doc[token.start..token.end];
            IsIntegerText(text) && InRange(IntegerOf(text)) && Number(IntegerOf(text)) == Meaning(s)
  {
    hide IsIntegerText;
    hide IntegerOf;
    hide Decimal;
    IntegerValue(s.negative, s.digits);
    assert doc[token.start..token.end] == Show(s);
  }

  lemma TextScalar(doc: string, token: Token, s: Syntax)
    requires ScalarAt(doc, token, s) && s.Text?
    ensures token.start + 2 <= token.end <= |doc|
    ensures Spells(s.pieces, doc[token.start + 1..token.end - 1]) && |PiecesText(s.pieces)| <= MAX_STRING
    ensures Meaning(s) == Str(PiecesText(s.pieces))
  {
    QuotedToken(doc, token.start, s.pieces);
  }

  lemma WordScalar(doc: string, token: Token, s: Syntax)
    requires ScalarAt(doc, token, s)
    ensures token.kind == NullToken ==> Meaning(s) == Null
    ensures token.kind == TrueToken ==> Meaning(s) == Bool(true)
    ensures token.kind == FalseToken ==> Meaning(s) == Bool(false)
    ensures token.kind == NumberToken ==> s.Integer?
    ensures token.kind == StringToken ==> s.Text?
    ensures token.kind in {NullToken, TrueToken, FalseToken, NumberToken, StringToken}
  {
  }

  lemma WordToken(doc: string, p: nat, v: Value)
    requires (v.Null? || v.Bool?) && StartsWith(doc, p, WordText(v))
    ensures v.Null? ==> doc[p] == 'n' && StartsWith(doc, p + 1, "ull")
    ensures v == Bool(true) ==> doc[p] == 't' && StartsWith(doc, p + 1, "rue")
    ensures v == Bool(false) ==> doc[p] == 'f' && StartsWith(doc, p + 1, "alse")
  {
    var w := WordText(v);
    assert w == w[..1] + w[1..];
    StartsConcat(doc, p, w[..1], w[1..]);
    StartsChar(doc, p, w);
  }

  lemma IntegerToken(doc: string, p: nat, w: string)
    requires w != [] && (w[0] == '-' || IsDigit(w[0])) && AllDigits(w[1..])
    requires StartsWith(doc, p, w) && Ends(doc, p + |w|)
    ensures doc[p] == '-' || IsDigit(doc[p])
    ensures DigitEnd(doc, p + 1) == p + |w|
  {
    forall i | p + 1 <= i < p + |w| ensures IsDigit(doc[i]) {
      assert doc[i] == doc[p..p + |w|][i - p] == w[1..][i - p - 1];
    }
    StartsChar(doc, p, w);
    DigitEndExact(doc, p + 1, p + |w|);
  }

  lemma IntegerShape(negative: bool, digits: string)
    requires AllDigits(digits) && digits != []
    ensures var w := Show(Integer(negative, digits)); (w[0] == '-' || IsDigit(w[0])) && AllDigits(w[1..])
  {
    assert IsDigit(digits[0]);
    assert ("-" + digits)[1..] == digits;
    assert "" + digits == digits;
  }

  lemma IntegerValue(negative: bool, digits: string)
    requires AllDigits(digits) && digits != []
    ensures var w := Show(Integer(negative, digits)); IsIntegerText(w) && IntegerOf(w) == Signed(negative, digits)
  {
    assert IsDigit(digits[0]);
    assert ("-" + digits)[1..] == digits;
    assert "" + digits == digits;
  }

  /** The inside of a list or record, from behind its opening bracket to its closing one. */
  ghost predicate BodyAt(doc: string, at: nat, es: seq<Elem>, close: string, named: bool) {
    && ValidElems(es, named) && (if named then ValidClose(es, close) else Blank(close))
    && StartsWith(doc, at, ShowElems(es) + (close + Bracket(named)))
  }

  function Bracket(named: bool): string {
    if named then "}" else "]"
  }

  /** Where the i-th element starts, behind its comma; behind the last element, where the text goes on after
      a trailing comma. */
  function From(es: seq<Elem>, i: nat): nat
    requires i <= |es|
  {
    Offset(es, i) + |Comma(i)|
  }

  /** Where its value starts, or the blanks in front of the value. */
  function ValueFrom(es: seq<Elem>, i: nat): nat
    requires i < |es|
  {
    From(es, i) + |es[i].lead| + |ShowTag(es[i].tag)|
  }

  /** Where the value ends. */
  function ValueEnd(es: seq<Elem>, i: nat): nat
    requires i < |es|
  {
    ValueFrom(es, i) + |es[i].before| + |Show(es[i].value)|
  }

  lemma EmptyBody(doc: string, at: nat, close: string, named: bool)
    requires BodyAt(doc, at, [], close, named)
    ensures ShowElems([]) == "" && SkipBlank(doc, at) == at + |close|
    ensures at + |close| < |doc| && doc[at + |close|] == Bracket(named)[0]
    ensures StartsWith(doc, at + |close|, Bracket(named))
  {
    assert ShowElems([]) + (close + Bracket(named)) == close + Bracket(named);
    StartsConcat(doc, at, close, Bracket(named));
    StartsChar(doc, at + |close|, Bracket(named));
    BlanksSkipped(doc, at, close);
  }

  /** The i-th element of a list or record in the document, piece by piece. */
  lemma ElemAhead(doc: string, at: nat, es: seq<Elem>, close: string, named: bool, i: nat)
    requires BodyAt(doc, at, es, close, named) && i < |es|
    ensures ValidElem(es[i], named)
    ensures StartsWith(doc, at + From(es, i), es[i].lead)
    ensures StartsWith(doc, at + From(es, i) + |es[i].lead|, ShowTag(es[i].tag))
    ensures TextAt(doc, at + ValueFrom(es, i), es[i].before, es[i].value)
  {
    hide StartsWith;
    hide Show;
    hide ShowTag;
    hide ShowElems;
    hide ShowElem;
    hide ValidElems;
    hide ValidSyntax;
    hide SkipBlank;
    hide Ends;
    ElemAfter(doc, at, es, close, named, i);
    ElemPlace(doc, at, es, close + Bracket(named), i);
    ElemParts(doc, at + From(es, i), es[i]);
    ElemValid(es, named, i);
  }

  /** Another element, or a trailing comma, follows the i-th one. */
  predicate CommaAfter(es: seq<Elem>, close: string, named: bool, i: nat) {
    i + 1 < |es| || (named && TrailingComma(close))
  }

  /** What follows the i-th value: a comma, or the closing bracket. */
  lemma ElemAfter(doc: string, at: nat, es: seq<Elem>, close: string, named: bool, i: nat)
    requires BodyAt(doc, at, es, close, named) && i < |es|
    ensures at + ValueEnd(es, i) < |doc| && Ends(doc, at + ValueEnd(es, i))
    ensures var p := SkipBlank(doc, at + ValueEnd(es, i));
            if CommaAfter(es, close, named, i) then p + 1 == at + From(es, i + 1) && StartsWith(doc, p, ",")
            else p + 1 == at + |ShowElems(es)| + |close| + 1 && StartsWith(doc, p, Bracket(named))
  {
    hide StartsWith;
    hide Show;
    hide ShowTag;
    hide ShowElems;
    hide ShowElem;
    hide ValidElems;
    hide SkipBlank;
    hide Ends;
    hide ValidSyntax;
    var tail := close + Bracket(named);
    ElemPlace(doc, at, es, tail, i);
    ElemParts(doc, at + From(es, i), es[i]);
    ElemValid(es, named, i);
    var q, after := at + ValueEnd(es, i), es[i].after;
    assert q + |after| == at + Offset(es, i + 1);
    if i + 1 < |es| {
      BlanksThen(doc, q, after, ",");
    } else {
      assert es[..i + 1] == es;
      CloseAfter(doc, q, after, close, named);
    }
  }

  /** What follows the last value: its trailing comma, or the closing bracket. */
  lemma CloseAfter(doc: string, at: nat, after: string, close: string, named: bool)
    requires Blank(after) && ((named && TrailingComma(close)) || Blank(close))
    requires StartsWith(doc, at, after) && StartsWith(doc, at + |after|, close + Bracket(named))
    ensures at < |doc| && Ends(doc, at)
    ensures var p := SkipBlank(doc, at);
            if named && TrailingComma(close) then p == at + |after| && StartsWith(doc, p, ",")
            else p == at + |after| + |close| && StartsWith(doc, p, Bracket(named))
  {
    hide StartsWith;
    hide SkipBlank;
    hide Ends;
    var p := at + |after|;
    StartsConcat(doc, p, close, Bracket(named));
    if named && TrailingComma(close) {
      assert close == "," + close[1..];
      StartsConcat(doc, p, ",", close[1..]);
      BlanksThen(doc, at, after, ",");
    } else {
      StartsConcat(doc, at, after, close);
      BlanksThen(doc, at, after + close, Bracket(named));
    }
  }

  /** The closing brace behind a trailing comma. */
  lemma TailAhead(doc: string, at: nat, es: seq<Elem>, close: string)
    requires BodyAt(doc, at, es, close, true) && TrailingComma(close)
    ensures at + From(es, |es|) <= |doc|
    ensures var p := SkipBlank(doc, at + From(es, |es|));
            p + 1 == at + |ShowElems(es)| + |close| + 1 && StartsWith(doc, p, "}")
  {
    hide StartsWith;
    hide ShowElems;
    hide ValidElems;
    hide SkipBlank;
    assert es[..|es|] == es;
    assert close == "," + close[1..];
    StartsConcat(doc, at, ShowElems(es), close + "}");
    StartsConcat(doc, at + |ShowElems(es)|, close, "}");
    StartsConcat(doc, at + |ShowElems(es)|, ",", close[1..]);
    BlanksThen(doc, at + |ShowElems(es)| + 1, close[1..], "}");
  }

  /** The opening bracket of a list or record, and its inside. */
  lemma OpenBody(doc: string, at: nat, s: Syntax)
    requires (s.List? || s.Record?) && ValidSyntax(s) && StartsWith(doc, at, Show(s))
    ensures BodyAt(doc, at + 1, s.elems, s.close, s.Record?)
  {
    hide ShowElems;
    hide StartsWith;
    hide ValidElems;
    var open := if s.Record? then "{" else "[";
    var rest := ShowElems(s.elems) + (s.close + Bracket(s.Record?));
    assert Show(s) == open + rest;
    StartsConcat(doc, at, open, rest);
  }

  /** What readValue learns from the first token of a text. */
  lemma FirstTokenMeaning(doc: string, at: nat, lead: string, s: Syntax, token: Token)
    requires TextAt(doc, at, lead, s)
    ensures ValidSyntax(s)
    ensures at + |lead| < |doc| && SkipBlank(doc, at) == at + |lead| && doc[at + |lead|] != '/'
    ensures TokenAt(doc, at + |lead|, token) ==> token.kind == FirstKind(s) && token.start == at + |lead|
    ensures TokenAt(doc, at + |lead|, token) && (s.List? || s.Record?) ==>
              token.end == token.start + 1 && BodyAt(doc, token.end, s.elems, s.close, s.Record?)
              && |Show(s)| == |ShowElems(s.elems)| + |s.close| + 2 && Depth(s) == 1 + DepthElems(s.elems)
    ensures TokenAt(doc, at + |lead|, token) && !(s.List? || s.Record?) ==>
              token.end == token.start + |Show(s)| && ScalarAt(doc, token, s) && Depth(s) == 1
  {
    hide TokenAt;
    hide StartsWith;
    hide SkipBlank;
    hide Show;
    hide ShowElems;
    hide BodyAt;
    hide DepthElems;
    hide ValidSyntax;
    hide FirstKind;
    FirstToken(doc, at, lead, s, token);
    TokenStart(doc, at + |lead|, token);
    if s.List? || s.Record? {
      OpenBody(doc, at + |lead|, s);
      ContainerText(s);
    }
  }

  lemma TokenStart(doc: string, p: nat, token: Token)
    requires p <= |doc|
    ensures TokenAt(doc, p, token) ==> token.start == p
  {
    hide TokenOf;
  }

  lemma ContainerText(s: Syntax)
    requires s.List? || s.Record?
    ensures |Show(s)| == |ShowElems(s.elems)| + |s.close| + 2
  {
    hide ShowElems;
  }

  /** An element without a tag: blanks and the value. */
  lemma NoTag(doc: string, at: nat, e: Elem)
    requires ValidElem(e, false) && StartsWith(doc, at, e.lead)
    requires TextAt(doc, at + |e.lead| + |ShowTag(e.tag)|, e.before, e.value)
    ensures ShowTag(e.tag) == "" && TextAt(doc, at, e.lead + e.before, e.value)
  {
    StartsConcat(doc, at, e.lead, e.before);
  }

  /** The tag of a member: its name as one string token, then the colon behind blanks. */
  lemma TagAhead(doc: string, at: nat, e: Elem, token: Token)
    requires ValidElem(e, true) && StartsWith(doc, at, e.lead)
    requires StartsWith(doc, at + |e.lead|, ShowTag(e.tag))
    ensures e.tag.Some? && ValidPieces(e.tag.value.name)
    ensures var p, name := at + |e.lead|, e.tag.value.name;
            p < |doc| && SkipBlank(doc, at) == p && doc[p] != '/'
            && (TokenAt(doc, p, token) ==>
                  token == Token(StringToken, p, p + |Quoted(name)|) && p + 2 <= token.end <= |doc|
                  && Spells(name, doc[token.start + 1..token.end - 1])
                  && SkipBlank(doc, token.end) + 1 == p + |ShowTag(e.tag)|
                  && StartsWith(doc, SkipBlank(doc, token.end), ":"))
  {
    hide StartsWith;
    hide SkipBlank;
    hide StringEnd;
    hide Quoted;
    hide Spells;
    var p, tag := at + |e.lead|, e.tag.value;
    StartsConcat(doc, p, Quoted(tag.name) + tag.colon, ":");
    StartsConcat(doc, p, Quoted(tag.name), tag.colon);
    QuotedToken(doc, p, tag.name);
    BlanksSkipped(doc, at, e.lead);
    BlanksThen(doc, p + |Quoted(tag.name)|, tag.colon, ":");
  }

  function NoElem(): Elem {
    Elem("", None, "", Word(Null), "")
  }

  /** The cursor is behind the i-th value of a list or record whose inside starts at start. */
  ghost predicate ValueReadAt(doc: string, start: nat, s: Syntax, i: nat, at: nat) {
    (s.List? || s.Record?) && i < |s.elems| && at == start + ValueEnd(s.elems, i)
    && BodyAt(doc, start, s.elems, s.close, s.Record?)
  }

  ghost predicate NextAt(start: nat, s: Syntax, i: nat, next: Next, at: nat)
    requires (s.List? || s.Record?) && i < |s.elems|
  {
    if CommaAfter(s.elems, s.close, s.Record?, i) then next == More && at == start + From(s.elems, i + 1)
    else next == Closed && at == start + |ShowElems(s.elems)| + |s.close| + 1
  }

  lemma Separator(doc: string, start: nat, s: Syntax, i: nat, at: nat, token: Token)
    requires ValueReadAt(doc, start, s, i, at) && at <= |doc|
    ensures var p := SkipBlank(doc, at); p < |doc| && doc[p] != '/'
    ensures TokenAt(doc, SkipBlank(doc, at), token) ==>
              var more := CommaAfter(s.elems, s.close, s.Record?, i);
              && token.kind == (if more then ArraySeparator else if s.Record? then ObjectEnd else ArrayEnd)
              && NextAt(start, s, i, if more then More else Closed, token.end)
  {
    hide StartsWith;
    hide SkipBlank;
    hide TokenAt;
    hide ShowElems;
    hide From;
    hide ValueEnd;
    hide BodyAt;
    hide Ends;
    ElemAfter(doc, start, s.elems, s.close, s.Record?, i);
    MarkToken(doc, at, if CommaAfter(s.elems, s.close, s.Record?, i) then "," else Bracket(s.Record?), token);
  }

  /** The token is the quoted name of e, and its colon comes next. */
  ghost predicate NameAt(doc: string, e: Elem, token: Token) {
    && e.tag.Some? && ValidPieces(e.tag.value.name)
    && token.start + 2 <= token.end <= |doc|
    && Spells(e.tag.value.name, doc[token.start + 1..token.end - 1])
    && SkipBlank(doc, token.end) + 1 == token.start + |ShowTag(e.tag)|
    && StartsWith(doc, SkipBlank(doc, token.end), ":")
  }

  /** The i-th member in the document, from the end of the one before it. */
  lemma MemberAhead(doc: string, start: nat, s: Syntax, i: nat, at: nat, token: Token)
    requires s.Record? && BodyAt(doc, start, s.elems, s.close, true) && i < |s.elems|
    requires at == start + From(s.elems, i)
    ensures at <= |doc| && SkipBlank(doc, at) < |doc| && doc[SkipBlank(doc, at)] != '/'
    ensures TokenAt(doc, SkipBlank(doc, at), token) ==>
              && token.kind == StringToken && NameAt(doc, s.elems[i], token)
              && token.start + |ShowTag(s.elems[i].tag)| == start + ValueFrom(s.elems, i)
    ensures TextAt(doc, start + ValueFrom(s.elems, i), s.elems[i].before, s.elems[i].value)
  {
    hide StartsWith;
    hide TokenAt;
    hide ShowTag;
    hide Spells;
    hide Quoted;
    ElemAhead(doc, start, s.elems, s.close, true, i);
    TagAhead(doc, at, s.elems[i], token);
  }

  /** The state of readObject at the head of its loop: i members read, the cursor at what comes behind their
      commas, and the last of their names at hand. */
  ghost predicate RecordAt(doc: string, start: nat, s: Syntax, i: nat, at: nat, top: Value, depth: nat, name: string) {
    && s.Record? && BodyAt(doc, start, s.elems, s.close, true)
    && Progress(s.elems, true, i, top, depth)
    && i <= |s.elems| && at == start + From(s.elems, i)
    && (i == |s.elems| ==> s.elems == [] || TrailingComma(s.close))
    && LastName(s.elems, i, name)
  }

  predicate LastName(es: seq<Elem>, i: nat, name: string)
    requires i <= |es|
  {
    if i == 0 then name == "" else ValidElem(es[i - 1], true) && name == NameOf(es[i - 1])
  }

  lemma RecordStart(doc: string, start: nat, s: Syntax, depth: nat)
    requires s.Record? && BodyAt(doc, start, s.elems, s.close, true) && depth <= STACK_LIMIT
    ensures RecordAt(doc, start, s, 0, start, Obj([]), depth, "")
  {
    ProgressStart(doc, start, s.elems, s.close, true, depth);
  }

  /** The token at the head of the loop: a member's name, or the closing brace, which is taken behind the
      opening one and behind an empty name. */
  lemma RecordAhead(doc: string, start: nat, s: Syntax, i: nat, at: nat, top: Value, depth: nat, name: string,
      token: Token)
    requires RecordAt(doc, start, s, i, at, top, depth, name)
    ensures i <= |s.elems|
    ensures at <= |doc| && SkipBlank(doc, at) < |doc| && doc[SkipBlank(doc, at)] != '/'
    ensures i == |s.elems| && TokenAt(doc, SkipBlank(doc, at), token) ==>
              && token.kind == ObjectEnd && token.end == start + |ShowElems(s.elems)| + |s.close| + 1
              && ValidSyntax(s) && top == Meaning(s) && depth + DepthElems(s.elems) <= STACK_LIMIT && Narrow(s)
              && (name == "" <==> Accepted(s))
    ensures i < |s.elems| && TokenAt(doc, SkipBlank(doc, at), token) ==>
              && token.kind == StringToken && NameAt(doc, s.elems[i], token)
              && token.start + |ShowTag(s.elems[i].tag)| == start + ValueFrom(s.elems, i)
    ensures i < |s.elems| ==> NextMember(doc, start, s, i, top, depth)
  {
    hide TokenAt;
    hide Progress;
    hide TextAt;
    hide NameAt;
    hide BodyAt;
    hide SkipBlank;
    hide Meaning;
    hide WithEntry;
    hide ShowTag;
    hide ShowElems;
    hide ValidSyntax;
    hide Accepted;
    hide Narrow;
    hide From;
    hide ValueFrom;
    hide NextMember;
    if i == |s.elems| {
      RecordEnd(doc, start, s, at, top, depth, name, token);
    } else {
      MemberAhead(doc, start, s, i, at, token);
      MemberNext(doc, start, s, i, top, depth);
    }
  }

  lemma RecordEnd(doc: string, start: nat, s: Syntax, at: nat, top: Value, depth: nat, name: string, token: Token)
    requires s.Record? && RecordAt(doc, start, s, |s.elems|, at, top, depth, name)
    ensures at <= |doc| && SkipBlank(doc, at) < |doc| && doc[SkipBlank(doc, at)] != '/'
    ensures TokenAt(doc, SkipBlank(doc, at), token) ==>
              && token.kind == ObjectEnd && token.end == start + |ShowElems(s.elems)| + |s.close| + 1
    ensures ValidSyntax(s) && top == Meaning(s) && depth + DepthElems(s.elems) <= STACK_LIMIT && Narrow(s)
    ensures name == "" <==> Accepted(s)
  {
    hide TokenAt;
    hide Progress;
    hide BodyAt;
    hide SkipBlank;
    hide Meaning;
    hide ShowElems;
    hide PiecesText;
    hide Depth;
    if s.elems == [] {
      EmptyBody(doc, start, s.close, true);
      NoTrailing(doc, start, s.close);
    } else {
      TailAhead(doc, start, s.elems, s.close);
    }
    ProgressDone(doc, start, s, top, depth);
    MarkToken(doc, at, "}", token);
  }

  lemma NoTrailing(doc: string, at: nat, close: string)
    requires BodyAt(doc, at, [], close, true)
    ensures !TrailingComma(close)
  {
  }

  lemma MemberNext(doc: string, start: nat, s: Syntax, i: nat, top: Value, depth: nat)
    requires s.Record? && i < |s.elems| && Progress(s.elems, true, i, top, depth)
    requires TextAt(doc, start + ValueFrom(s.elems, i), s.elems[i].before, s.elems[i].value)
    ensures NextMember(doc, start, s, i, top, depth)
  {
    hide Progress;
    hide TextAt;
    hide Meaning;
    hide WithEntry;
    ProgressStep(s.elems, true, i, top, depth);
  }

  /** The i-th value in the document, and what reading it will make of the object. */
  ghost predicate NextMember(doc: string, start: nat, s: Syntax, i: nat, top: Value, depth: nat) {
    && s.Record? && i < |s.elems| && (top.Arr? || top.Obj?)
    && ValidElem(s.elems[i], true) && ValidTag(s.elems[i].tag, true)
    && var e := s.elems[i];
    && TextAt(doc, start + ValueFrom(s.elems, i), e.before, e.value)
    && Stepped(s.elems, true, i, top, depth)
  }

  /** A value that can be read makes progress, and what is wrong with a value is wrong with its container. */
  ghost predicate Stepped(es: seq<Elem>, named: bool, i: nat, top: Value, depth: nat)
    requires i < |es| && ValidElem(es[i], named) && (top.Arr? || top.Obj?)
  {
    var v := es[i].value;
    && (Readable(v, depth) ==>
          Progress(es, named, i + 1, WithEntry(top, KeyOf(es[i].tag, i, named), Meaning(v)), depth))
    && (depth + Depth(v) > STACK_LIMIT ==> depth + DepthElems(es) > STACK_LIMIT)
    && (!Narrow(v) ==> !NarrowElems(es))
    && (ValidElems(es, named) && !Accepted(v) ==> !AcceptedElems(es, named))
  }

  /** The reader takes s at this depth. */
  predicate Readable(s: Syntax, depth: int)
    requires ValidSyntax(s)
  {
    depth + Depth(s) <= STACK_LIMIT && Narrow(s) && Accepted(s)
  }

  /** What each outcome of reading s says about s.  By these, s is read if and only if it is readable. */
  predicate Explained(r: Outcome, s: Syntax, depth: int)
    requires ValidSyntax(s)
  {
    match r
    case Done(ok) => if ok then Readable(s, depth) else !Accepted(s)
    case StackLimit => depth + Depth(s) > STACK_LIMIT
    case TooLarge => !Narrow(s)
  }

  /** The first element of a list, once the blanks in front of it are skipped. */
  lemma FirstElem(doc: string, at: nat, es: seq<Elem>, close: string)
    requires BodyAt(doc, at, es, close, false) && es != []
    ensures var p := at + ValueFrom(es, 0) + |es[0].before|;
            SkipBlank(doc, at) == p && p < |doc| && doc[p] != ']' && TextAt(doc, p, "", es[0].value)
  {
    hide ShowElem;
    hide ShowTag;
    hide Show;
    hide StartsWith;
    hide TextAt;
    hide BodyAt;
    ElemAhead(doc, at, es, close, false, 0);
    assert es[..0] == [];
    NoTag(doc, at, es[0]);
    FirstValue(doc, at, es[0].lead + es[0].before, es[0].value);
  }

  /** A later element of a list, from the end of the separator in front of it. */
  lemma NextElement(doc: string, at: nat, es: seq<Elem>, close: string, i: nat)
    requires BodyAt(doc, at, es, close, false) && i < |es|
    ensures var lead := es[i].lead + es[i].before;
            && TextAt(doc, at + From(es, i), lead, es[i].value)
            && at + From(es, i) + |lead| == at + ValueFrom(es, i) + |es[i].before|
  {
    hide ShowElems;
    hide Show;
    hide StartsWith;
    hide TextAt;
    hide BodyAt;
    ElemAhead(doc, at, es, close, false, i);
    NoTag(doc, at + From(es, i), es[i]);
  }

  lemma FirstValue(doc: string, at: nat, lead: string, s: Syntax)
    requires TextAt(doc, at, lead, s)
    ensures var p := at + |lead|;
            SkipBlank(doc, at) == p && p < |doc| && doc[p] != ']' && TextAt(doc, p, "", s)
  {
    var p := at + |lead|;
    FirstChar(s);
    StartsChar(doc, p, Show(s));
    BlanksSkipped(doc, at, lead);
  }

  /** The value under construction when i elements have been read, all of them readable. */
  ghost predicate Progress(es: seq<Elem>, named: bool, i: nat, top: Value, depth: nat) {
    && i <= |es| && ValidElems(es, named) && ValidElems(es[..i], named)
    && top == Container(PutAll(ElemPairs(es[..i], named)), named)
    && depth + DepthElems(es[..i]) <= STACK_LIMIT && NarrowElems(es[..i]) && AcceptedElems(es[..i], named)
  }

  lemma ProgressStart(doc: string, at: nat, es: seq<Elem>, close: string, named: bool, depth: nat)
    requires BodyAt(doc, at, es, close, named) && depth <= STACK_LIMIT
    ensures Progress(es, named, 0, Container([], named), depth)
    ensures es != [] ==> From(es, 0) == 0
  {
  }

  lemma ProgressStep(es: seq<Elem>, named: bool, i: nat, top: Value, depth: nat)
    requires Progress(es, named, i, top, depth) && i < |es|
    ensures ValidElem(es[i], named) && ValidTag(es[i].tag, named) && (if named then top.Obj? else top.Arr?)
    ensures Stepped(es, named, i, top, depth)
  {
    hide Narrow;
    hide Accepted;
    hide Meaning;
    hide Depth;
    hide ValidSyntax;
    hide ElemPairs;
    hide PutAll;
    hide DepthElems;
    hide NarrowElems;
    hide AcceptedElems;
    hide ValidElems;
    ElemsStep(es, named, i);
    ElemsReadable(es, named, i);
  }

  lemma ProgressDone(doc: string, start: nat, s: Syntax, top: Value, depth: nat)
    requires (s.List? || s.Record?) && BodyAt(doc, start, s.elems, s.close, s.Record?)
    requires Progress(s.elems, s.Record?, |s.elems|, top, depth)
    ensures ValidSyntax(s) && top == Meaning(s) && depth + DepthElems(s.elems) <= STACK_LIMIT
    ensures NarrowElems(s.elems) && AcceptedElems(s.elems, s.Record?)
  {
    assert s.elems[..|s.elems|] == s.elems;
  }

  function MarkKind(mark: string): TokenType {
    if mark == "," then ArraySeparator
    else if mark == ":" then MemberSeparator
    else if mark == "]" then ArrayEnd
    else ObjectEnd
  }

  /** A one-character token behind blanks. */
  lemma MarkToken(doc: string, at: nat, mark: string, token: Token)
    requires at <= |doc| && StartsWith(doc, SkipBlank(doc, at), mark)
    requires mark == "," || mark == ":" || mark == "]" || mark == "}"
    ensures var p := SkipBlank(doc, at);
            p < |doc| && doc[p] != '/' && doc[p] == mark[0]
            && (TokenAt(doc, p, token) ==> token == Token(MarkKind(mark), p, p + 1))
  {
    StartsChar(doc, SkipBlank(doc, at), mark);
  }

  lemma BlanksThen(doc: string, at: nat, lead: string, mark: string)
    requires Blank(lead) && StartsWith(doc, at, lead) && StartsWith(doc, at + |lead|, mark)
    requires mark == "," || mark == ":" || mark == "]" || mark == "}"
    ensures SkipBlank(doc, at) == at + |lead| && at < |doc| && Ends(doc, at)
  {
    StartsChar(doc, at + |lead|, mark);
    BlanksSkipped(doc, at, lead);
    if lead != [] {
      StartsChar(doc, at, lead);
    }
  }

  /** One more element read. */
  lemma ElemsStep(es: seq<Elem>, named: bool, i: nat)
    requires ValidElems(es, named) && i < |es|
    ensures ValidTag(es[i].tag, named)
    ensures ValidElems(es[..i], named) && ValidElems(es[..i + 1], named) && ValidElem(es[i], named)
    ensures PutAll(ElemPairs(es[..i + 1], named))
            == Put(PutAll(ElemPairs(es[..i], named)), KeyOf(es[i].tag, i, named), Meaning(es[i].value))
    ensures DepthElems(es[..i + 1]) == Max(DepthElems(es[..i]), Depth(es[i].value))
    ensures Depth(es[i].value) <= DepthElems(es)
  {
    hide Show;
    hide ShowElems;
    hide ValidElems;
    hide ValidSyntax;
    hide Meaning;
    hide Depth;
    hide PutAll;
    hide ElemPairs;
    hide DepthElems;
    ElemValid(es, named, i);
    assert es[..i + 1] == es[..i] + [es[i]];
    ElemsSnoc(es[..i], es[i], named);
    PutSnoc(ElemPairs(es[..i], named), ElemPair(es[i], i, named));
  }

  /** The elements are readable if and only if each is. */
  lemma {:induction false} ElemsReadable(es: seq<Elem>, named: bool, i: nat)
    requires ValidElems(es, named) && i < |es|
    ensures ValidElems(es[..i], named) && ValidElems(es[..i + 1], named) && ValidElem(es[i], named)
    ensures NarrowElems(es[..i + 1]) <==> NarrowElems(es[..i]) && Narrow(es[i].value)
    ensures AcceptedElems(es[..i + 1], named) <==> AcceptedElems(es[..i], named) && Accepted(es[i].value)
    ensures NarrowElems(es) ==> Narrow(es[i].value)
    ensures AcceptedElems(es, named) ==> Accepted(es[i].value)
  {
    hide Narrow;
    hide Accepted;
    hide NarrowElems;
    hide AcceptedElems;
    hide ValidElems;
    hide ValidElem;
    ElemValid(es, named, i);
    assert es[..i + 1] == es[..i] + [es[i]];
    StrictSnoc(es[..i], es[i], named);
    AcceptedSnoc(es[..i], es[i], named);
    ReadableAt(es, named, i);
  }

  lemma {:induction false} ReadableAt(es: seq<Elem>, named: bool, i: nat)
    requires ValidElems(es, named) && i < |es|
    ensures ValidElem(es[i], named)
    ensures NarrowElems(es) ==> Narrow(es[i].value)
    ensures AcceptedElems(es, named) ==> Accepted(es[i].value)
    decreases |es|
  {
    var init := es[..|es| - 1];
    if i < |init| {
      ReadableAt(init, named, i);
    } else {
      assert NarrowElem(es[i]) <==> Narrow(es[i].value);
      assert ValidElem(es[i], named);
      assert AcceptedElem(es[i], named) <==> Accepted(es[i].value);
    }
  }

  // ---- What the values of a container say about it ----

  lemma ScalarReadable(s: Syntax)
    ensures !s.List? && !s.Record? && ValidSyntax(s) ==> Depth(s) == 1 && Narrow(s) && Accepted(s)
  {
  }

  /** A call that did not read a value says the same of the container. */
  lemma ChildExplained(r: Outcome, s: Syntax, i: nat, top: Value, depth: nat)
    requires (s.List? || s.Record?) && ValidSyntax(s) && i < |s.elems| && ValidElem(s.elems[i], s.Record?)
    requires (top.Arr? || top.Obj?) && Stepped(s.elems, s.Record?, i, top, depth)
    requires Explained(r, s.elems[i].value, depth)
    ensures r != Done(true) ==> Explained(r, s, depth - 1)
    ensures r == Done(true) ==>
              Progress(s.elems, s.Record?, i + 1,
                       WithEntry(top, KeyOf(s.elems[i].tag, i, s.Record?), Meaning(s.elems[i].value)), depth)
  {
    hide Progress;
    hide NarrowElems;
    hide AcceptedElems;
    hide DepthElems;
    hide ValidElems;
    hide ValidElem;
    hide Meaning;
    hide WithEntry;
  }

  /** The state of readArray at the head of its loop: i elements read, and the next one at the cursor. */
  ghost predicate ElementAt(doc: string, start: nat, s: Syntax, i: nat, at: nat, top: Value, depth: nat, lead: string) {
    && s.List? && BodyAt(doc, start, s.elems, s.close, false)
    && i < |s.elems| && Progress(s.elems, false, i, top, depth)
    && TextAt(doc, at, lead, s.elems[i].value)
    && at + |lead| == start + ValueFrom(s.elems, i) + |s.elems[i].before|
  }

  /** Behind the opening bracket: the list is done if there is nothing in it, and at its first element
      otherwise. */
  lemma ArrayStart(doc: string, start: nat, s: Syntax, depth: nat) returns (lead: string)
    requires s.List? && BodyAt(doc, start, s.elems, s.close, false) && start <= |doc| && depth <= STACK_LIMIT
    ensures var p := SkipBlank(doc, start);
            if s.elems == [] then
              && Explained(Done(true), s, depth - 1) && Arr([]) == Meaning(s)
              && p + 1 == start + |ShowElems(s.elems)| + |s.close| + 1
              && p < |doc| && StartsWith(doc, p, "]") && doc[p] == ']'
            else
              p < |doc| && doc[p] != ']' && ElementAt(doc, start, s, 0, p, Arr([]), depth, lead)
  {
    hide BodyAt;
    hide Progress;
    hide TextAt;
    hide SkipBlank;
    hide StartsWith;
    hide Meaning;
    hide Explained;
    hide ShowElems;
    lead := "";
    ProgressStart(doc, start, s.elems, s.close, false, depth);
    if s.elems == [] {
      EmptyBody(doc, start, s.close, false);
      ListDone(doc, start, s, Arr([]), depth);
    } else {
      FirstElem(doc, start, s.elems, s.close);
    }
  }

  lemma TooMany(doc: string, start: nat, s: Syntax, i: nat, at: nat, top: Value, depth: nat, lead: string)
    requires ElementAt(doc, start, s, i, at, top, depth, lead) && ValidSyntax(s) && i == MAX_INT
    ensures Explained(TooLarge, s, depth - 1)
  {
    hide BodyAt;
    hide Progress;
    hide TextAt;
  }

  /** An element that has been read, and what follows it. */
  lemma ArrayStep(doc: string, start: nat, s: Syntax, i: nat, built: Value, depth: nat, next: Next, at: nat)
    returns (lead: string)
    requires s.List? && i < |s.elems| && i < MAX_INT && BodyAt(doc, start, s.elems, s.close, false)
    requires Progress(s.elems, false, i + 1, built, depth) && NextAt(start, s, i, next, at)
    ensures next == Closed ==>
              && ValidSyntax(s) && built == Meaning(s) && Explained(Done(true), s, depth - 1)
              && at == start + |ShowElems(s.elems)| + |s.close| + 1
    ensures next == More ==> ElementAt(doc, start, s, i + 1, at, built, depth, lead)
  {
    hide Progress;
    hide BodyAt;
    hide TextAt;
    hide ShowElems;
    hide Meaning;
    hide Explained;
    lead := "";
    if next == Closed {
      ListDone(doc, start, s, built, depth);
    } else if next == More {
      NextElement(doc, start, s.elems, s.close, i + 1);
      lead := s.elems[i + 1].lead + s.elems[i + 1].before;
    }
  }

  lemma ListDone(doc: string, start: nat, s: Syntax, top: Value, depth: nat)
    requires s.List? && |s.elems| <= MAX_INT && BodyAt(doc, start, s.elems, s.close, false)
    requires Progress(s.elems, false, |s.elems|, top, depth)
    ensures ValidSyntax(s) && top == Meaning(s) && Explained(Done(true), s, depth - 1)
  {
    hide Progress;
    hide BodyAt;
    hide Meaning;
    ProgressDone(doc, start, s, top, depth);
  }

  /** What readObject does with the token at the head of its loop. */
  lemma RecordHead(doc: string, start: nat, s: Syntax, i: nat, at: nat, top: Value, depth: nat, name: string,
      token: Token)
    requires RecordAt(doc, start, s, i, at, top, depth, name) && ValidSyntax(s)
    requires at <= |doc| && token == Uncommented(doc, at)
    ensures s.Record? && BodyAt(doc, start, s.elems, s.close, true)
    ensures token.kind == ObjectEnd && name == "" ==>
              && Explained(Done(true), s, depth - 1) && top == Meaning(s)
              && token.end == start + |ShowElems(s.elems)| + |s.close| + 1
    ensures token.kind != StringToken && !(token.kind == ObjectEnd && name == "") ==>
              Explained(Done(false), s, depth - 1)
    ensures token.kind == StringToken ==>
              && NextMember(doc, start, s, i, top, depth) && NameAt(doc, s.elems[i], token)
              && token.start + |ShowTag(s.elems[i].tag)| == start + ValueFrom(s.elems, i)
  {
    hide TokenOf;
    hide Progress;
    hide NameAt;
    hide BodyAt;
    hide SkipBlank;
    hide Meaning;
    hide ShowTag;
    hide ShowElems;
    hide ValidSyntax;
    hide Accepted;
    hide ValueFrom;
    hide NextMember;
    RecordAhead(doc, start, s, i, at, top, depth, name, token);
    hide RecordAt;
    FirstUncommented(doc, at);
  }

  lemma FirstUncommented(doc: string, at: nat)
    requires at <= |doc|
    ensures var p := SkipBlank(doc, at); p < |doc| && doc[p] != '/' ==> TokenAt(doc, p, Uncommented(doc, at))
  {
    hide TokenOf;
  }

  /** The i-th member of a record has been read, and the cursor is behind its value. */
  ghost predicate MemberRead(start: nat, s: Syntax, i: nat, at: nat, top: Value, depth: nat, name: string) {
    && s.Record? && i < |s.elems| && Progress(s.elems, true, i + 1, top, depth) && at == start + ValueEnd(s.elems, i)
    && ValidElem(s.elems[i], true) && name == NameOf(s.elems[i])
  }

  /** A member that has been read, and what follows it. */
  lemma RecordStep(doc: string, start: nat, s: Syntax, i: nat, built: Value, depth: nat, name: string,
      next: Next, at: nat)
    requires s.Record? && i < |s.elems| && BodyAt(doc, start, s.elems, s.close, true)
    requires NextAt(start, s, i, next, at) && exists p :: MemberRead(start, s, i, p, built, depth, name)
    ensures next == Closed ==>
              && ValidSyntax(s) && built == Meaning(s) && Explained(Done(true), s, depth - 1)
              && at == start + |ShowElems(s.elems)| + |s.close| + 1
    ensures next == More ==> RecordAt(doc, start, s, i + 1, at, built, depth, name)
  {
    hide Progress;
    hide ShowElems;
    hide PiecesText;
    hide Meaning;
    ElemValid(s.elems, true, i);
    if next == Closed {
      ProgressDone(doc, start, s, built, depth);
    }
  }

  class Reader {
    const doc: string
    /** The byte at *end_, which readArray may look at. */
    const past: char
    /** istream >> double. */
    const toDouble: string -> Option<Double>

    var current: nat
    var nodes: seq<Value>
    var errors: seq<ErrorInfo>
    var stackDepth: nat

    constructor (doc: string, past: char, toDouble: string -> Option<Double>)
      ensures this.doc == doc && this.past == past && this.toDouble == toDouble
    {
      this.doc, this.past, this.toDouble := doc, past, toDouble;
      current, nodes, errors, stackDepth := 0, [], [], 0;
    }

    function Source(): Input {
      Input(doc, past, toDouble)
    }

    // ---- Characters ----

    method GetNextChar() returns (c: char)
      requires current <= |doc|
      modifies this`current
      ensures if old(current) == |doc| then c == '\0' && current == |doc|
              else c == doc[old(current)] && current == old(current) + 1
    {
      if current == |doc| {
        return '\0';
      }
      c := doc[current];
      current := current + 1;
    }

    method SkipSpaces()
      requires current <= |doc|
      modifies this`current
      ensures current == SkipBlank(doc, old(current))
    {
      while current != |doc|
        invariant current <= |doc| && SkipBlank(doc, current) == SkipBlank(doc, old(current))
        decreases |doc| - current
      {
        var c := doc[current];
        if c == ' ' || c == '\t' || c == '\r' || c == '\n' {
          current := current + 1;
        } else {
          break;
        }
      }
    }

    /** Compares from the back, as the source does. */
    method Match(pattern: string) returns (ok: bool)
      requires current <= |doc|
      modifies this`current
      ensures ok == StartsWith(doc, old(current), pattern)
      ensures current == if ok then old(current) + |pattern| else old(current)
    {
      if |doc| - current < |pattern| {
        return false;
      }
      var index := |pattern|;
      while index > 0
        invariant 0 <= index <= |pattern|
        invariant forall i :: index <= i < |pattern| ==> doc[current + i] == pattern[i]
      {
        index := index - 1;
        if doc[current + index] != pattern[index] {
          assert doc[current..current + |pattern|][index] != pattern[index];
          return false;
        }
      }
      assert doc[current..current + |pattern|] == pattern;
      current := current + |pattern|;
      ok := true;
    }

    // ---- Tokens ----

    method ReadString() returns (ok: bool)
      requires current <= |doc|
      modifies this`current
      ensures match StringEnd(doc, old(current)) case Some(e) => ok && current == e case None => !ok && current == |doc|
    {
      var c := '\0';
      while current != |doc|
        invariant current <= |doc| && c != '\"'
        invariant StringEnd(doc, current) == StringEnd(doc, old(current))
        decreases |doc| - current
      {
        c := GetNextChar();
        if c == '\\' {
          var _ := GetNextChar();
        } else if c == '\"' {
          break;
        }
      }
      ok := c == '\"';
    }

    /** c = (current_ = p) < end_ ? *p++ : NUL. */
    method Advance(p: nat) returns (p': nat, c: char)
      requires p <= |doc|
      modifies this`current
      ensures current == p && p <= p' <= |doc|
      ensures if p < |doc| then p' == p + 1 && c == doc[p] else p' == p && c == '\0'
    {
      current := p;
      if current < |doc| {
        return p + 1, doc[p];
      }
      return p, '\0';
    }

    /** As long as c is a digit. */
    method ReadDigits(p0: nat, c0: char) returns (p: nat, c: char)
      requires current <= |doc| && p0 <= |doc|
      modifies this`current
      ensures p0 <= p <= |doc| && !IsDigit(c)
      ensures if IsDigit(c0) then current == DigitEnd(doc, p0) else current == old(current) && p == p0 && c == c0
      ensures IsDigit(c0) && current < |doc| ==> p == current + 1 && c == doc[current]
      ensures IsDigit(c0) && current == |doc| ==> p == |doc| && c == '\0'
    {
      p, c := p0, c0;
      while '0' <= c <= '9'
        invariant p0 <= p <= |doc|
        invariant !IsDigit(c0) ==> current == old(current) && p == p0 && c == c0
        invariant IsDigit(c) ==> DigitEnd(doc, p) == DigitEnd(doc, p0)
        invariant IsDigit(c0) && !IsDigit(c) ==> current == DigitEnd(doc, p0)
        invariant IsDigit(c0) && !IsDigit(c) && current < |doc| ==> p == current + 1 && c == doc[current]
        invariant IsDigit(c0) && !IsDigit(c) && current == |doc| ==> p == |doc| && c == '\0'
        decreases |doc| - p, if IsDigit(c) then 1 else 0
      {
        p, c := Advance(p);
      }
    }

    /** readNumber, called behind the first character of the number. */
    method ReadNumber()
      requires current <= |doc|
      modifies this`current
      ensures DigitEnd(doc, old(current)) <= current <= |doc|
      ensures current == ExponentEnd(doc, FractionEnd(doc, DigitEnd(doc, old(current))))
      ensures Ends(doc, DigitEnd(doc, old(current))) ==> current == DigitEnd(doc, old(current))
    {
      hide DigitEnd;
      var p, c := ReadDigits(current, '0');
      if c == '.' {
        p, c := Advance(p);
        DigitStep(doc, current);
        p, c := ReadDigits(p, c);
      }
      if c == 'e' || c == 'E' {
        p, c := Advance(p);
        if c == '+' || c == '-' {
          p, c := Advance(p);
        }
        DigitStep(doc, current);
        p, c := ReadDigits(p, c);
      }
    }

    /** readComment, called behind the first slash. */
    method ReadComment() returns (ok: bool)
      requires current <= |doc|
      modifies this`current
      ensures match CommentEnd(doc, old(current))
              case Some(e) => ok && current == e
              case None => !ok && current == CommentFailure(doc, old(current))
    {
      var c := GetNextChar();
      ok := false;
      if c == '*' {
        while current != |doc|
          invariant current <= |doc| && BlockEnd(doc, current) == CommentEnd(doc, old(current))
          decreases |doc| - current
        {
          c := GetNextChar();
          if c == '*' && (if current < |doc| then doc[current] else past) == '/' {
            break;
          }
        }
        c := GetNextChar();
        ok := c == '/';
      } else if c == '/' {
        ghost var begun := current;
        while current != |doc|
          invariant current <= |doc| && LineEnd(doc, current) == LineEnd(doc, begun)
          decreases |doc| - current
        {
          c := GetNextChar();
          if c == '\n' {
            break;
          }
          if c == '\r' {
            if current != |doc| && doc[current] == '\n' {
              var _ := GetNextChar();
            }
            break;
          }
        }
        ok := true;
      }
    }

    method ReadToken() returns (token: Token)
      requires current <= |doc|
      modifies this`current
      ensures old(current) <= token.start <= token.end == current <= |doc|
      ensures TokenAt(doc, SkipBlank(doc, old(current)), token)
    {
      SkipSpaces();
      var start := current;
      var c := GetNextChar();
      var ok := true;
      var kind := EndOfStream;
      match c {
      case '{' => kind := ObjectBegin;
      case '}' => kind := ObjectEnd;
      case '[' => kind := ArrayBegin;
      case ']' => kind := ArrayEnd;
      case '\"' =>
        kind := StringToken;
        ok := ReadString();
      case '/' =>
        kind := Comment;
        ok := ReadComment();
      case 't' =>
        kind := TrueToken;
        ok := Match("rue");
      case 'f' =>
        kind := FalseToken;
        ok := Match("alse");
      case 'n' =>
        kind := NullToken;
        ok := Match("ull");
      case ',' => kind := ArraySeparator;
      case ':' => kind := MemberSeparator;
      case '\0' => kind := EndOfStream;
      case _ =>
        if c == '-' || '0' <= c <= '9' {
          kind := NumberToken;
          ReadNumber();
        } else {
          ok := false;
        }
      }
      token := Token(if ok then kind else ErrorToken, start, current);
    }

    /** readToken, then again behind every comment. */
    method SkipCommentTokens() returns (token: Token)
      requires current <= |doc|
      modifies this`current
      ensures current == token.end && token == Uncommented(doc, old(current))
      ensures var p := SkipBlank(doc, old(current));
              p < |doc| && doc[p] != '/' ==> TokenAt(doc, p, token)
    {
      hide SkipBlank;
      token := ReadToken();
      hide TokenOf;
      while token.kind == Comment
        invariant current == token.end <= |doc|
        invariant old(current) <= token.start <= token.end && TokenAt(doc, token.start, token)
        invariant Uncommented(doc, old(current))
                  == if token.kind == Comment then Uncommented(doc, token.end) else token
        invariant TokenAt(doc, SkipBlank(doc, old(current)), token) || doc[SkipBlank(doc, old(current))] == '/'
        decreases |doc| - current, if token.kind == Comment then 1 else 0
      {
        token := ReadToken();
      }
    }

    // ---- Errors ----

    method AddError(message: Message, token: Token) returns (ok: bool)
      modifies this`errors
      ensures !ok && errors == old(errors) + [ErrorInfo(message, token)]
    {
      errors := errors + [ErrorInfo(message, token)];
      ok := false;
    }

    /** Skips to a token of the given kind, or to the end; recovery records no errors of its own. */
    method RecoverFromError(skipUntil: TokenType) returns (ok: bool)
      requires current <= |doc|
      modifies this`current, this`errors
      ensures !ok && errors == old(errors) && old(current) <= current == Recovered(doc, old(current), skipUntil)
    {
      hide SkipBlank;
      hide TokenOf;
      var errorCount := |errors|;
      while true
        invariant errorCount == |errors| && errors == old(errors) && old(current) <= current <= |doc|
        invariant Recovered(doc, current, skipUntil) == Recovered(doc, old(current), skipUntil)
        decreases |doc| - current
      {
        var skip := ReadToken();
        if skip.kind == skipUntil || skip.kind == EndOfStream {
          break;
        }
      }
      errors := errors[..errorCount];
      ok := false;
    }

    method AddErrorAndRecover(message: Message, token: Token, skipUntil: TokenType) returns (ok: bool)
      requires current <= |doc|
      modifies this`current, this`errors
      ensures !ok && errors == old(errors) + [ErrorInfo(message, token)]
      ensures old(current) <= current == Recovered(doc, old(current), skipUntil)
    {
      var _ := AddError(message, token);
      ok := RecoverFromError(skipUntil);
    }

    // ---- Values ----

    predicate Valid()
      reads this`current, this`nodes, this`stackDepth
    {
      current <= |doc| && nodes != [] && stackDepth <= STACK_LIMIT
    }

    function Top(): Value
      requires nodes != []
      reads this`nodes
    {
      nodes[|nodes| - 1]
    }

    method SetTop(v: Value)
      requires nodes != []
      modifies this`nodes
      ensures |nodes| == |old(nodes)| && Top() == v && Below() == old(Below())
    {
      nodes := nodes[..|nodes| - 1] + [v];
    }

    function Below(): seq<Value>
      requires nodes != []
      reads this`nodes
    {
      nodes[..|nodes| - 1]
    }

    /** decodeNumber(token). */
    method DecodeNumberToken(token: Token) returns (ok: bool)
      requires Valid() && token.start <= token.end <= |doc|
      modifies this`nodes, this`errors
      ensures |nodes| == |old(nodes)| && Below() == old(Below())
      ensures old(errors) <= errors && (ok <==> errors == old(errors))
      ensures var text := doc[token.start..token.end];
              IsIntegerText(text) && InRange(IntegerOf(text)) ==> ok && Top() == Number(IntegerOf(text))
      ensures NumberOf(doc[token.start..token.end], toDouble) == if ok then Some(Top()) else None
    {
      var decoded := DecodeNumber(doc[token.start..token.end], toDouble);
      if decoded.None? {
        ok := AddError(NotANumber, token);
        return;
      }
      SetTop(decoded.value);
      ok := true;
    }

    /** decodeString(token, decoded). */
    method DecodeStringToken(token: Token) returns (decoded: Option<string>)
      requires token.start + 2 <= token.end <= |doc|
      modifies this`errors
      ensures old(errors) <= errors && (decoded.Some? <==> errors == old(errors))
      ensures forall ps :: Spells(ps, doc[token.start + 1..token.end - 1]) ==> decoded == Some(PiecesText(ps))
      ensures if decoded.Some? then Denotes(doc, token, decoded.value) else forall text :: !Denotes(doc, token, text)
    {
      ghost var ps;
      decoded, ps := DecodeString(doc[token.start + 1..token.end - 1]);
      if decoded.None? {
        var _ := AddError(BadString, token);
      }
    }

    /** decodeString(token). */
    method ReadStringValue(token: Token) returns (r: Outcome)
      requires Valid() && token.start + 2 <= token.end <= |doc|
      modifies this`nodes, this`errors
      ensures |nodes| == |old(nodes)| && Below() == old(Below())
      ensures old(errors) <= errors && !r.StackLimit? && (r.Done? ==> (r.ok <==> errors == old(errors)))
      ensures forall ps :: Spells(ps, doc[token.start + 1..token.end - 1]) && |PiecesText(ps)| <= MAX_STRING ==>
                r == Done(true) && Top() == Str(PiecesText(ps))
      ensures if r == Done(true) then TextReads(doc, token, Top()) else forall v :: !TextReads(doc, token, v)
    {
      hide Denotes;
      hide StoredText;
      var decoded := DecodeStringToken(token);
      if decoded.None? {
        return Done(false);
      }
      var stored := StoredText(decoded.value);
      if stored.None? {
        forall v ensures !TextReads(doc, token, v) {
          NotStored(doc, token, decoded.value, v);
        }
        return TooLarge;
      }
      SetTop(Str(stored.value));
      r := Done(true);
    }

    /** The cases of readValue for tokens that are whole values. */
    method ReadScalar(token: Token, ghost g: Expect) returns (r: Outcome)
      requires Valid() && token.start <= |doc| && TokenAt(doc, token.start, token)
      requires g.Exactly? ==> ScalarAt(doc, token, g.s)
      modifies this`nodes, this`errors
      ensures |nodes| == |old(nodes)| && Below() == old(Below())
      ensures old(errors) <= errors && (r.Done? ==> (r.ok <==> errors == old(errors)))
      ensures r.Done? || (r == TooLarge && token.kind == StringToken)
      ensures g.Exactly? ==> r == Done(true) && Top() == Meaning(g.s)
      ensures if r == Done(true) then LeafReads(Source(), token, Top()) else forall v :: !LeafReads(Source(), token, v)
    {
      hide ScalarAt;
      hide Meaning;
      hide Spells;
      hide Denotes;
      hide TextReads;
      hide NumberOf;
      hide TokenOf;
      if g.Exactly? {
        WordScalar(doc, token, g.s);
      }
      r := Done(true);
      match token.kind {
        case NumberToken =>
          if g.Exactly? {
            IntegerScalar(doc, token, g.s);
          }
          var ok := DecodeNumberToken(token);
          r := Done(ok);
        case StringToken =>
          if g.Exactly? {
            TextScalar(doc, token, g.s);
          }
          r := ReadStringValue(token);
        case TrueToken =>
          SetTop(Bool(true));
        case FalseToken =>
          SetTop(Bool(false));
        case NullToken =>
          SetTop(Null);
        case _ =>
          var ok := AddError(ValueExpected, token);
          r := Done(ok);
      }
    }

    /** Reads one value into the current node.  Whatever the document, what is read is a sentence of the
        language, and the node is its meaning.  Every outcome says what is the case with a text of the
        grammar: it is read exactly if it is readable, and otherwise the outcome names what is wrong. */
    method ReadValue(ghost g: Expect) returns (r: Outcome, ghost tree: Tree)
      requires Valid()
      requires g.Exactly? ==> TextAt(doc, current, g.lead, g.s)
      modifies this
      // what every call that returns keeps: the node stack below the current value, the errors recorded
      // so far, and success exactly when it recorded none
      ensures r.Done? ==> Valid() && old(current) <= current && |nodes| == |old(nodes)| && Below() == old(Below())
      ensures r.Done? ==> old(errors) <= errors && (r.ok <==> errors == old(errors))
      ensures r.Done? ==> old(stackDepth) <= stackDepth && (r.ok ==> stackDepth == old(stackDepth))
      ensures Judged(r, Source(), Uncommented(doc, old(current)), old(stackDepth))
      ensures r == Done(true) ==>
                && Reads(Source(), Uncommented(doc, old(current)), tree) && current == tree.end
                && Top() == TreeValue(tree) && TreeDepth(tree) <= STACK_LIMIT - old(stackDepth)
                && NarrowTree(tree)
      ensures g.Exactly? ==> Explained(r, g.s, old(stackDepth))
      ensures g.Exactly? && r == Done(true) ==>
                Top() == Meaning(g.s) && current == old(current) + |g.lead| + |Show(g.s)|
      decreases |doc| - current, 0
    {
      hide TextAt;
      hide BodyAt;
      hide ScalarAt;
      hide TokenOf;
      hide SkipBlank;
      hide Show;
      hide ShowElems;
      hide Depth;
      hide DepthElems;
      hide Meaning;
      hide Narrow;
      hide Accepted;
      hide ValidSyntax;
      hide ListReads;
      hide RecordReads;
      hide LeafReads;
      hide Judged;
      hide ListJudged;
      hide RecordJudged;
      hide Reads;
      hide TreeValue;
      hide TreeDepth;
      hide NarrowTree;
      hide Uncommented;
      tree := Leaf(Null, 0);
      if stackDepth >= STACK_LIMIT {
        TooDeepJudged(Source(), Uncommented(doc, current), stackDepth);
        return StackLimit, tree;
      }
      stackDepth := stackDepth + 1;
      ghost var at := current;
      var token := SkipCommentTokens();
      if g.Exactly? {
        FirstTokenMeaning(doc, at, g.lead, g.s, token);
      }
      if token.kind == ObjectBegin {
        r, tree := ReadObject(g);
        RecordTokenJudged(r, Source(), token, old(stackDepth));
        ContainerReads(Source(), token, tree);
      } else if token.kind == ArrayBegin {
        r, tree := ReadArray(g);
        ListTokenJudged(r, Source(), token, old(stackDepth));
        ContainerReads(Source(), token, tree);
      } else {
        if g.Exactly? {
          ScalarReadable(g.s);
        }
        r := ReadScalar(token, g);
        tree := Leaf(Top(), current);
        LeafJudged(r, Source(), token, old(stackDepth));
        LeafIs(Source(), token, Top());
        if r == Done(false) && token.kind != NumberToken && token.kind != StringToken {
          return;
        }
      }
      if r.Done? {
        stackDepth := stackDepth - 1;
      }
    }

    /** Takes a reference to the slot under key, pushes it, reads a value into it and pops it. */
    method ReadChild(key: Key, ghost g: Expect) returns (r: Outcome, ghost tree: Tree)
      requires Valid() && (Top().Arr? || Top().Obj?)
      requires g.Exactly? ==> TextAt(doc, current, g.lead, g.s)
      modifies this
      ensures r.Done? ==> Valid() && old(current) <= current && |nodes| == |old(nodes)| && Below() == old(Below())
      ensures r.Done? ==> old(errors) <= errors && (r.ok <==> errors == old(errors))
      ensures r.Done? ==> old(stackDepth) <= stackDepth && (r.ok ==> stackDepth == old(stackDepth))
      ensures r.Done? ==> (Top().Arr? <==> old(Top()).Arr?) && (Top().Obj? <==> old(Top()).Obj?)
      ensures Judged(r, Source(), Uncommented(doc, old(current)), old(stackDepth))
      ensures r == Done(true) ==>
                && Reads(Source(), Uncommented(doc, old(current)), tree) && current == tree.end
                && Top() == WithEntry(old(Top()), key, TreeValue(tree))
                && TreeDepth(tree) <= STACK_LIMIT - old(stackDepth) && NarrowTree(tree)
      ensures g.Exactly? ==> Explained(r, g.s, old(stackDepth))
      ensures g.Exactly? && r == Done(true) ==>
                Top() == WithEntry(old(Top()), key, Meaning(g.s)) && current == old(current) + |g.lead| + |Show(g.s)|
      decreases |doc| - current, 1
    {
      hide TextAt;
      hide Explained;
      hide Show;
      hide Meaning;
      hide Find;
      hide Put;
      hide Reads;
      hide Judged;
      hide TreeValue;
      ghost var before := nodes;
      nodes := nodes + [Find(Top().entries, key)];
      assert Below() == before;
      r, tree := ReadValue(g);
      if r.Done? {
        var child := Top();
        nodes := Below();
        assert nodes == before;
        SetTop(WithEntry(Top(), key, child));
      }
    }

    /** The end of readArray's loop: a comma, or the closing bracket. */
    method ArrayNext(ghost g: Expect, ghost start: nat, ghost i: nat) returns (next: Next)
      requires Valid()
      requires g.Exactly? ==> g.s.List? && ValueReadAt(doc, start, g.s, i, current)
      modifies this`current, this`errors
      ensures old(current) <= current <= |doc| && (next == More ==> old(current) < current)
      ensures old(errors) <= errors && (next == Failed <==> errors != old(errors))
      ensures g.Exactly? ==> NextAt(start, g.s, i, next, current)
      ensures next == Closed ==> ClosesWith(doc, old(current), ArrayEnd, current)
      ensures var behind := Behind(doc, old(current));
              && (next == More ==> behind.kind == ArraySeparator && current == behind.end)
              && (next == Failed ==> behind.kind != ArraySeparator && behind.kind != ArrayEnd)
    {
      hide TokenOf;
      hide ValueReadAt;
      ghost var at := current;
      var token := SkipCommentTokens();
      if g.Exactly? {
        Separator(doc, start, g.s, i, at, token);
      }
      if token.kind != ArraySeparator && token.kind != ArrayEnd {
        var _ := AddErrorAndRecover(MissingArraySeparator, token, ArrayEnd);
        return Failed;
      }
      next := if token.kind == ArrayEnd then Closed else More;
    }

    /** The end of readObject's loop.  Behind a comment every token passes for a comma. */
    method ObjectNext(ghost g: Expect, ghost start: nat, ghost i: nat) returns (next: Next)
      requires Valid()
      requires g.Exactly? ==> g.s.Record? && ValueReadAt(doc, start, g.s, i, current)
      modifies this`current, this`errors
      ensures old(current) <= current <= |doc|
      ensures old(errors) <= errors && (next == Failed <==> errors != old(errors))
      ensures g.Exactly? ==> NextAt(start, g.s, i, next, current)
      ensures next == More ==> GoesOn(doc, old(current)) && current == Behind(doc, old(current)).end
      ensures next == Closed ==> ClosesWith(doc, old(current), ObjectEnd, current)
      ensures next == Failed ==> !GoesOn(doc, old(current)) && Behind(doc, old(current)).kind != ObjectEnd
    {
      hide TokenAt;
      hide ValueReadAt;
      ghost var at := current;
      var comma := ReadToken();
      if g.Exactly? {
        Separator(doc, start, g.s, i, at, comma);
      }
      if comma.kind != ObjectEnd && comma.kind != ArraySeparator && comma.kind != Comment {
        var _ := AddErrorAndRecover(MissingObjectSeparator, comma, ObjectEnd);
        return Failed;
      }
      if comma.kind == Comment {
        comma := SkipCommentTokens();
      }
      next := if comma.kind == ObjectEnd then Closed else More;
    }

    /** The name and the colon of a member, behind the token of the name. */
    method ReadName(tokenName: Token, ghost g: Expect, ghost e: Elem) returns (name: Option<string>)
      requires Valid() && tokenName.end == current && tokenName.start + 2 <= current
      requires g.Exactly? ==> NameAt(doc, e, tokenName)
      modifies this`current, this`errors
      ensures old(current) <= current <= |doc|
      ensures old(errors) <= errors && (name.None? <==> errors != old(errors))
      ensures var colon := TokenOf(doc, SkipBlank(doc, old(current)));
              if name.Some? then
                Denotes(doc, tokenName, name.value) && colon.kind == MemberSeparator && current == colon.end
              else (forall text :: !Denotes(doc, tokenName, text)) || colon.kind != MemberSeparator
      ensures g.Exactly? ==> name == Some(PiecesText(e.tag.value.name))
                             && current == tokenName.start + |ShowTag(e.tag)|
    {
      hide TokenAt;
      hide SkipBlank;
      hide StartsWith;
      hide Denotes;
      hide Spells;
      hide PiecesText;
      hide ValidPieces;
      hide ShowTag;
      hide Recovered;
      hide Uncommented;
      name := DecodeStringToken(tokenName);
      if name.None? {
        var _ := RecoverFromError(ObjectEnd);
        return;
      }
      ghost var at := current;
      var colon := ReadToken();
      if g.Exactly? {
        MarkToken(doc, at, ":", colon);
      }
      if colon.kind != MemberSeparator {
        var _ := AddErrorAndRecover(MissingColon, colon, ObjectEnd);
        name := None;
      }
    }

    /** One element, or what is left of the array when it cannot be read. */
    method ReadElement(index: nat, ghost g: Expect, ghost lead: string) returns (r: Outcome, ghost tree: Tree)
      requires Valid() && Top().Arr?
      requires g.Exactly? ==> g.s.List? && ValidSyntax(g.s) && index < |g.s.elems|
                              && Progress(g.s.elems, false, index, Top(), stackDepth)
                              && TextAt(doc, current, lead, g.s.elems[index].value)
      modifies this
      ensures r.Done? ==> Valid() && old(current) <= current && |nodes| == |old(nodes)| && Below() == old(Below())
      ensures r.Done? ==> old(errors) <= errors && (r.ok <==> errors == old(errors))
      ensures r.Done? ==> old(stackDepth) <= stackDepth && (r.ok ==> stackDepth == old(stackDepth) && Top().Arr?)
      ensures Judged(r, Source(), Uncommented(doc, old(current)), old(stackDepth))
      ensures r == Done(true) ==>
                && Reads(Source(), Uncommented(doc, old(current)), tree) && current == tree.end
                && Top() == WithEntry(old(Top()), Index(index), TreeValue(tree))
                && TreeDepth(tree) <= STACK_LIMIT - old(stackDepth) && NarrowTree(tree)
      ensures g.Exactly? && r != Done(true) ==> Explained(r, g.s, old(stackDepth) - 1)
      ensures g.Exactly? && r == Done(true) ==>
                && Progress(g.s.elems, false, index + 1, Top(), stackDepth)
                && current == old(current) + |lead| + |Show(g.s.elems[index].value)|
      decreases |doc| - current, 2
    {
      hide TextAt;
      hide TokenOf;
      hide Show;
      hide Meaning;
      hide Reads;
      hide Verdict;
      hide TreeValue;
      hide WithEntry;
      hide Progress;
      hide Stepped;
      hide Explained;
      hide ValidSyntax;
      ghost var top, e := Top(), if g.Exactly? then g.s.elems[index] else NoElem();
      if g.Exactly? {
        ProgressStep(g.s.elems, false, index, top, stackDepth);
      }
      r, tree := ReadChild(Index(index), if g.Exactly? then Exactly(lead, e.value) else Anything);
      if g.Exactly? {
        ChildExplained(r, g.s, index, top, old(stackDepth));
      }
      if r == Done(false) {
        var ok := RecoverFromError(ArrayEnd);
        r := Done(ok);
      }
    }

    /** One round of readArray's loop: an element and what follows it. */
    method ReadNextElement(index: nat, ghost g: Expect, ghost start: nat, ghost lead: string, ghost trees: seq<Tree>)
      returns (r: Outcome, next: Next, ghost leadNext: string, ghost e: Tree)
      requires Valid() && Top().Arr? && start <= |doc| && index == |trees| < MAX_INT
      requires ListAt(Source(), start, trees, current, Top(), STACK_LIMIT - stackDepth)
      requires g.Exactly? ==> ValidSyntax(g.s) && ElementAt(doc, start, g.s, index, current, Top(), stackDepth, lead)
      modifies this
      ensures r.Done? ==> Valid() && old(current) <= current && |nodes| == |old(nodes)| && Below() == old(Below())
      ensures r.Done? ==> old(errors) <= errors && (r.ok <==> errors == old(errors))
      ensures r.Done? ==> old(stackDepth) <= stackDepth && (r.ok ==> stackDepth == old(stackDepth) && Top().Arr?)
      ensures ListJudged(r, Source(), start, old(stackDepth) - 1)
      ensures r == Done(true) && next == More ==>
                old(current) < current && ListAt(Source(), start, trees + [e], current, Top(), STACK_LIMIT - stackDepth)
      ensures r == Done(true) && next != More ==>
                && next == Closed && ListReads(Source(), start, trees + [e], current)
                && var tree := ListTree(trees + [e], current);
                Top() == TreeValue(tree) && TreeDepth(tree) <= STACK_LIMIT - stackDepth + 1 && NarrowTree(tree)
      ensures g.Exactly? && r != Done(true) ==> Explained(r, g.s, old(stackDepth) - 1)
      ensures g.Exactly? && r == Done(true) && next == More ==>
                ElementAt(doc, start, g.s, index + 1, current, Top(), stackDepth, leadNext)
      ensures g.Exactly? && r == Done(true) && next == Closed ==>
                && Explained(r, g.s, old(stackDepth) - 1) && Top() == Meaning(g.s)
                && current == start + |ShowElems(g.s.elems)| + |g.s.close| + 1
      decreases |doc| - current, 3
    {
      hide TextAt;
      hide BodyAt;
      hide TokenOf;
      hide Show;
      hide ShowElems;
      hide ShowTag;
      hide Meaning;
      hide Progress;
      hide Explained;
      hide ValidSyntax;
      hide From;
      hide ValueFrom;
      hide WithEntry;
      hide Reads;
      hide Judged;
      hide ListJudged;
      hide ListAt;
      hide ListReads;
      hide TreeValue;
      hide TreeDepth;
      hide Behind;
      hide ClosesWith;
      ghost var at, top := current, Top();
      next, leadNext := Failed, "";
      r, e := ReadElement(index, g, lead);
      ElementJudged(r, Source(), start, trees, at, top, STACK_LIMIT - old(stackDepth), old(stackDepth));
      if r != Done(true) {
        return;
      }
      next := ArrayNext(g, start, index);
      if next == Failed {
        r := Done(false);
        SeparatorJudged(Source(), start, trees, at, top, STACK_LIMIT - stackDepth, e, stackDepth - 1);
        return;
      }
      if next == Closed {
        ListEnd(Source(), start, trees, at, top, STACK_LIMIT - stackDepth, e, current);
      } else {
        ListStep(Source(), start, trees, at, top, STACK_LIMIT - stackDepth, e);
      }
      if g.Exactly? {
        leadNext := ArrayStep(doc, start, g.s, index, Top(), stackDepth, next, current);
      }
    }

    /** readArray, called behind "[". */
    method ReadArray(ghost g: Expect) returns (r: Outcome, ghost tree: Tree)
      requires Valid()
      requires g.Exactly? ==> g.s.List? && ValidSyntax(g.s) && BodyAt(doc, current, g.s.elems, g.s.close, false)
      modifies this
      ensures r.Done? ==> Valid() && old(current) <= current && |nodes| == |old(nodes)| && Below() == old(Below())
      ensures r.Done? ==> old(errors) <= errors && (r.ok <==> errors == old(errors))
      ensures r.Done? ==> old(stackDepth) <= stackDepth && (r.ok ==> stackDepth == old(stackDepth))
      ensures ListJudged(r, Source(), old(current), old(stackDepth) - 1)
      ensures r == Done(true) ==>
                && tree.ListTree? && ListReads(Source(), old(current), tree.elems, tree.end) && current == tree.end
                && Top() == TreeValue(tree) && TreeDepth(tree) <= STACK_LIMIT - old(stackDepth) + 1 && NarrowTree(tree)
      ensures g.Exactly? ==> Explained(r, g.s, old(stackDepth) - 1)
      ensures g.Exactly? && r == Done(true) ==>
                Top() == Meaning(g.s) && current == old(current) + |ShowElems(g.s.elems)| + |g.s.close| + 1
      decreases |doc| - current, 5
    {
      hide TextAt;
      hide TokenOf;
      hide StartsWith;
      hide SkipBlank;
      hide Ends;
      hide Show;
      hide ShowElems;
      hide ShowTag;
      hide Depth;
      hide DepthElems;
      hide Meaning;
      hide Narrow;
      hide Accepted;
      hide NarrowElems;
      hide AcceptedElems;
      hide Progress;
      hide Stepped;
      hide Explained;
      hide ValidSyntax;
      hide ValidElem;
      hide ValidElems;
      hide BodyAt;
      hide WithEntry;
      hide From;
      hide ValueFrom;
      hide Reads;
      hide ListJudged;
      hide ListAt;
      hide ListReads;
      hide TreeValue;
      hide TreeDepth;
      hide Behind;
      hide ClosesWith;
      hide ElementAt;
      ghost var start, lead, trees: seq<Tree> := current, "", [];
      tree := ListTree([], 0);
      if g.Exactly? {
        lead := ArrayStart(doc, start, g.s, stackDepth);
      }
      SetTop(Arr([]));
      SkipSpaces();
      if (if current < |doc| then doc[current] else past) == ']' {
        ghost var at := current;
        var token := ReadToken();
        BlankTwice(doc, start);
        if g.Exactly? {
          MarkToken(doc, at, "]", token);
        }
        EmptyListReads(Source(), start, current);
        ListDoneJudged(Source(), start, stackDepth - 1);
        return Done(true), ListTree([], current);
      }
      ListStart(Source(), start, STACK_LIMIT - stackDepth);
      var index := 0;
      while true
        invariant Valid() && |nodes| == |old(nodes)| && Below() == old(Below()) && Top().Arr?
        invariant start <= current && errors == old(errors) && stackDepth == old(stackDepth)
        invariant g.Exactly? ==> ElementAt(doc, start, g.s, index, current, Top(), stackDepth, lead)
        invariant index == |trees| <= MAX_INT
        invariant ListAt(Source(), start, trees, current, Top(), STACK_LIMIT - stackDepth)
        decreases |doc| - current
      {
        // index++ would overflow
        if index == MAX_INT {
          if g.Exactly? {
            TooMany(doc, start, g.s, index, current, Top(), stackDepth, lead);
          }
          TooManyJudged(Source(), start, trees, current, Top(), STACK_LIMIT - stackDepth, stackDepth - 1);
          return TooLarge, tree;
        }
        var next;
        ghost var e;
        r, next, lead, e := ReadNextElement(index, g, start, lead, trees);
        index := index + 1;
        trees := trees + [e];
        if r != Done(true) {
          return;
        }
        if next == Closed {
          return Done(true), ListTree(trees, current);
        }
      }
    }

    /** The value of a member, or what is left of the object when it cannot be read. */
    method ReadMemberValue(name: string, ghost g: Expect, ghost start: nat, ghost i: nat)
      returns (r: Outcome, ghost tree: Tree)
      requires Valid() && Top().Obj?
      requires g.Exactly? ==> NextMember(doc, start, g.s, i, Top(), stackDepth) && ValidSyntax(g.s)
      requires g.Exactly? ==> name == NameOf(g.s.elems[i]) && current == start + ValueFrom(g.s.elems, i)
      modifies this
      ensures r.Done? ==> Valid() && old(current) <= current && |nodes| == |old(nodes)| && Below() == old(Below())
      ensures r.Done? ==> old(errors) <= errors && (r.ok <==> errors == old(errors))
      ensures r.Done? ==> old(stackDepth) <= stackDepth && (r.ok ==> stackDepth == old(stackDepth) && Top().Obj?)
      ensures Judged(r, Source(), Uncommented(doc, old(current)), old(stackDepth))
      ensures r == Done(true) ==>
                && Reads(Source(), Uncommented(doc, old(current)), tree) && current == tree.end
                && Top() == WithEntry(old(Top()), Name(StoredName(name)), TreeValue(tree))
                && TreeDepth(tree) <= STACK_LIMIT - old(stackDepth) && NarrowTree(tree)
      ensures g.Exactly? && r != Done(true) ==> Explained(r, g.s, old(stackDepth) - 1)
      ensures g.Exactly? && r == Done(true) ==> MemberRead(start, g.s, i, current, Top(), stackDepth, name)
      decreases |doc| - current, 2
    {
      hide TextAt;
      hide TokenOf;
      hide Show;
      hide ShowTag;
      hide Meaning;
      hide Progress;
      hide Stepped;
      hide Explained;
      hide ValidSyntax;
      hide PiecesText;
      hide ValueFrom;
      hide Reads;
      hide Verdict;
      hide TreeValue;
      hide WithEntry;
      hide Recovered;
      hide Uncommented;
      ghost var top, e := Top(), if g.Exactly? then g.s.elems[i] else NoElem();
      r, tree := ReadChild(Name(StoredName(name)), if g.Exactly? then Exactly(e.before, e.value) else Anything);
      if g.Exactly? {
        ChildExplained(r, g.s, i, top, old(stackDepth));
      }
      if r == Done(false) {
        var ok := RecoverFromError(ObjectEnd);
        r := Done(ok);
      }
    }

    /** The rest of a member behind the token of its name: the name, the colon and the value. */
    method ReadMember(tokenName: Token, ghost g: Expect, ghost start: nat, ghost i: nat)
      returns (r: Outcome, name: string, ghost tree: Tree)
      requires Valid() && Top().Obj? && tokenName.end == current && tokenName.start + 2 <= current
               && tokenName.kind == StringToken
      requires g.Exactly? ==> NextMember(doc, start, g.s, i, Top(), stackDepth) && ValidSyntax(g.s)
      requires g.Exactly? ==> NameAt(doc, g.s.elems[i], tokenName)
                              && tokenName.start + |ShowTag(g.s.elems[i].tag)| == start + ValueFrom(g.s.elems, i)
      modifies this
      ensures r.Done? ==> Valid() && old(current) <= current && |nodes| == |old(nodes)| && Below() == old(Below())
      ensures r.Done? ==> old(errors) <= errors && (r.ok <==> errors == old(errors))
      ensures r.Done? ==> old(stackDepth) <= stackDepth && (r.ok ==> stackDepth == old(stackDepth) && Top().Obj?)
      ensures MemberJudged(r, Source(), tokenName, old(stackDepth))
      ensures r == Done(true) ==>
                && MemberReads(Source(), tokenName, Member(name, tree)) && current == tree.end
                && Top() == WithEntry(old(Top()), Name(StoredName(name)), TreeValue(tree))
                && TreeDepth(tree) <= STACK_LIMIT - old(stackDepth) && NarrowTree(tree)
      ensures g.Exactly? && r != Done(true) ==> Explained(r, g.s, old(stackDepth) - 1)
      ensures g.Exactly? && r == Done(true) ==> MemberRead(start, g.s, i, current, Top(), stackDepth, name)
      decreases |doc| - current, 3
    {
      hide TokenOf;
      hide SkipBlank;
      hide NameAt;
      hide MemberRead;
      hide Stepped;
      hide Explained;
      hide ValidSyntax;
      hide PiecesText;
      hide ShowTag;
      hide ValueFrom;
      hide Reads;
      hide Judged;
      hide MemberJudged;
      hide TreeValue;
      hide WithEntry;
      hide Denotes;
      hide Uncommented;
      name, tree := "", Leaf(Null, 0);
      var decoded := ReadName(tokenName, g, if g.Exactly? then g.s.elems[i] else NoElem());
      if decoded.None? {
        NameJudged(Done(false), Source(), tokenName, stackDepth);
        return Done(false), name, tree;
      }
      name := decoded.value;
      r, tree := ReadMemberValue(name, g, start, i);
      ValueJudged(r, Source(), tokenName, old(stackDepth));
    }

    /** One round of readObject's loop, behind the token of the name: a member and what follows it. */
    method ReadNextMember(tokenName: Token, ghost g: Expect, ghost start: nat, ghost i: nat, ghost trees: seq<Member>,
        ghost at: nat, ghost last: string)
      returns (r: Outcome, next: Next, name: string, ghost child: Tree)
      requires Valid() && Top().Obj? && start <= |doc| && at <= current
      requires tokenName == Uncommented(doc, at) && tokenName.end == current && tokenName.kind == StringToken
      requires MembersAt(Source(), start, trees, at, Top(), STACK_LIMIT - stackDepth, last)
      requires g.Exactly? ==> g.s.Record? && ValidSyntax(g.s) && BodyAt(doc, start, g.s.elems, g.s.close, true)
                              && NextMember(doc, start, g.s, i, Top(), stackDepth)
      requires g.Exactly? ==> NameAt(doc, g.s.elems[i], tokenName)
                              && tokenName.start + |ShowTag(g.s.elems[i].tag)| == start + ValueFrom(g.s.elems, i)
      modifies this
      ensures r.Done? ==> Valid() && old(current) <= current && |nodes| == |old(nodes)| && Below() == old(Below())
      ensures r.Done? ==> old(errors) <= errors && (r.ok <==> errors == old(errors))
      ensures r.Done? ==> old(stackDepth) <= stackDepth && (r.ok ==> stackDepth == old(stackDepth) && Top().Obj?)
      ensures RecordJudged(r, Source(), start, old(stackDepth) - 1)
      ensures r == Done(true) && next == More ==>
                var ms := trees + [Member(name, child)];
                MembersAt(Source(), start, ms, current, Top(), STACK_LIMIT - stackDepth, name)
      ensures r == Done(true) && next != More ==>
                && next == Closed && RecordReads(Source(), start, trees + [Member(name, child)], current)
                && var tree := RecordTree(trees + [Member(name, child)], current);
                Top() == TreeValue(tree) && TreeDepth(tree) <= STACK_LIMIT - stackDepth + 1 && NarrowTree(tree)
      ensures g.Exactly? && r != Done(true) ==> Explained(r, g.s, old(stackDepth) - 1)
      ensures g.Exactly? && r == Done(true) && next == More ==>
                RecordAt(doc, start, g.s, i + 1, current, Top(), stackDepth, name)
      ensures g.Exactly? && r == Done(true) && next == Closed ==>
                && Explained(r, g.s, old(stackDepth) - 1) && Top() == Meaning(g.s)
                && current == start + |ShowElems(g.s.elems)| + |g.s.close| + 1
      decreases |doc| - current, 4
    {
      hide TextAt;
      hide BodyAt;
      hide TokenOf;
      hide Show;
      hide ShowElems;
      hide ShowTag;
      hide Meaning;
      hide Progress;
      hide RecordAt;
      hide Stepped;
      hide Explained;
      hide ValidSyntax;
      hide PiecesText;
      hide From;
      hide ValueFrom;
      hide WithEntry;
      hide MembersAt;
      hide MemberReads;
      hide MemberJudged;
      hide RecordJudged;
      hide RecordReads;
      hide TreeValue;
      hide TreeDepth;
      hide Behind;
      hide GoesOn;
      hide ClosesWith;
      ghost var top := Top();
      next := Failed;
      r, name, child := ReadMember(tokenName, g, start, i);
      NextMemberJudged(r, Source(), start, trees, at, top, STACK_LIMIT - old(stackDepth), last, old(stackDepth));
      if r != Done(true) {
        return;
      }
      next := ObjectNext(g, start, i);
      if next == Failed {
        r := Done(false);
        ghost var m := Member(name, child);
        CommaJudged(Source(), start, trees, at, top, STACK_LIMIT - stackDepth, last, m, stackDepth - 1);
        return;
      }
      if g.Exactly? {
        RecordStep(doc, start, g.s, i, Top(), stackDepth, name, next, current);
      }
      if next == Closed {
        MembersLast(Source(), start, trees, at, top, STACK_LIMIT - stackDepth, last, Member(name, child), current);
      } else {
        MembersStep(Source(), start, trees, at, top, STACK_LIMIT - stackDepth, last, Member(name, child));
      }
    }

    /** readObject, called behind "{". */
    method ReadObject(ghost g: Expect) returns (r: Outcome, ghost tree: Tree)
      requires Valid()
      requires g.Exactly? ==> g.s.Record? && ValidSyntax(g.s) && BodyAt(doc, current, g.s.elems, g.s.close, true)
      modifies this
      ensures r.Done? ==> Valid() && old(current) <= current && |nodes| == |old(nodes)| && Below() == old(Below())
      ensures r.Done? ==> old(errors) <= errors && (r.ok <==> errors == old(errors))
      ensures r.Done? ==> old(stackDepth) <= stackDepth && (r.ok ==> stackDepth == old(stackDepth))
      ensures RecordJudged(r, Source(), old(current), old(stackDepth) - 1)
      ensures r == Done(true) ==>
                && tree.RecordTree? && RecordReads(Source(), old(current), tree.members, tree.end)
                && current == tree.end && Top() == TreeValue(tree)
                && TreeDepth(tree) <= STACK_LIMIT - old(stackDepth) + 1 && NarrowTree(tree)
      ensures g.Exactly? ==> Explained(r, g.s, old(stackDepth) - 1)
      ensures g.Exactly? && r == Done(true) ==>
                Top() == Meaning(g.s) && current == old(current) + |ShowElems(g.s.elems)| + |g.s.close| + 1
      decreases |doc| - current, 5
    {
      hide TextAt;
      hide TokenOf;
      hide StartsWith;
      hide SkipBlank;
      hide Show;
      hide ShowElems;
      hide ShowTag;
      hide Meaning;
      hide RecordAt;
      hide NextMember;
      hide Uncommented;
      hide Explained;
      hide ValidSyntax;
      hide BodyAt;
      hide NameAt;
      hide PiecesText;
      hide From;
      hide ValueFrom;
      hide MembersAt;
      hide MemberReads;
      hide RecordJudged;
      hide Recovered;
      hide RecordReads;
      hide TreeValue;
      hide TreeDepth;
      hide Behind;
      hide GoesOn;
      hide ClosesWith;
      hide WithEntry;
      ghost var start, trees: seq<Member> := current, [];
      tree := RecordTree([], 0);
      MembersStart(Source(), start, STACK_LIMIT - stackDepth);
      if g.Exactly? {
        RecordStart(doc, start, g.s, stackDepth);
      }
      SetTop(Obj([]));
      var name := "";
      ghost var i := 0;
      while true
        invariant Valid() && |nodes| == |old(nodes)| && Below() == old(Below()) && Top().Obj?
        invariant start <= current && errors == old(errors) && stackDepth == old(stackDepth)
        invariant g.Exactly? ==> RecordAt(doc, start, g.s, i, current, Top(), stackDepth, name)
        invariant MembersAt(Source(), start, trees, current, Top(), STACK_LIMIT - stackDepth, name)
        decreases |doc| - current
      {
        ghost var at, top, last, child := current, Top(), name, tree;
        var tokenName := SkipCommentTokens();
        if g.Exactly? {
          RecordHead(doc, start, g.s, i, at, Top(), stackDepth, name, tokenName);
        }
        if tokenName.kind == ObjectEnd && name == "" {
          ClosesHere(doc, at, tokenName);
          RecordDoneJudged(Source(), start, stackDepth - 1);
          MembersEnd(Source(), start, trees, at, top, STACK_LIMIT - stackDepth, current);
          return Done(true), RecordTree(trees, current);
        }
        name := "";
        if tokenName.kind != StringToken {
          HeadJudged(Source(), start, trees, at, top, STACK_LIMIT - stackDepth, last, stackDepth - 1);
          var ok := AddErrorAndRecover(MissingMemberName, tokenName, ObjectEnd);
          return Done(ok), tree;
        }
        var next;
        r, next, name, child := ReadNextMember(tokenName, g, start, i, trees, at, last);
        i := i + 1;
        trees := trees + [Member(name, child)];
        if r != Done(true) {
          return;
        }
        if next == Closed {
          return Done(true), RecordTree(trees, current);
        }
      }
    }

    /** Reads one value from the whole document.  Whatever the bytes, the call ends in an exception or
        returns with the cursor inside the document, one node on the stack, and success exactly when no
        error is on record.  That is the case if and only if the document begins with a sentence of the language that
        nests at most STACK_LIMIT deep and has no list longer than an int counts, and root is the meaning of
        that sentence, of which there is but one; an exception says which of the bounds a sentence exceeds.
        A text of the grammar is read exactly if it is readable, and otherwise the
        outcome names what is wrong with it. */
    method Parse(ghost g: Expect) returns (r: Outcome, root: Value, ghost tree: Tree)
      requires g.Exactly? ==> TextAt(doc, 0, g.lead, g.s)
      modifies this
      ensures r.Done? ==> current <= |doc| && |nodes| == 1 && (r.ok <==> errors == [])
      ensures r == Done(true) ==> Reads(Source(), Uncommented(doc, 0), tree) && root == TreeValue(tree)
      ensures r == Done(true) <==>
                exists t :: Reads(Source(), Uncommented(doc, 0), t) && TreeDepth(t) <= STACK_LIMIT && NarrowTree(t)
      ensures forall t :: Reads(Source(), Uncommented(doc, 0), t) ==> Verdict(r, t, 0)
      ensures g.Exactly? ==> Explained(r, g.s, 0) && (r == Done(true) ==> root == Meaning(g.s))
    {
      hide TextAt;
      hide Explained;
      hide Meaning;
      hide Reads;
      hide TreeValue;
      hide NarrowTree;
      hide TreeDepth;
      current := 0;
      errors := [];
      nodes := [Null];
      stackDepth := 0;
      r, tree := ReadValue(g);
      root := if nodes == [] then Null else nodes[0];
      if r.Done? {
        var _ := SkipCommentTokens();
      }
    }
  }
}
