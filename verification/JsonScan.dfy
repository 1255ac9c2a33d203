/** Where tokens end in a document, and where the parts of a text of the grammar lie in it. */
module JsonScan {
  import opened Wrappers
  import opened JsonValue
  import opened JsonText
  import opened JsonString

  // ---- Scanning ----

  /** The first position from at on that is not a blank. */
  function SkipBlank(doc: string, at: nat): (p: nat)
    requires at <= |doc|
    ensures at <= p <= |doc|
    ensures p < |doc| ==> !IsBlank(doc[p])
    decreases |doc| - at
  {
    if at < |doc| && IsBlank(doc[at]) then SkipBlank(doc, at + 1) else at
  }

  /** The first position from at on that is not a digit. */
  function DigitEnd(doc: string, at: nat): (p: nat)
    requires at <= |doc|
    ensures at <= p <= |doc|
    decreases |doc| - at
  {
    if at < |doc| && IsDigit(doc[at]) then DigitEnd(doc, at + 1) else at
  }

  lemma DigitStep(doc: string, at: nat)
    requires at <= |doc|
    ensures DigitEnd(doc, at) == if at < |doc| && IsDigit(doc[at]) then DigitEnd(doc, at + 1) else at
  {
  }

  /** The end of a fraction, and of an exponent, if there is one. */
  function FractionEnd(doc: string, at: nat): (p: nat)
    requires at <= |doc|
    ensures at <= p <= |doc|
  {
    if at < |doc| && doc[at] == '.' then DigitEnd(doc, at + 1) else at
  }

  function ExponentEnd(doc: string, at: nat): (p: nat)
    requires at <= |doc|
    ensures at <= p <= |doc|
  {
    if at == |doc| || (doc[at] != 'e' && doc[at] != 'E') then at
    else if at + 1 < |doc| && (doc[at + 1] == '+' || doc[at + 1] == '-') then DigitEnd(doc, at + 2)
    else DigitEnd(doc, at + 1)
  }

  /** The end of the string whose opening quote lies just before at: behind the first quote that no
      backslash escapes. */
  function StringEnd(doc: string, at: nat): (end: Option<nat>)
    requires at <= |doc|
    ensures end.Some? ==> at < end.value <= |doc|
    decreases |doc| - at
  {
    if at == |doc| then None
    else if doc[at] == '\\' then StringEnd(doc, if at + 2 <= |doc| then at + 2 else |doc|)
    else if doc[at] == '\"' then Some(at + 1)
    else StringEnd(doc, at + 1)
  }

  /** No number continues here. */
  predicate Ends(doc: string, at: nat) {
    at >= |doc| || !(IsDigit(doc[at]) || doc[at] == '.' || doc[at] == 'e' || doc[at] == 'E')
  }

  lemma {:induction false} SkipBlankExact(doc: string, at: nat, to: nat)
    requires at <= to <= |doc| && forall i :: at <= i < to ==> IsBlank(doc[i])
    requires to < |doc| ==> !IsBlank(doc[to])
    ensures SkipBlank(doc, at) == to
    decreases |doc| - at
  {
    if at < to {
      SkipBlankExact(doc, at + 1, to);
    }
  }

  lemma {:induction false} BlankTwice(doc: string, at: nat)
    requires at <= |doc|
    ensures SkipBlank(doc, SkipBlank(doc, at)) == SkipBlank(doc, at)
  {
    SkipBlankExact(doc, SkipBlank(doc, at), SkipBlank(doc, at));
  }

  lemma {:induction false} DigitEndExact(doc: string, at: nat, to: nat)
    requires at <= to <= |doc| && forall i :: at <= i < to ==> IsDigit(doc[i])
    requires to < |doc| ==> !IsDigit(doc[to])
    ensures DigitEnd(doc, at) == to
    decreases |doc| - at
  {
    if at < to {
      DigitEndExact(doc, at + 1, to);
    }
  }

  /** Blanks in front of something else, or of the end. */
  lemma BlanksSkipped(doc: string, at: nat, lead: string)
    requires Blank(lead) && StartsWith(doc, at, lead)
    requires at + |lead| < |doc| ==> !IsBlank(doc[at + |lead|])
    ensures SkipBlank(doc, at) == at + |lead|
  {
    forall i | at <= i < at + |lead| ensures IsBlank(doc[i]) {
      assert doc[i] == doc[at..at + |lead|][i - at] == lead[i - at];
    }
    SkipBlankExact(doc, at, at + |lead|);
  }

  // ---- Parts of a text ----

  lemma StartsConcat(doc: string, at: nat, a: string, b: string)
    ensures StartsWith(doc, at, a + b) <==> StartsWith(doc, at, a) && StartsWith(doc, at + |a|, b)
  {
    if at + |a + b| <= |doc| {
      var all := doc[at..at + |a + b|];
      assert all[..|a|] == doc[at..at + |a|];
      assert all[|a|..] == doc[at + |a|..at + |a| + |b|];
      assert (a + b)[..|a|] == a && (a + b)[|a|..] == b;
      assert all == all[..|a|] + all[|a|..];
    }
  }

  lemma StartsChar(doc: string, at: nat, s: string)
    requires StartsWith(doc, at, s) && s != []
    ensures at < |doc| && doc[at] == s[0]
  {
    assert doc[at..at + |s|][0] == s[0];
  }

  /** The scanner for strings walks over a piece. */
  lemma StringEndPiece(doc: string, at: nat, p: Piece)
    requires ValidPiece(p) && StartsWith(doc, at, ShowPiece(p))
    ensures StringEnd(doc, at) == StringEnd(doc, at + |ShowPiece(p)|)
  {
    var s := ShowPiece(p);
    forall i | 0 <= i < |s| ensures doc[at + i] == s[i] {
      assert doc[at..at + |s|][i] == s[i];
    }
    match p
    case Plain(_) =>
    case Escape(_) =>
    case Unicode(h) => StringEndHex(doc, at + 2, h);
    case Surrogates(h, l) =>
      StringEndHex(doc, at + 2, h);
      assert StringEnd(doc, at + 6) == StringEnd(doc, at + 8);
      StringEndHex(doc, at + 8, l);
  }

  lemma StringEndHex(doc: string, at: nat, h: string)
    requires Hex4(h) && at + 4 <= |doc|
    requires forall i :: 0 <= i < 4 ==> doc[at + i] == h[i]
    ensures StringEnd(doc, at) == StringEnd(doc, at + 4)
  {
    assert doc[at] == h[0] && doc[at + 1] == h[1] && doc[at + 2] == h[2] && doc[at + 3] == h[3];
    assert StringEnd(doc, at) == StringEnd(doc, at + 1) == StringEnd(doc, at + 2);
    assert StringEnd(doc, at + 2) == StringEnd(doc, at + 3) == StringEnd(doc, at + 4);
  }

  lemma LastPiece(ps: seq<Piece>)
    requires ps != []
    ensures ShowPieces(ps) == ShowPieces(ps[..|ps| - 1]) + ShowPiece(ps[|ps| - 1])
  {
  }

  lemma {:induction false} StringEndPieces(doc: string, at: nat, ps: seq<Piece>)
    requires ValidPieces(ps) && StartsWith(doc, at, ShowPieces(ps)) && at + |ShowPieces(ps)| <= |doc|
    ensures StringEnd(doc, at) == StringEnd(doc, at + |ShowPieces(ps)|)
  {
    hide StartsWith;
    hide StringEnd;
    hide ShowPiece;
    hide ShowPieces;
    if ps == [] {
      EmptyPieces();
    } else {
      var init := ps[..|ps| - 1];
      LastPiece(ps);
      StartsConcat(doc, at, ShowPieces(init), ShowPiece(ps[|ps| - 1]));
      StringEndPieces(doc, at, init);
      StringEndPiece(doc, at + |ShowPieces(init)|, ps[|ps| - 1]);
    }
  }

  /** A quoted string is one token, and what lies between its quotes is spelled by its pieces. */
  lemma QuotedToken(doc: string, at: nat, ps: seq<Piece>)
    requires ValidPieces(ps) && StartsWith(doc, at, Quoted(ps))
    ensures at + |Quoted(ps)| <= |doc| && |Quoted(ps)| >= 2
    ensures doc[at] == '\"' && StringEnd(doc, at + 1) == Some(at + |Quoted(ps)|)
    ensures Spells(ps, doc[at + 1..at + |Quoted(ps)| - 1])
  {
    hide ShowPieces;
    hide StringEnd;
    hide StartsWith;
    var text := ShowPieces(ps);
    StartsConcat(doc, at, "\"" + text, "\"");
    StartsConcat(doc, at, "\"", text);
    StartsChar(doc, at, "\"");
    StartsChar(doc, at + 1 + |text|, "\"");
    StringEndPieces(doc, at + 1, ps);
    ClosingQuote(doc, at + 1 + |text|);
    StartsSlice(doc, at + 1, text);
  }

  lemma ClosingQuote(doc: string, at: nat)
    requires at < |doc| && doc[at] == '\"'
    ensures StringEnd(doc, at) == Some(at + 1)
  {
  }

  lemma StartsSlice(doc: string, at: nat, s: string)
    requires StartsWith(doc, at, s)
    ensures at + |s| <= |doc| && doc[at..at + |s|] == s
  {
  }

  /** Where the i-th element starts, its comma included, counted from the first one. */
  function Offset(es: seq<Elem>, i: nat): nat
    requires i <= |es|
  {
    |ShowElems(es[..i])|
  }

  function Comma(i: nat): string {
    if i > 0 then "," else ""
  }

  lemma LastElem(es: seq<Elem>)
    requires es != []
    ensures ShowElems(es) == ShowElems(es[..|es| - 1]) + Comma(|es| - 1) + ShowElem(es[|es| - 1])
  {
  }

  lemma {:induction false} ElemsSplit(es: seq<Elem>, i: nat)
    requires i < |es|
    ensures ShowElems(es[..i + 1]) == ShowElems(es[..i]) + Comma(i) + ShowElem(es[i])
    ensures ShowElems(es[..i + 1]) <= ShowElems(es)
    ensures i + 1 < |es| ==> ShowElems(es[..i + 1]) + "," <= ShowElems(es)
    decreases |es|
  {
    hide ShowElems;
    hide ShowElem;
    LastElem(es);
    var init := es[..|es| - 1];
    if i + 1 < |es| {
      ElemsSplit(init, i);
      assert init[..i + 1] == es[..i + 1] && init[..i] == es[..i];
      if i + 1 == |init| {
        assert init[..i + 1] == init;
      }
    } else {
      assert es[..i + 1] == es && es[..i] == init;
    }
  }

  /** In a document that holds the elements and then tail, the i-th element and what follows it. */
  lemma ElemPlace(doc: string, at: nat, es: seq<Elem>, tail: string, i: nat)
    requires i < |es| && StartsWith(doc, at, ShowElems(es) + tail)
    ensures StartsWith(doc, at + Offset(es, i) + |Comma(i)|, ShowElem(es[i]))
    ensures Offset(es, i + 1) == Offset(es, i) + |Comma(i)| + |ShowElem(es[i])|
    ensures StartsWith(doc, at + Offset(es, i + 1), if i + 1 < |es| then "," else tail)
  {
    hide StartsWith;
    hide ShowElems;
    hide ShowElem;
    ElemsSplit(es, i);
    StartsConcat(doc, at, ShowElems(es), tail);
    var here := ShowElems(es[..i + 1]);
    StartsPrefix(doc, at, here, ShowElems(es));
    StartsConcat(doc, at, ShowElems(es[..i]) + Comma(i), ShowElem(es[i]));
    if i + 1 < |es| {
      StartsPrefix(doc, at, here + ",", ShowElems(es));
      StartsConcat(doc, at, here, ",");
    } else {
      assert es[..i + 1] == es;
    }
  }

  lemma StartsPrefix(doc: string, at: nat, a: string, b: string)
    requires a <= b && StartsWith(doc, at, b)
    ensures StartsWith(doc, at, a)
  {
    assert doc[at..at + |a|] == doc[at..at + |b|][..|a|];
  }

  /** The parts of one element. */
  lemma ElemParts(doc: string, at: nat, e: Elem)
    requires StartsWith(doc, at, ShowElem(e))
    ensures var tag := at + |e.lead|; var before := tag + |ShowTag(e.tag)|; var value := before + |e.before|;
            StartsWith(doc, at, e.lead) && StartsWith(doc, tag, ShowTag(e.tag))
            && StartsWith(doc, before, e.before) && StartsWith(doc, value, Show(e.value))
            && StartsWith(doc, value + |Show(e.value)|, e.after)
            && |ShowElem(e)| == |e.lead| + |ShowTag(e.tag)| + |e.before| + |Show(e.value)| + |e.after|
  {
    StartsConcat(doc, at, e.lead + ShowTag(e.tag) + e.before + Show(e.value), e.after);
    StartsConcat(doc, at, e.lead + ShowTag(e.tag) + e.before, Show(e.value));
    StartsConcat(doc, at, e.lead + ShowTag(e.tag), e.before);
    StartsConcat(doc, at, e.lead, ShowTag(e.tag));
  }

  lemma {:induction false} ElemValid(es: seq<Elem>, named: bool, i: nat)
    requires ValidElems(es, named) && i < |es|
    ensures ValidElem(es[i], named) && ValidElems(es[..i], named)
    ensures ElemPairs(es, named)[..i] == ElemPairs(es[..i], named)
    ensures ElemPairs(es, named)[i] == ElemPair(es[i], i, named)
    ensures Depth(es[i].value) <= DepthElems(es) && DepthElems(es[..i]) <= DepthElems(es)
    decreases |es|
  {
    hide ValidElem;
    hide ElemPair;
    hide Depth;
    var init := es[..|es| - 1];
    if i < |init| {
      ElemValid(init, named, i);
      assert init[..i] == es[..i];
    } else {
      assert DepthElem(es[i]) == Depth(es[i].value);
    }
  }

  /** What a text of the grammar starts with. */
  lemma FirstChar(s: Syntax)
    requires ValidSyntax(s)
    ensures Show(s) != "" && !IsBlank(Show(s)[0])
    ensures var c := Show(s)[0];
            match s
            case Word(Null) => c == 'n'
            case Word(Bool(b)) => c == (if b then 't' else 'f')
            case Integer(_, _) => c == '-' || IsDigit(c)
            case Text(_) => c == '\"'
            case List(_, _) => c == '['
            case Record(_, _) => c == '{'
            case _ => false
  {
  }
}
