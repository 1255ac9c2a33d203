/** JSON text as concrete syntax: a grammar that holds the texts of RFC 8259 (sections 2 to 7, without
    fractions and exponents) and some that the reader takes besides; which of them are strict; what a text
    means; the normal form that values take when they are written and read back; and the spelling that
    FastWriter chooses. */
module JsonText {
  import opened Wrappers
  import opened JsonValue

  // ---- Strings, section 7 of RFC 8259 ----

  /** One unit of a quoted string: a byte, a short escape, \uXXXX, or two of those for a surrogate pair. */
  datatype Piece =
    | Plain(c: char)
    | Escape(c: char)
    | Unicode(h: string)
    | Surrogates(h: string, l: string)

  predicate IsDigit(c: char) {
    '0' <= c <= '9'
  }

  predicate AllDigits(s: string) {
    forall i :: 0 <= i < |s| ==> IsDigit(s[i])
  }

  predicate IsHex(c: char) {
    IsDigit(c) || 'a' <= c <= 'f' || 'A' <= c <= 'F'
  }

  function HexDigit(c: char): (n: nat)
    requires IsHex(c)
    ensures n < 16
  {
    if IsDigit(c) then c as int - '0' as int
    else if 'a' <= c <= 'f' then c as int - 'a' as int + 10
    else c as int - 'A' as int + 10
  }

  predicate Hex4(h: string) {
    |h| == 4 && IsHex(h[0]) && IsHex(h[1]) && IsHex(h[2]) && IsHex(h[3])
  }

  function HexValue(h: string): (n: nat)
    requires Hex4(h)
    ensures n <= 0xFFFF
  {
    ((HexDigit(h[0]) * 16 + HexDigit(h[1])) * 16 + HexDigit(h[2])) * 16 + HexDigit(h[3])
  }

  predicate HighSurrogate(u: nat) {
    0xD800 <= u <= 0xDBFF
  }

  /** Characters that may follow a backslash, other than u. */
  predicate ShortEscape(c: char) {
    c == '\"' || c == '\\' || c == '/' || c == 'b' || c == 'f' || c == 'n' || c == 'r' || c == 't'
  }

  function Unescaped(c: char): char {
    match c
    case 'b' => '\U{0008}'
    case 'f' => '\U{000C}'
    case 'n' => '\n'
    case 'r' => '\r'
    case 't' => '\t'
    case _ => c
  }

  /** The eight short escapes of RFC 8259, section 7. */
  lemma EscapesExact(c: char)
    ensures ShortEscape(c) <==> c in "\"\\/bfnrt"
    ensures Unescaped('\"') == '\"' && Unescaped('\\') == '\\' && Unescaped('/') == '/'
    ensures Unescaped('b') as int == 8 && Unescaped('f') as int == 12 && Unescaped('n') as int == 10
    ensures Unescaped('r') as int == 13 && Unescaped('t') as int == 9
  {
  }

  predicate ValidPiece(p: Piece) {
    match p
    case Plain(c) => c != '\"' && c != '\\'
    case Escape(c) => ShortEscape(c)
    case Unicode(h) => Hex4(h) && !HighSurrogate(HexValue(h))
    case Surrogates(h, l) => Hex4(h) && Hex4(l) && HighSurrogate(HexValue(h))
  }

  predicate ValidPieces(ps: seq<Piece>) {
    forall i :: 0 <= i < |ps| ==> ValidPiece(ps[i])
  }

  function ShowPiece(p: Piece): (s: string)
    ensures |s| > 0
  {
    match p
    case Plain(c) => [c]
    case Escape(c) => ['\\', c]
    case Unicode(h) => "\\u" + h
    case Surrogates(h, l) => "\\u" + h + "\\u" + l
  }

  function ShowPieces(ps: seq<Piece>): string {
    if ps == [] then "" else ShowPieces(ps[..|ps| - 1]) + ShowPiece(ps[|ps| - 1])
  }

  /** codePointToUTF8. */
  function Utf8(cp: nat): string
    requires cp <= 0x10FFFF
  {
    if cp <= 0x7F then [cp as char]
    else if cp <= 0x7FF then [(0xC0 + cp / 64) as char, (0x80 + cp % 64) as char]
    else if cp <= 0xFFFF then
      [(0xE0 + cp / 4096) as char, (0x80 + cp / 64 % 64) as char, (0x80 + cp % 64) as char]
    else
      [(0xF0 + cp / 262144) as char, (0x80 + cp / 4096 % 64) as char,
       (0x80 + cp / 64 % 64) as char, (0x80 + cp % 64) as char]
  }

  // What these bytes, digits and surrogates are, apart from how they are computed.

  predicate Continuation(c: char) {
    0x80 <= c as int <= 0xBF
  }

  /** The code point that bytes spell by section 3 of RFC 3629: the lead byte tells the length and holds the
      highest bits, and every continuation byte holds six. */
  function Utf8Value(s: string): Option<nat> {
    if |s| == 1 && s[0] as int <= 0x7F then Some(s[0] as int)
    else if |s| == 2 && 0xC0 <= s[0] as int <= 0xDF && Continuation(s[1]) then
      Some((s[0] as int - 0xC0) * 64 + (s[1] as int - 0x80))
    else if |s| == 3 && 0xE0 <= s[0] as int <= 0xEF && Continuation(s[1]) && Continuation(s[2]) then
      Some((s[0] as int - 0xE0) * 4096 + (s[1] as int - 0x80) * 64 + (s[2] as int - 0x80))
    else if |s| == 4 && 0xF0 <= s[0] as int <= 0xF7 && Continuation(s[1]) && Continuation(s[2])
            && Continuation(s[3]) then
      Some((s[0] as int - 0xF0) * 262144 + (s[1] as int - 0x80) * 4096 + (s[2] as int - 0x80) * 64
           + (s[3] as int - 0x80))
    else None
  }

  /** Every code point is spelled by its shortest sequence of bytes, and no two by the same one. */
  lemma Utf8Exact(cp: nat)
    requires cp <= 0x10FFFF
    ensures Utf8Value(Utf8(cp)) == Some(cp)
    ensures |Utf8(cp)| == if cp < 0x80 then 1 else if cp < 0x800 then 2 else if cp < 0x1_0000 then 3 else 4
    ensures forall other :: other <= 0x10FFFF && Utf8(other) == Utf8(cp) ==> other == cp
  {
    Utf8Inverse(cp);
    forall other | other <= 0x10FFFF && Utf8(other) == Utf8(cp) ensures other == cp {
      Utf8Inverse(other);
    }
  }

  lemma Utf8Inverse(cp: nat)
    requires cp <= 0x10FFFF
    ensures Utf8Value(Utf8(cp)) == Some(cp)
  {
    if cp > 0xFFFF {
      Utf8Long(cp);
    }
  }

  lemma Utf8Long(cp: nat)
    requires 0xFFFF < cp <= 0x10FFFF
    ensures Utf8Value(Utf8(cp)) == Some(cp)
  {
    var a, b, c, d := cp / 262144, cp / 4096 % 64, cp / 64 % 64, cp % 64;
    assert cp == a * 262144 + b * 4096 + c * 64 + d;
    var s := Utf8(cp);
    assert s == [(0xF0 + a) as char, (0x80 + b) as char, (0x80 + c) as char, (0x80 + d) as char];
  }

  /** The value of a hexadecimal digit is its place among the sixteen, in either case. */
  lemma HexDigitExact(c: char, n: nat)
    requires n < 16
    ensures IsHex(c) && HexDigit(c) == n <==> c == "0123456789abcdef"[n] || c == "0123456789ABCDEF"[n]
  {
  }

  lemma HexValueExact(h: string)
    requires Hex4(h)
    ensures HexValue(h) == HexDigit(h[0]) * 4096 + HexDigit(h[1]) * 256 + HexDigit(h[2]) * 16 + HexDigit(h[3])
  {
  }

  /** The halves of a surrogate pair, by section 2.1 of RFC 2781: the upper and the lower ten bits of what the
      code point exceeds 0x10000 by. */
  lemma SurrogatesExact(h: string, l: string, cp: nat)
    requires ValidPiece(Surrogates(h, l)) && 0x1_0000 <= cp <= 0x10FFFF
    requires HexValue(h) == 0xD800 + (cp - 0x1_0000) / 0x400 && HexValue(l) == 0xDC00 + (cp - 0x1_0000) % 0x400
    ensures Utf8Value(PieceText(Surrogates(h, l))) == Some(cp)
  {
    hide HexValue;
    hide Utf8Value;
    var u := cp - 0x1_0000;
    Tens(u / 0x400, 0xD800);
    Tens(u % 0x400, 0xDC00);
    assert 0x1_0000 + HexValue(h) % 1024 * 1024 + HexValue(l) % 1024 == cp;
    Utf8Exact(cp);
  }

  lemma Tens(x: nat, base: nat)
    requires x < 1024 && base % 1024 == 0
    ensures (base + x) % 1024 == x
  {
  }

  function PieceText(p: Piece): string
    requires ValidPiece(p)
  {
    match p
    case Plain(c) => [c]
    case Escape(c) => [Unescaped(c)]
    case Unicode(h) => Utf8(HexValue(h))
    case Surrogates(h, l) => Utf8(0x10000 + HexValue(h) % 1024 * 1024 + HexValue(l) % 1024)
  }

  function PiecesText(ps: seq<Piece>): string
    requires ValidPieces(ps)
  {
    if ps == [] then "" else PiecesText(ps[..|ps| - 1]) + PieceText(ps[|ps| - 1])
  }

  /** Quoted text. */
  function Quoted(ps: seq<Piece>): string {
    "\"" + ShowPieces(ps) + "\""
  }

  // ---- Numbers ----

  function Decimal(digits: string): nat
    requires AllDigits(digits)
  {
    if digits == [] then 0
    else Decimal(digits[..|digits| - 1]) * 10 + (digits[|digits| - 1] as int - '0' as int)
  }

  function Signed(negative: bool, digits: string): int
    requires AllDigits(digits)
  {
    if negative then -(Decimal(digits) as int) else Decimal(digits)
  }

  /** The value decodeNumber gives an integer: int when negative or small, uint otherwise. */
  function Number(n: int): Value {
    if n <= MAX_INT then Int(n) else UInt(n)
  }

  /** Int if and only if the number fits in 31 bits, and the number in either case. */
  lemma NumberExact(n: int)
    ensures Number(n).Int? <==> n <= 2147483647
    ensures if Number(n).Int? then Number(n).i == n else Number(n) == UInt(n)
  {
  }

  predicate InRange(n: int) {
    MIN_LARGEST_INT <= n <= MAX_LARGEST_UINT
  }

  // ---- Texts ----

  datatype Tag = Tag(name: seq<Piece>, colon: string)

  /** An element or a named member, with the blanks around its parts. */
  datatype Elem = Elem(lead: string, tag: Option<Tag>, before: string, value: Syntax, after: string)

  datatype Syntax =
    | Word(v: Value)
    | Integer(negative: bool, digits: string)
    | Float(text: string)
    | Text(pieces: seq<Piece>)
    | List(elems: seq<Elem>, close: string)
    | Record(elems: seq<Elem>, close: string)

  predicate IsBlank(c: char) {
    c == ' ' || c == '\t' || c == '\r' || c == '\n'
  }

  predicate Blank(s: string) {
    forall i :: 0 <= i < |s| ==> IsBlank(s[i])
  }

  function WordText(v: Value): string {
    match v
    case Null => "null"
    case Bool(b) => if b then "true" else "false"
    case _ => ""
  }

  function ShowTag(tag: Option<Tag>): string {
    match tag
    case None => ""
    case Some(l) => Quoted(l.name) + l.colon + ":"
  }

  function Show(s: Syntax): string
    decreases s, 2
  {
    match s
    case Word(v) => WordText(v)
    case Integer(negative, digits) => (if negative then "-" else "") + digits
    case Float(text) => text
    case Text(ps) => Quoted(ps)
    case List(es, close) => "[" + ShowElems(es) + close + "]"
    case Record(es, close) => "{" + ShowElems(es) + close + "}"
  }

  function ShowElem(e: Elem): string
    decreases e, 1
  {
    e.lead + ShowTag(e.tag) + e.before + Show(e.value) + e.after
  }

  /** The elements with commas between them. */
  function ShowElems(es: seq<Elem>): string
    decreases es, 0
  {
    if es == [] then ""
    else ShowElems(es[..|es| - 1]) + (if |es| > 1 then "," else "") + ShowElem(es[|es| - 1])
  }

  /** A text of the grammar whose numbers are integers that fit in 64 bits and whose strings can be stored.
      The members of an object may end with a comma. */
  predicate ValidSyntax(s: Syntax)
    decreases s, 2
  {
    match s
    case Word(v) => v.Null? || v.Bool?
    case Integer(negative, digits) =>
      digits != [] && AllDigits(digits) && InRange(Signed(negative, digits))
    case Float(_) => false
    case Text(ps) => ValidPieces(ps) && |PiecesText(ps)| <= MAX_STRING
    case List(es, close) => ValidElems(es, false) && Blank(close)
    case Record(es, close) => ValidElems(es, true) && ValidClose(es, close)
  }

  predicate ValidElem(e: Elem, named: bool)
    decreases e, 1
  {
    Blank(e.lead) && Blank(e.before) && Blank(e.after) && ValidSyntax(e.value) && ValidTag(e.tag, named)
  }

  predicate ValidTag(tag: Option<Tag>, named: bool) {
    tag.Some? == named
    && (named ==> ValidPieces(tag.value.name) && Blank(tag.value.colon) && |PiecesText(tag.value.name)| < NAME_RANGE)
  }

  /** A comma behind the last member. */
  predicate TrailingComma(close: string) {
    close != [] && close[0] == ','
  }

  predicate ValidClose(es: seq<Elem>, close: string) {
    if TrailingComma(close) then es != [] && Blank(close[1..]) else Blank(close)
  }

  predicate ValidElems(es: seq<Elem>, named: bool)
    decreases es, 0
  {
    es == [] || (ValidElems(es[..|es| - 1], named) && ValidElem(es[|es| - 1], named))
  }

  // ---- What the reader takes ----

  /** A comma behind the last member is taken if and only if that member's name is empty. */
  predicate Accepted(s: Syntax)
    requires ValidSyntax(s)
    decreases s, 2
  {
    match s
    case List(es, _) => AcceptedElems(es, false)
    case Record(es, close) => AcceptedElems(es, true) && (TrailingComma(close) ==> NameOf(es[|es| - 1]) == "")
    case _ => true
  }

  predicate AcceptedElem(e: Elem, named: bool)
    requires ValidElem(e, named)
    decreases e, 1
  {
    Accepted(e.value)
  }

  predicate AcceptedElems(es: seq<Elem>, named: bool)
    requires ValidElems(es, named)
    decreases es, 0
  {
    es == [] || (AcceptedElems(es[..|es| - 1], named) && AcceptedElem(es[|es| - 1], named))
  }

  function NameOf(e: Elem): string
    requires ValidElem(e, true)
  {
    PiecesText(e.tag.value.name)
  }

  /** No array has more elements than an int counts. */
  predicate Narrow(s: Syntax)
    decreases s, 2
  {
    match s
    case List(es, _) => |es| <= MAX_INT && NarrowElems(es)
    case Record(es, _) => NarrowElems(es)
    case _ => true
  }

  predicate NarrowElem(e: Elem)
    decreases e, 1
  {
    Narrow(e.value)
  }

  predicate NarrowElems(es: seq<Elem>)
    decreases es, 0
  {
    es == [] || (NarrowElems(es[..|es| - 1]) && NarrowElem(es[|es| - 1]))
  }

  // ---- The strict grammar of RFC 8259 ----

  /** Section 7: control characters, quotes and backslashes are escaped; a surrogate pair has both halves. */
  predicate StrictPiece(p: Piece) {
    ValidPiece(p)
    && match p
       case Plain(c) => c >= '\U{0020}'
       case Surrogates(_, l) => 0xDC00 <= HexValue(l) <= 0xDFFF
       case _ => true
  }

  predicate StrictPieces(ps: seq<Piece>) {
    forall i :: 0 <= i < |ps| ==> StrictPiece(ps[i])
  }

  /** Section 6: no leading zeros.  Sections 4 and 5: commas between the elements only. */
  predicate Strict(s: Syntax)
    decreases s, 2
  {
    match s
    case Word(v) => v.Null? || v.Bool?
    case Integer(_, digits) => digits != [] && AllDigits(digits) && (digits[0] == '0' ==> |digits| == 1)
    case Float(_) => false
    case Text(ps) => StrictPieces(ps)
    case List(es, close) => StrictElems(es, false) && Blank(close)
    case Record(es, close) => StrictElems(es, true) && Blank(close)
  }

  predicate StrictElem(e: Elem, named: bool)
    decreases e, 1
  {
    && Blank(e.lead) && Blank(e.before) && Blank(e.after) && Strict(e.value) && e.tag.Some? == named
    && (named ==> StrictPieces(e.tag.value.name) && Blank(e.tag.value.colon))
  }

  predicate StrictElems(es: seq<Elem>, named: bool)
    decreases es, 0
  {
    es == [] || (StrictElems(es[..|es| - 1], named) && StrictElem(es[|es| - 1], named))
  }

  lemma StrictSnoc(es: seq<Elem>, e: Elem, named: bool)
    ensures StrictElems(es + [e], named) <==> StrictElems(es, named) && StrictElem(e, named)
    ensures NarrowElems(es + [e]) <==> NarrowElems(es) && NarrowElem(e)
  {
    assert (es + [e])[..|es|] == es;
  }

  lemma AcceptedSnoc(es: seq<Elem>, e: Elem, named: bool)
    requires ValidElems(es, named) && ValidElem(e, named)
    ensures ValidElems(es + [e], named)
    ensures AcceptedElems(es + [e], named) <==> AcceptedElems(es, named) && AcceptedElem(e, named)
  {
    assert (es + [e])[..|es|] == es;
  }

  /** Strict texts are accepted. */
  lemma {:induction false} StrictAccepted(s: Syntax)
    requires ValidSyntax(s) && Strict(s)
    ensures Accepted(s)
    decreases s, 2
  {
    if s.List? || s.Record? {
      StrictElemsAccepted(s.elems, s.Record?);
    }
  }

  lemma {:induction false} StrictElemAccepted(e: Elem, named: bool)
    requires ValidElem(e, named) && StrictElem(e, named)
    ensures AcceptedElem(e, named)
    decreases e, 1
  {
    StrictAccepted(e.value);
  }

  lemma {:induction false} StrictElemsAccepted(es: seq<Elem>, named: bool)
    requires ValidElems(es, named) && StrictElems(es, named)
    ensures AcceptedElems(es, named)
    decreases es, 0
  {
    if es != [] {
      StrictElemsAccepted(es[..|es| - 1], named);
      StrictElemAccepted(es[|es| - 1], named);
    }
  }

  function Max(a: nat, b: nat): nat {
    if a <= b then b else a
  }

  /** How deeply values nest: 1 for a scalar or an empty container. */
  function Depth(s: Syntax): (d: nat)
    ensures d > 0
    decreases s, 2
  {
    if s.List? || s.Record? then 1 + DepthElems(s.elems) else 1
  }

  function DepthElem(e: Elem): (d: nat)
    ensures d > 0
    decreases e, 1
  {
    Depth(e.value)
  }

  function DepthElems(es: seq<Elem>): nat
    decreases es, 0
  {
    if es == [] then 0 else Max(DepthElems(es[..|es| - 1]), DepthElem(es[|es| - 1]))
  }

  /** The value a text denotes; of two members with one name the later one counts. */
  function Meaning(s: Syntax): Value
    requires ValidSyntax(s)
    decreases s, 2
  {
    match s
    case Word(v) => v
    case Integer(negative, digits) => Number(Signed(negative, digits))
    case Text(ps) => Str(PiecesText(ps))
    case List(es, _) => Arr(PutAll(ElemPairs(es, false)))
    case Record(es, _) => Obj(PutAll(ElemPairs(es, true)))
  }

  /** What an element contributes to its container: its value, at its position or under its name. */
  function ElemPair(e: Elem, position: nat, named: bool): Pair
    requires ValidElem(e, named)
    decreases e, 1
  {
    Pair(KeyOf(e.tag, position, named), Meaning(e.value))
  }

  function KeyOf(tag: Option<Tag>, position: nat, named: bool): Key
    requires ValidTag(tag, named)
  {
    if named then Name(PiecesText(tag.value.name)) else Index(position)
  }

  function ElemPairs(es: seq<Elem>, named: bool): (ps: seq<Pair>)
    requires ValidElems(es, named)
    ensures |ps| == |es|
    decreases es, 0
  {
    if es == [] then []
    else ElemPairs(es[..|es| - 1], named) + [ElemPair(es[|es| - 1], |es| - 1, named)]
  }

  lemma ElemsSnoc(es: seq<Elem>, e: Elem, named: bool)
    requires ValidElems(es, named) && ValidElem(e, named)
    ensures ValidElems(es + [e], named)
    ensures ElemPairs(es + [e], named) == ElemPairs(es, named) + [ElemPair(e, |es|, named)]
    ensures DepthElems(es + [e]) == Max(DepthElems(es), DepthElem(e))
  {
    assert (es + [e])[..|es|] == es;
  }

  lemma ShowSnoc(es: seq<Elem>, e: Elem)
    ensures ShowElems(es + [e]) == ShowElems(es) + (if es != [] then "," else "") + ShowElem(e)
  {
    assert (es + [e])[..|es|] == es;
  }

  // ---- Normal form ----

  /** What the writers walk: an array's slots from 0 to its size with holes as null, or the members. */
  function Children(v: Value): (ps: seq<Pair>)
    ensures |ps| == Size(v)
    ensures forall i :: 0 <= i < |ps| ==> Nodes(ps[i].value) < Nodes(v)
  {
    match v
    case Arr(m) =>
      FindNodes(m);
      seq(Size(v), i requires 0 <= i < Size(v) => Pair(Index(i), Find(m, Index(i))))
    case Obj(m) =>
      EntryNodes(m);
      m
    case _ => []
  }

  lemma {:induction false} EntryNodes(m: seq<Pair>)
    ensures forall i :: 0 <= i < |m| ==> Nodes(m[i].value) <= MapNodes(m)
  {
    if m != [] {
      EntryNodes(m[1..]);
      assert forall i :: 0 < i < |m| ==> m[i] == m[1..][i - 1];
      assert Nodes(m[0].value) <= PairNodes(m[0]);
    }
  }

  lemma FindNodes(m: seq<Pair>)
    ensures m != [] ==> forall k :: Nodes(Find(m, k)) <= MapNodes(m)
  {
    EntryNodes(m);
    if m != [] {
      assert MapNodes(m) >= PairNodes(m[0]) > Nodes(m[0].value) >= 1;
    }
  }

  function CutAtNul(s: string): string {
    if s == [] || s[0] == '\0' then "" else [s[0]] + CutAtNul(s[1..])
  }

  function CutKey(k: Key, cut: bool): Key {
    if cut && k.Name? then Name(CutAtNul(k.s)) else k
  }

  /** The value read back from what a writer printed: integers keep their number, holes become null.
      With cut, member names end at their first NUL, as StyledWriter prints them. */
  function Norm(v: Value, cut: bool): Value
    decreases Nodes(v), 1
  {
    match v
    case Int(i) => Number(i)
    case UInt(u) => Number(u)
    case Arr(_) => Arr(PutAll(NormPairs(v, Size(v), cut)))
    case Obj(_) => Obj(PutAll(NormPairs(v, Size(v), cut)))
    case _ => v
  }

  function NormPairs(v: Value, k: nat, cut: bool): (ps: seq<Pair>)
    requires k <= Size(v)
    ensures |ps| == k
    decreases Nodes(v), 0, k
  {
    if k == 0 then []
    else
      var p := Children(v)[k - 1];
      NormPairs(v, k - 1, cut) + [Pair(CutKey(p.key, cut), Norm(p.value, cut))]
  }

  function ValueDepth(v: Value): (d: nat)
    ensures d > 0
    decreases Nodes(v), 1
  {
    1 + ChildrenDepth(v, Size(v))
  }

  function ChildrenDepth(v: Value, k: nat): nat
    requires k <= Size(v)
    decreases Nodes(v), 0, k
  {
    if k == 0 then 0 else Max(ChildrenDepth(v, k - 1), ValueDepth(Children(v)[k - 1].value))
  }

  predicate RealFree(v: Value)
    decreases Nodes(v)
  {
    !v.Real? && forall i :: 0 <= i < Size(v) ==> RealFree(Children(v)[i].value)
  }

  /** No array that is written has more elements than an int counts. */
  predicate Counted(v: Value)
    decreases Nodes(v), 1
  {
    (v.Arr? ==> Size(v) <= MAX_INT) && CountedTo(v, Size(v))
  }

  predicate CountedTo(v: Value, k: nat)
    requires k <= Size(v)
    decreases Nodes(v), 0
  {
    forall i :: 0 <= i < k ==> Counted(Children(v)[i].value)
  }

  // ---- The spelling of scalars that both writers use ----

  function DigitChar(n: nat): char
    requires n < 10
  {
    (n + '0' as int) as char
  }

  function DecimalText(n: nat): (s: string)
    ensures |s| > 0
  {
    (if n < 10 then "" else DecimalText(n / 10)) + [DigitChar(n % 10)]
  }

  lemma {:induction false} DecimalTextExact(n: nat)
    ensures AllDigits(DecimalText(n)) && Decimal(DecimalText(n)) == n
  {
    var s := DecimalText(n);
    if n < 10 {
      assert s[..|s| - 1] == [];
    } else {
      DecimalTextExact(n / 10);
      assert s[..|s| - 1] == DecimalText(n / 10);
    }
  }

  function UpperHex(n: nat): (c: char)
    requires n < 16
    ensures IsHex(c) && HexDigit(c) == n
  {
    if n < 10 then DigitChar(n) else (n - 10 + 'A' as int) as char
  }

  predicate IsControl(c: char) {
    '\0' < c <= '\U{001F}'
  }

  /** How the writers spell one byte: a short escape, \u00XX for control characters and NUL, or itself. */
  function PieceOf(c: char): (p: Piece)
    ensures StrictPiece(p) && PieceText(p) == [c]
  {
    match c
    case '\"' => Escape('\"')
    case '\\' => Escape('\\')
    case '\U{0008}' => Escape('b')
    case '\U{000C}' => Escape('f')
    case '\n' => Escape('n')
    case '\r' => Escape('r')
    case '\t' => Escape('t')
    case _ =>
      if IsControl(c) || c == '\0' then Unicode(Hex00(c)) else Plain(c)
  }

  /** Upper case. */
  lemma UpperHexExact(n: nat)
    requires n < 16
    ensures UpperHex(n) == "0123456789ABCDEF"[n]
  {
    assert n == 0 || n == 1 || n == 2 || n == 3 || n == 4 || n == 5 || n == 6 || n == 7
           || n == 8 || n == 9 || n == 10 || n == 11 || n == 12 || n == 13 || n == 14 || n == 15;
  }

  /** A control character as four hexadecimal digits. */
  function Hex00(c: char): (h: string)
    requires c < '\U{0020}'
    ensures Hex4(h) && HexValue(h) == c as int
    ensures h == "00" + ["0123456789ABCDEF"[c as int / 16]] + ["0123456789ABCDEF"[c as int % 16]]
  {
    UpperHexExact(c as int / 16);
    UpperHexExact(c as int % 16);
    ['0', '0', UpperHex(c as int / 16), UpperHex(c as int % 16)]
  }

  function PiecesOf(s: string): (ps: seq<Piece>)
    ensures |ps| == |s| && forall i :: 0 <= i < |s| ==> ps[i] == PieceOf(s[i])
    ensures ValidPieces(ps) && StrictPieces(ps)
  {
    seq(|s|, i requires 0 <= i < |s| => PieceOf(s[i]))
  }

  lemma {:induction false} PiecesOfExact(s: string)
    ensures PiecesText(PiecesOf(s)) == s
  {
    if s != [] {
      var init := s[..|s| - 1];
      PiecesOfExact(init);
      assert PiecesOf(s)[..|s| - 1] == PiecesOf(init);
      assert s == init + [s[|s| - 1]];
    }
  }

  function IntegerText(n: int): string {
    (if n < 0 then "-" else "") + DecimalText(if n < 0 then -n else n)
  }

  function IntegerSyntax(n: int): (s: Syntax)
    ensures Show(s) == IntegerText(n)
  {
    Integer(n < 0, DecimalText(if n < 0 then -n else n))
  }

  /** The syntax of a value that is not a container; showDouble prints a double. */
  function ScalarSyntax(v: Value, showDouble: Double -> string): Syntax
    requires !v.Arr? && !v.Obj?
  {
    match v
    case Int(i) => IntegerSyntax(i)
    case UInt(u) => IntegerSyntax(u)
    case Real(d) => Float(showDouble(d))
    case Str(s) => Text(PiecesOf(s))
    case _ => Word(v)
  }

  lemma IntegerExact(n: int)
    requires InRange(n)
    ensures var s := IntegerSyntax(n); ValidSyntax(s) && Meaning(s) == Number(n) && Strict(s)
  {
    DecimalTextExact(if n < 0 then -n else n);
    NoLeadingZero(if n < 0 then -n else n);
  }

  lemma {:induction false} NoLeadingZero(n: nat)
    ensures DecimalText(n)[0] == '0' ==> n == 0 && |DecimalText(n)| == 1
  {
    if n >= 10 {
      NoLeadingZero(n / 10);
    }
  }

  lemma ScalarExact(v: Value, showDouble: Double -> string, cut: bool)
    requires !v.Arr? && !v.Obj? && !v.Real? && Valid(v)
    ensures var s := ScalarSyntax(v, showDouble);
            ValidSyntax(s) && Meaning(s) == Norm(v, cut) && Depth(s) == ValueDepth(v)
            && Strict(s) && Narrow(s) && Counted(v)
  {
    hide DecimalText;
    hide Decimal;
    hide PiecesOf;
    hide PiecesText;
    match v
    case Int(i) => IntegerExact(i);
    case UInt(u) => IntegerExact(u);
    case Str(s) => PiecesOfExact(s);
    case _ =>
  }

  // ---- FastWriter's spelling ----

  function FastSyntax(v: Value, showDouble: Double -> string): Syntax
    decreases Nodes(v), 1
  {
    match v
    case Arr(_) => List(FastElems(v, Size(v), showDouble), "")
    case Obj(_) => Record(FastElems(v, Size(v), showDouble), "")
    case _ => ScalarSyntax(v, showDouble)
  }

  function FastTag(k: Key): Option<Tag> {
    match k
    case Index(_) => None
    case Name(s) => Some(Tag(PiecesOf(s), ""))
  }

  function FastElems(v: Value, k: nat, showDouble: Double -> string): (es: seq<Elem>)
    requires k <= Size(v)
    ensures |es| == k
    decreases Nodes(v), 0, k
  {
    if k == 0 then []
    else
      FastElems(v, k - 1, showDouble) + [FastElem(v, k - 1, showDouble)]
  }

  function FastElem(v: Value, i: nat, showDouble: Double -> string): Elem
    requires i < Size(v)
    decreases Nodes(v), 0, i
  {
    var p := Children(v)[i];
    Elem("", FastTag(p.key), "", FastSyntax(p.value, showDouble), "")
  }

  lemma FindValid(m: seq<Pair>, k: Key)
    requires ValidMap(m)
    ensures Valid(Find(m, k))
  {
    ValidMapAll(m);
  }

  /** Children are valid, and keyed by position in arrays and by name in objects. */
  lemma ChildrenValid(v: Value)
    requires Valid(v)
    ensures forall i :: 0 <= i < Size(v) ==>
              Valid(Children(v)[i].value) && KeyFits(Children(v)[i].key, v.Obj?)
              && (v.Arr? ==> Children(v)[i].key == Index(i))
  {
    forall i | 0 <= i < Size(v) ensures Valid(Children(v)[i].value) {
      ValidMapAll(v.entries);
      if v.Arr? {
        FindValid(v.entries, Index(i));
      }
    }
  }

  /** What FastWriter prints denotes the normal form, at the value's own depth, and is strict. */
  lemma {:induction false} FastMeaning(v: Value, showDouble: Double -> string)
    requires Valid(v) && RealFree(v)
    ensures var s := FastSyntax(v, showDouble);
            ValidSyntax(s) && Meaning(s) == Norm(v, false) && Depth(s) == ValueDepth(v)
            && Strict(s) && (Narrow(s) <==> Counted(v))
    decreases Nodes(v), 1
  {
    if v.Arr? || v.Obj? {
      FastEntries(v, Size(v), showDouble);
      FastShape(v, showDouble);
      ContainerMeaning(v, FastElems(v, Size(v), showDouble), "", false);
    } else {
      ScalarExact(v, showDouble, false);
    }
  }

  lemma {:induction false} FastEntries(v: Value, k: nat, showDouble: Double -> string)
    requires Valid(v) && RealFree(v) && k <= Size(v)
    ensures var es := FastElems(v, k, showDouble);
            ValidElems(es, v.Obj?) && ElemPairs(es, v.Obj?) == NormPairs(v, k, false)
            && DepthElems(es) == ChildrenDepth(v, k)
            && StrictElems(es, v.Obj?) && (NarrowElems(es) <==> CountedTo(v, k))
    decreases Nodes(v), 0, k
  {
    hide Norm;
    hide Children;
    hide Nodes;
    hide ValueDepth;
    hide Depth;
    hide DepthElem;
    hide Valid;
    hide RealFree;
    hide Meaning;
    hide ValidSyntax;
    hide ElemPair;
    hide ValidElem;
    hide ValidElems;
    hide ElemPairs;
    hide FastElem;
    hide FastSyntax;
    hide DepthElems;
    hide Strict;
    hide StrictElem;
    hide StrictElems;
    hide Narrow;
    hide NarrowElem;
    hide NarrowElems;
    hide Counted;
    hide CountedTo;
    CountedStep(v, k);
    if k == 0 {
      NoElems(v.Obj?);
    } else {
      FastEntries(v, k - 1, showDouble);
      ChildValid(v, k - 1);
      RealFreeChild(v, k - 1);
      FastMeaning(Children(v)[k - 1].value, showDouble);
      FastEntry(v, k - 1, showDouble);
      var es, e := FastElems(v, k - 1, showDouble), FastElem(v, k - 1, showDouble);
      ElemsSnoc(es, e, v.Obj?);
      StrictSnoc(es, e, v.Obj?);
    }
  }

  lemma FastShape(v: Value, showDouble: Double -> string)
    requires v.Arr? || v.Obj?
    ensures FastSyntax(v, showDouble) == ContainerOf(v, FastElems(v, Size(v), showDouble), "")
  {
  }

  function ContainerOf(v: Value, es: seq<Elem>, close: string): Syntax {
    if v.Obj? then Record(es, close) else List(es, close)
  }

  /** A container is spelled when all its children are. */
  lemma ContainerMeaning(v: Value, es: seq<Elem>, close: string, cut: bool)
    requires (v.Arr? || v.Obj?) && Blank(close) && |es| == Size(v)
    requires ValidElems(es, v.Obj?) && ElemPairs(es, v.Obj?) == NormPairs(v, Size(v), cut)
    requires DepthElems(es) == ChildrenDepth(v, Size(v))
    requires StrictElems(es, v.Obj?) && (NarrowElems(es) <==> CountedTo(v, Size(v)))
    ensures var s := ContainerOf(v, es, close);
            ValidSyntax(s) && Meaning(s) == Norm(v, cut) && Depth(s) == ValueDepth(v)
            && Strict(s) && (Narrow(s) <==> Counted(v))
  {
    hide ElemPairs;
    hide NormPairs;
    hide ValidElems;
    hide StrictElems;
    hide NarrowElems;
    hide DepthElems;
    hide ChildrenDepth;
    hide CountedTo;
    hide Size;
    hide PutAll;
    assert close != [] ==> IsBlank(close[0]);
  }

  lemma CountedStep(v: Value, k: nat)
    requires k <= Size(v)
    ensures CountedTo(v, k) <==> k == 0 || (CountedTo(v, k - 1) && Counted(Children(v)[k - 1].value))
  {
    hide Counted;
    hide Children;
  }

  lemma NoElems(named: bool)
    ensures ValidElems([], named) && ElemPairs([], named) == [] && DepthElems([]) == 0
    ensures StrictElems([], named) && NarrowElems([])
  {
  }

  lemma ChildValid(v: Value, i: nat)
    requires Valid(v) && i < Size(v)
    ensures Valid(Children(v)[i].value)
  {
    ChildrenValid(v);
  }

  lemma RealFreeChild(v: Value, i: nat)
    requires RealFree(v) && i < Size(v)
    ensures RealFree(Children(v)[i].value)
  {
  }

  lemma FastEntry(v: Value, i: nat, showDouble: Double -> string)
    requires Valid(v) && i < Size(v)
    requires var s, p := FastSyntax(Children(v)[i].value, showDouble), Children(v)[i];
             && ValidSyntax(s) && Meaning(s) == Norm(p.value, false) && Depth(s) == ValueDepth(p.value)
             && Strict(s) && (Narrow(s) <==> Counted(p.value))
    ensures var e, p := FastElem(v, i, showDouble), Children(v)[i];
            && ValidElem(e, v.Obj?) && DepthElem(e) == ValueDepth(p.value)
            && ElemPair(e, i, v.Obj?) == Pair(p.key, Norm(p.value, false))
            && StrictElem(e, v.Obj?) && (NarrowElem(e) <==> Counted(p.value))
  {
    hide Norm;
    hide FastSyntax;
    hide ValueDepth;
    hide ValidSyntax;
    hide Meaning;
    hide PiecesOf;
    hide Strict;
    hide Narrow;
    hide Counted;
    ChildrenValid(v);
    var p := Children(v)[i];
    if p.key.Name? {
      PiecesOfExact(p.key.s);
    }
  }

  // ---- The normal form is printed the same ----

  lemma FindAt(m: seq<Pair>, i: nat)
    requires Ascending(m) && i < |m|
    ensures Find(m, m[i].key) == m[i].value
  {
    var n := LowerBound(m, m[i].key);
    KeyTrichotomy(m[i].key, m[i].key);
    assert n <= i;
  }

  /** Children come in ascending key order. */
  lemma ChildrenAscending(v: Value)
    requires Valid(v)
    ensures Ascending(Children(v))
  {
  }

  lemma {:induction false} NormPairsAt(v: Value, k: nat, i: nat)
    requires i < k <= Size(v)
    ensures NormPairs(v, k, false)[i] == Pair(Children(v)[i].key, Norm(Children(v)[i].value, false))
    decreases k
  {
    hide Norm;
    hide Children;
    hide Nodes;
    if i < k - 1 {
      NormPairsAt(v, k - 1, i);
    }
  }

  /** The normal form has the same shape: dense arrays, the same member names, normal children. */
  lemma NormShape(v: Value)
    requires Valid(v)
    ensures FullSize(Norm(v, false)) == Size(Norm(v, false)) == Size(v)
    ensures forall i :: 0 <= i < Size(v) ==>
              Children(Norm(v, false))[i] == Pair(Children(v)[i].key, Norm(Children(v)[i].value, false))
  {
    if v.Arr? || v.Obj? {
      var m := NormPairs(v, Size(v), false);
      NormAscending(v);
      PutAllAscending(m);
      assert Norm(v, false) == if v.Arr? then Arr(m) else Obj(m);
      hide Norm;
      hide NormPairs;
      if v.Arr? {
        DenseChildren(m);
      } else {
        hide Nodes;
      }
    }
  }

  /** An array without holes. */
  lemma DenseChildren(m: seq<Pair>)
    requires Ascending(m) && |m| < UINT_RANGE && forall i :: 0 <= i < |m| ==> m[i].key == Index(i)
    ensures FullSize(Arr(m)) == Size(Arr(m)) == |m| && Children(Arr(m)) == m
  {
    hide Nodes;
    forall i | 0 <= i < |m| ensures Find(m, Index(i)) == m[i].value {
      FindAt(m, i);
    }
    hide Find;
  }

  /** The children of the normal form, before they are put into it one by one. */
  lemma NormAscending(v: Value)
    requires Valid(v)
    ensures var m := NormPairs(v, Size(v), false);
            Ascending(m) && forall i :: 0 <= i < |m| ==>
              m[i] == Pair(Children(v)[i].key, Norm(Children(v)[i].value, false)) && (v.Arr? ==> m[i].key == Index(i))
  {
    hide Norm;
    hide NormPairs;
    var m := NormPairs(v, Size(v), false);
    ChildrenValid(v);
    ChildrenAscending(v);
    forall i | 0 <= i < |m|
      ensures m[i] == Pair(Children(v)[i].key, Norm(Children(v)[i].value, false))
    {
      NormPairsAt(v, Size(v), i);
    }
    hide Children;
    hide Valid;
  }

  /** Writing, reading and writing again gives the same text. */
  lemma {:induction false} FastSyntaxNorm(v: Value, showDouble: Double -> string)
    requires Valid(v)
    ensures FastSyntax(Norm(v, false), showDouble) == FastSyntax(v, showDouble)
    decreases Nodes(v), 1
  {
    if v.Arr? || v.Obj? {
      NormShape(v);
      FastElemsNorm(v, Size(v), showDouble);
    }
  }

  lemma {:induction false} FastElemsNorm(v: Value, k: nat, showDouble: Double -> string)
    requires Valid(v) && k <= Size(v) && Size(Norm(v, false)) == Size(v)
    ensures FastElems(Norm(v, false), k, showDouble) == FastElems(v, k, showDouble)
    decreases Nodes(v), 0, k
  {
    if k > 0 {
      FastElemsNorm(v, k - 1, showDouble);
      NormShape(v);
      ChildrenValid(v);
      FastSyntaxNorm(Children(v)[k - 1].value, showDouble);
    }
  }
}
