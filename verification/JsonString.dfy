/** Quoting and unquoting of strings: valueToQuotedStringN and Reader::decodeString. */
module JsonString {
  import opened Wrappers
  import opened JsonValue
  import opened JsonText

  predicate StartsWith(text: string, at: nat, part: string) {
    at + |part| <= |text| && text[at..at + |part|] == part
  }

  lemma {:induction false} NextPiece(ps: seq<Piece>, k: nat)
    requires k < |ps|
    ensures ShowPieces(ps[..k + 1]) == ShowPieces(ps[..k]) + ShowPiece(ps[k])
    ensures StartsWith(ShowPieces(ps), |ShowPieces(ps[..k])|, ShowPiece(ps[k]))
    ensures ShowPieces(ps[..k]) <= ShowPieces(ps)
    decreases |ps|
  {
    var init := ps[..|ps| - 1];
    assert ps[..k + 1][..k] == ps[..k];
    if k < |init| {
      NextPiece(init, k);
      assert init[..k] == ps[..k];
    }
  }

  // ---- Writing ----

  /** The bytes strnpbrk looks for. */
  predicate Special(c: char) {
    c == '\"' || c == '\\' || c == '\U{0008}' || c == '\U{000C}' || c == '\n' || c == '\r' || c == '\t'
  }

  predicate MustEscape(c: char) {
    Special(c) || IsControl(c) || c == '\0'
  }

  /** strnpbrk and containsControlCharacter0: some byte has to be escaped. */
  predicate NeedsEscape(s: string) {
    exists i :: 0 <= i < |s| && MustEscape(s[i])
  }

  lemma PlainPiece(c: char)
    ensures PieceOf(c) == Plain(c) <==> !MustEscape(c)
  {
  }

  lemma {:induction false} PlainPieces(s: string)
    requires !NeedsEscape(s)
    ensures ShowPieces(PiecesOf(s)) == s
  {
    hide ShowPieces;
    hide PieceOf;
    hide MustEscape;
    if s == [] {
      EmptyPieces();
    } else {
      var init, last := s[..|s| - 1], s[|s| - 1];
      assert !NeedsEscape(init) by {
        assert forall i :: 0 <= i < |init| ==> init[i] == s[i];
      }
      PlainPieces(init);
      PlainPiece(last);
      assert PiecesOf(s) == PiecesOf(init) + [PieceOf(last)];
      PiecesSnoc(PiecesOf(init), PieceOf(last));
      assert s == init + [last];
    }
  }

  lemma PiecesSnoc(ps: seq<Piece>, p: Piece)
    ensures ShowPieces(ps + [p]) == ShowPieces(ps) + ShowPiece(p)
  {
    assert (ps + [p])[..|ps|] == ps;
  }

  lemma {:induction false} CutWithoutNul(s: string)
    requires '\0' !in s
    ensures CutAtNul(s) == s
  {
    if s != [] {
      assert s[0] in s;
      CutWithoutNul(s[1..]);
      assert s == [s[0]] + s[1..];
    }
  }

  /** The spelling of one byte in the long way below. */
  method QuoteByte(c: char) returns (s: string)
    ensures s == ShowPiece(PieceOf(c))
  {
    match c
    case '\"' => s := "\\\"";
    case '\\' => s := "\\\\";
    case '\U{0008}' => s := "\\b";
    case '\U{000C}' => s := "\\f";
    case '\n' => s := "\\n";
    case '\r' => s := "\\r";
    case '\t' => s := "\\t";
    case _ =>
      if IsControl(c) || c == '\0' {
        s := "\\u" + Hex00(c);
      } else {
        s := [c];
      }
  }

  lemma NoEscapes(value: string)
    requires !NeedsEscape(value)
    ensures ShowPieces(PiecesOf(value)) == value && CutAtNul(value) == value
  {
    PlainPieces(value);
    assert forall i :: 0 <= i < |value| ==> !MustEscape(value[i]);
    CutWithoutNul(value);
  }

  /** Quotes a string of known length, in pieces that section 7 of RFC 8259 allows and that denote its bytes.
      The short way prints the bytes up to the terminating NUL. */
  method ValueToQuotedStringN(value: string) returns (r: string)
    ensures r == Quoted(PiecesOf(value))
    ensures StrictPieces(PiecesOf(value)) && PiecesText(PiecesOf(value)) == value
  {
    PiecesOfExact(value);
    hide PieceOf;
    hide ShowPiece;
    hide ShowPieces;
    hide CutAtNul;
    if !NeedsEscape(value) {
      NoEscapes(value);
      return "\"" + CutAtNul(value) + "\"";
    }
    var result := "";
    ghost var ps := PiecesOf(value);
    EmptyPieces();
    for c := 0 to |value|
      invariant result == ShowPieces(ps[..c])
    {
      var byte := QuoteByte(value[c]);
      result := result + byte;
      NextPiece(ps, c);
    }
    assert ps[..|value|] == ps;
    r := "\"" + result + "\"";
  }

  lemma EmptyPieces()
    ensures ShowPieces([]) == ""
  {
  }

  /** valueToQuotedString: the same spelling for a string that ends at its first NUL. */
  method ValueToQuotedString(value: string) returns (r: string)
    ensures r == Quoted(PiecesOf(CutAtNul(value)))
  {
    r := ValueToQuotedStringN(CutAtNul(value));
  }

  // ---- Reading ----

  /** decodeUnicodeEscapeSequence: four hexadecimal digits. */
  method DecodeHex4(body: string, at: nat) returns (r: Option<nat>)
    requires at <= |body|
    ensures r.Some? <==> at + 4 <= |body| && Hex4(body[at..at + 4])
    ensures r.Some? ==> r.value == HexValue(body[at..at + 4])
  {
    if |body| - at < 4 {
      return None;
    }
    var unicode := 0;
    ghost var h := body[at..at + 4];
    for index := 0 to 4
      invariant forall i :: 0 <= i < index ==> IsHex(h[i])
      invariant unicode == if index == 0 then 0
                           else if index == 1 then HexDigit(h[0])
                           else if index == 2 then HexDigit(h[0]) * 16 + HexDigit(h[1])
                           else if index == 3 then (HexDigit(h[0]) * 16 + HexDigit(h[1])) * 16 + HexDigit(h[2])
                           else ((HexDigit(h[0]) * 16 + HexDigit(h[1])) * 16 + HexDigit(h[2])) * 16 + HexDigit(h[3])
    {
      var c := body[at + index];
      assert c == h[index];
      unicode := unicode * 16;
      if '0' <= c <= '9' {
        unicode := unicode + (c as int - '0' as int);
      } else if 'a' <= c <= 'f' {
        unicode := unicode + (c as int - 'a' as int + 10);
      } else if 'A' <= c <= 'F' {
        unicode := unicode + (c as int - 'A' as int + 10);
      } else {
        return None;
      }
    }
    r := Some(unicode);
  }

  /** A piece behind "\\u" is determined by the text. */
  lemma UnicodePiece(body: string, at: nat, q: Piece)
    requires StartsWith(body, at, "\\u") && ValidPiece(q) && StartsWith(body, at, ShowPiece(q))
    ensures at + 6 <= |body|
    ensures q == Unicode(body[at + 2..at + 6])
            || (at + 12 <= |body| && body[at + 6] == '\\' && body[at + 7] == 'u'
                && q == Surrogates(body[at + 2..at + 6], body[at + 8..at + 12]))
  {
    var s := ShowPiece(q);
    CharAt(body, at, s, 0);
    CharAt(body, at, "\\u", 0);
    CharAt(body, at, "\\u", 1);
    if |s| > 1 {
      CharAt(body, at, s, 1);
    }
    match q
    case Unicode(h) =>
      UnicodeText(h);
      PartAt(body, at, s, 2, 6);
    case Surrogates(h, l) =>
      SurrogatesText(h, l);
      PartAt(body, at, s, 2, 6);
      CharAt(body, at, s, 6);
      CharAt(body, at, s, 7);
      PartAt(body, at, s, 8, 12);
    case _ =>
  }

  lemma UnicodeText(h: string)
    requires |h| == 4
    ensures var s := ShowPiece(Unicode(h)); |s| == 6 && s[2..6] == h
  {
  }

  lemma SurrogatesText(h: string, l: string)
    requires |h| == 4 && |l| == 4
    ensures var s := ShowPiece(Surrogates(h, l));
            |s| == 12 && s[2..6] == h && s[6] == '\\' && s[7] == 'u' && s[8..12] == l
  {
    var s := ShowPiece(Surrogates(h, l));
    assert s == "\\u" + h + "\\u" + l;
  }

  lemma PartAt(body: string, at: nat, part: string, i: nat, j: nat)
    requires StartsWith(body, at, part) && i <= j <= |part|
    ensures at + |part| <= |body| && body[at + i..at + j] == part[i..j]
  {
    forall k | 0 <= k < j - i ensures body[at + i..at + j][k] == part[i..j][k] {
      CharAt(body, at, part, i + k);
    }
  }

  lemma CharAt(body: string, at: nat, part: string, i: nat)
    requires StartsWith(body, at, part) && i < |part|
    ensures at + |part| <= |body| && body[at + i] == part[i]
  {
    assert body[at..at + |part|][i] == body[at + i];
  }

  /** The piece that an escape at a position is, if it is one. */
  function UnicodeAt(body: string, at: nat): (p: Option<Piece>)
    requires at + 2 <= |body|
  {
    if at + 6 > |body| || !Hex4(body[at + 2..at + 6]) then None
    else
      var h := body[at + 2..at + 6];
      if !HighSurrogate(HexValue(h)) then Some(Unicode(h))
      else if at + 12 <= |body| && body[at + 6] == '\\' && body[at + 7] == 'u' && Hex4(body[at + 8..at + 12]) then
        Some(Surrogates(h, body[at + 8..at + 12]))
      else None
  }

  lemma UnicodeAtExact(body: string, at: nat)
    requires StartsWith(body, at, "\\u")
    ensures at + 2 <= |body|
    ensures var p := UnicodeAt(body, at);
            p.Some? ==> ValidPiece(p.value) && StartsWith(body, at, ShowPiece(p.value))
    ensures forall q | ValidPiece(q) && StartsWith(body, at, ShowPiece(q)) :: UnicodeAt(body, at) == Some(q)
  {
    hide HexValue;
    CharAt(body, at, "\\u", 0);
    CharAt(body, at, "\\u", 1);
    var p := UnicodeAt(body, at);
    if p.Some? {
      EscapeText(body, at);
      if p.value.Surrogates? {
        EscapeText(body, at + 6);
        SliceJoin(body, at, at + 6, at + 12);
        SurrogatesShow(p.value.h, p.value.l);
      }
    }
    forall q | ValidPiece(q) && StartsWith(body, at, ShowPiece(q)) ensures p == Some(q) {
      UnicodePiece(body, at, q);
    }
  }

  lemma SurrogatesShow(h: string, l: string)
    ensures ShowPiece(Surrogates(h, l)) == ("\\u" + h) + ("\\u" + l)
  {
  }

  /** decodeUnicodeCodePoint, called behind "\\u": one escape, or two for a surrogate pair. */
  method DecodeCodePoint(body: string, at: nat) returns (r: Option<nat>, next: nat, ghost p: Piece)
    requires StartsWith(body, at, "\\u")
    ensures r.Some? ==> r.value <= 0x10FFFF && ValidPiece(p) && Utf8(r.value) == PieceText(p)
    ensures r.Some? ==> Utf8Value(PieceText(p)) == r
    ensures r.Some? ==> next == at + |ShowPiece(p)| && StartsWith(body, at, ShowPiece(p))
    ensures forall q | ValidPiece(q) && StartsWith(body, at, ShowPiece(q)) :: r.Some? && q == p
    ensures r.Some? <==> at + 2 <= |body| && UnicodeAt(body, at).Some?
  {
    hide Utf8;
    hide Utf8Value;
    hide HexValue;
    hide StartsWith;
    hide Hex4;
    UnicodeAtExact(body, at);
    next, p := at + 2, Plain(' ');
    r := DecodeHex4(body, next);
    if r.None? {
      return;
    }
    var unicode := r.value;
    ghost var h := body[next..next + 4];
    next := next + 4;
    if 0xD800 <= unicode <= 0xDBFF {
      r := None;
      if |body| - next >= 6 && body[next] == '\\' && body[next + 1] == 'u' {
        var second := DecodeHex4(body, next + 2);
        if second.Some? {
          ghost var l := body[next + 2..next + 6];
          r, next, p := Some(0x10000 + unicode % 1024 * 1024 + second.value % 1024), next + 6, Surrogates(h, l);
        }
      }
    } else {
      p := Unicode(h);
    }
    if r.Some? {
      Utf8Exact(r.value);
    }
  }

  lemma SliceJoin(body: string, i: nat, j: nat, k: nat)
    requires i <= j <= k <= |body|
    ensures body[i..k] == body[i..j] + body[j..k]
  {
  }

  lemma EscapeText(body: string, at: nat)
    requires at + 6 <= |body| && body[at] == '\\' && body[at + 1] == 'u'
    ensures body[at..at + 6] == "\\u" + body[at + 2..at + 6]
  {
    SliceJoin(body, at, at + 2, at + 6);
  }

  /** A piece that starts at a bare byte, or at a short escape, is determined by the text. */
  lemma OtherPiece(body: string, at: nat, q: Piece)
    requires ValidPiece(q) && StartsWith(body, at, ShowPiece(q))
    ensures at < |body| && body[at] != '\"'
    ensures body[at] != '\\' ==> q == Plain(body[at])
    ensures body[at] == '\\' ==> at + 1 < |body| && (body[at + 1] == 'u' || ShortEscape(body[at + 1]))
    ensures body[at] == '\\' && body[at + 1] != 'u' ==> q == Escape(body[at + 1])
  {
    var s := ShowPiece(q);
    assert s[0] == body[at..at + |s|][0] == body[at];
    if |s| > 1 {
      assert s[1] == body[at..at + |s|][1] == body[at + 1];
    }
  }

  /** The part of decodeString that handles a backslash. */
  method DecodeEscape(body: string, at: nat) returns (r: Option<string>, next: nat, ghost p: Piece)
    requires at < |body| && body[at] == '\\'
    ensures r.Some? <==> exists q :: ValidPiece(q) && StartsWith(body, at, ShowPiece(q))
    ensures forall q | ValidPiece(q) && StartsWith(body, at, ShowPiece(q)) ::
              r == Some(PieceText(q)) && next == at + |ShowPiece(q)|
    ensures r.Some? ==> ValidPiece(p) && r.value == PieceText(p)
    ensures r.Some? ==> next == at + |ShowPiece(p)| && StartsWith(body, at, ShowPiece(p))
    ensures forall q | ValidPiece(q) && StartsWith(body, at, ShowPiece(q)) :: r.Some? && q == p
  {
    forall q | ValidPiece(q) && StartsWith(body, at, ShowPiece(q))
      ensures at + 1 < |body| && (body[at + 1] == 'u' || ShortEscape(body[at + 1]))
      ensures body[at + 1] != 'u' ==> q == Escape(body[at + 1])
    {
      OtherPiece(body, at, q);
    }
    next, p := at + 1, Plain(' ');
    if next == |body| {
      return None, next, p;
    }
    var escape := body[next];
    next := next + 1;
    assert body[at..next] == ['\\', escape];
    if escape == 'u' {
      var unicode;
      unicode, next, p := DecodeCodePoint(body, at);
      r := if unicode.Some? then Some(Utf8(unicode.value)) else None;
      return;
    }
    p := Escape(escape);
    if escape == '\"' || escape == '/' || escape == '\\' {
      r := Some([escape]);
    } else if escape == 'b' {
      r := Some("\U{0008}");
    } else if escape == 'f' {
      r := Some("\U{000C}");
    } else if escape == 'n' {
      r := Some("\n");
    } else if escape == 'r' {
      r := Some("\r");
    } else if escape == 't' {
      r := Some("\t");
    } else {
      r := None;
    }
  }

  lemma PiecesTextSnoc(ps: seq<Piece>, p: Piece)
    requires ValidPieces(ps) && ValidPiece(p)
    ensures PiecesText(ps + [p]) == PiecesText(ps) + PieceText(p)
    ensures ShowPieces(ps + [p]) == ShowPieces(ps) + ShowPiece(p)
  {
    assert (ps + [p])[..|ps|] == ps;
  }

  /** The bytes of a string token after its opening quote, up to a bare quote or the end, are spelled
      by these pieces. */
  ghost predicate Spells(ps: seq<Piece>, body: string) {
    ValidPieces(ps) && ShowPieces(ps) <= body
    && (ShowPieces(ps) == body || body[|ShowPieces(ps)|] == '\"')
  }

  /** Where a spelling continues after some of its pieces. */
  lemma SpellsNext(ps: seq<Piece>, qs: seq<Piece>, body: string)
    requires Spells(qs, body) && ps <= qs && |ShowPieces(ps)| < |body|
    ensures if ps == qs then body[|ShowPieces(ps)|] == '\"'
            else |ps| < |qs| && ValidPiece(qs[|ps|])
                 && StartsWith(body, |ShowPieces(ps)|, ShowPiece(qs[|ps|])) && body[|ShowPieces(ps)|] != '\"'
  {
    hide ShowPiece;
    hide ShowPieces;
    if ps != qs {
      NextPiece(qs, |ps|);
      assert qs[..|ps|] == ps;
      assert StartsWith(body, |ShowPieces(ps)|, ShowPiece(qs[|ps|]));
      OtherPiece(body, |ShowPieces(ps)|, qs[|ps|]);
    }
  }
  /** One byte as it is, or one escape. */
  method DecodePiece(body: string, at: nat) returns (r: Option<string>, next: nat, ghost p: Piece)
    requires at < |body| && body[at] != '\"'
    ensures r.Some? ==> ValidPiece(p) && r.value == PieceText(p)
    ensures r.Some? ==> next == at + |ShowPiece(p)| && StartsWith(body, at, ShowPiece(p)) && next > at
    ensures forall q | ValidPiece(q) && StartsWith(body, at, ShowPiece(q)) :: r.Some? && q == p
  {
    if body[at] == '\\' {
      r, next, p := DecodeEscape(body, at);
      if r.Some? {
        PieceNotEmpty(p);
      }
    } else {
      p := Plain(body[at]);
      r, next := Some([body[at]]), at + 1;
      PlainText(body[at]);
      forall q | ValidPiece(q) && StartsWith(body, at, ShowPiece(q)) ensures q == p {
        OtherPiece(body, at, q);
      }
    }
  }

  lemma PieceNotEmpty(p: Piece)
    requires ValidPiece(p)
    ensures |ShowPiece(p)| > 0
  {
  }

  /** What every spelling that goes on from ps does next. */
  lemma SpellsOn(ps: seq<Piece>, body: string)
    requires |ShowPieces(ps)| < |body| && forall qs | Spells(qs, body) :: ps <= qs
    ensures forall qs | Spells(qs, body) ::
              if ps == qs then body[|ShowPieces(ps)|] == '\"'
              else |ps| < |qs| && ValidPiece(qs[|ps|])
                   && StartsWith(body, |ShowPieces(ps)|, ShowPiece(qs[|ps|])) && body[|ShowPieces(ps)|] != '\"'
  {
    forall qs | Spells(qs, body)
      ensures if ps == qs then body[|ShowPieces(ps)|] == '\"'
              else |ps| < |qs| && ValidPiece(qs[|ps|])
                   && StartsWith(body, |ShowPieces(ps)|, ShowPiece(qs[|ps|])) && body[|ShowPieces(ps)|] != '\"'
    {
      SpellsNext(ps, qs, body);
    }
  }

  lemma OnePieceMore(ps: seq<Piece>, p: Piece, body: string, at: nat)
    requires at <= |body| && ShowPieces(ps) == body[..at] && StartsWith(body, at, ShowPiece(p))
    ensures ShowPieces(ps + [p]) == body[..at + |ShowPiece(p)|]
  {
    hide ShowPieces;
    hide ShowPiece;
    PiecesSnoc(ps, p);
    assert body[..at + |ShowPiece(p)|] == body[..at] + body[at..at + |ShowPiece(p)|];
  }

  /** Decodes the inside of a string token.  It succeeds exactly when the bytes up to the first bare
      quote are spelled by valid pieces, and then gives the text these pieces denote. */
  method DecodeString(body: string) returns (r: Option<string>, ghost ps: seq<Piece>)
    ensures r.Some? <==> exists qs :: Spells(qs, body)
    ensures forall qs :: Spells(qs, body) ==> r == Some(PiecesText(qs))
    ensures r.Some? ==> Spells(ps, body) && r.value == PiecesText(ps)
    ensures forall qs :: Spells(qs, body) ==> r.Some? && qs == ps
  {
    hide ShowPiece;
    hide PieceText;
    hide PiecesText;
    hide ShowPieces;
    hide Spells;
    hide StartsWith;
    hide ValidPiece;
    hide ValidPieces;
    var decoded := "";
    var current := 0;
    ps := [];
    NoPieces();
    while current != |body|
      invariant current <= |body| && ValidPieces(ps)
      invariant body[..current] == ShowPieces(ps) && decoded == PiecesText(ps)
      invariant forall qs | Spells(qs, body) :: ps <= qs
      decreases |body| - current
    {
      SpellsOn(ps, body);
      if body[current] == '\"' {
        break;
      }
      var text;
      ghost var p;
      ghost var at := current;
      text, current, p := DecodePiece(body, current);
      if text.None? {
        return None, ps;
      }
      decoded := decoded + text.value;
      OnePieceMore(ps, p, body, at);
      PiecesTextSnoc(ps, p);
      ValidSnoc(ps, p);
      ps := ps + [p];
    }
    if current == |body| {
      SpellsAll(ps, body);
    }
    SpelledSoFar(ps, body, current);
    r := Some(decoded);
  }

  lemma ValidSnoc(ps: seq<Piece>, p: Piece)
    requires ValidPieces(ps) && ValidPiece(p)
    ensures ValidPieces(ps + [p])
  {
  }

  lemma SpelledSoFar(ps: seq<Piece>, body: string, current: nat)
    requires current <= |body| && ValidPieces(ps) && body[..current] == ShowPieces(ps)
    requires current == |body| || body[current] == '\"'
    ensures Spells(ps, body)
  {
  }

  /** Spellings that go on from one that reached the end are that one. */
  lemma SpellsAll(ps: seq<Piece>, body: string)
    requires ShowPieces(ps) == body && forall qs | Spells(qs, body) :: ps <= qs
    ensures forall qs | Spells(qs, body) :: qs == ps
  {
    forall qs | Spells(qs, body) ensures qs == ps {
      if ps != qs {
        assert qs[..|ps|] == ps;
        NextPiece(qs, |ps|);
      }
    }
  }
  lemma NoPieces()
    ensures ShowPieces([]) == "" && PiecesText([]) == "" && ValidPieces([])
  {
  }

  lemma PlainText(c: char)
    requires c != '\"' && c != '\\'
    ensures ShowPiece(Plain(c)) == [c] == PieceText(Plain(c))
  {
  }

  // ---- A string has one spelling ----

  lemma PieceUnique(body: string, at: nat, p: Piece, q: Piece)
    requires ValidPiece(p) && StartsWith(body, at, ShowPiece(p))
    requires ValidPiece(q) && StartsWith(body, at, ShowPiece(q))
    ensures p == q
  {
    hide StartsWith;
    hide ShowPiece;
    hide ValidPiece;
    OtherPiece(body, at, p);
    OtherPiece(body, at, q);
    if body[at] == '\\' && body[at + 1] == 'u' {
      UnicodePrefix(body, at);
      UnicodeAtExact(body, at);
    }
  }

  lemma UnicodePrefix(body: string, at: nat)
    requires at + 1 < |body| && body[at] == '\\' && body[at + 1] == 'u'
    ensures StartsWith(body, at, "\\u")
  {
  }

  lemma {:induction false} SpellingsAgree(ps: seq<Piece>, qs: seq<Piece>, body: string, k: nat)
    requires Spells(ps, body) && Spells(qs, body) && k <= |ps| && k <= |qs|
    ensures ps[..k] == qs[..k]
    decreases k
  {
    hide Spells;
    hide ShowPiece;
    hide ShowPieces;
    hide ValidPiece;
    hide StartsWith;
    if k > 0 {
      SpellingsAgree(ps, qs, body, k - 1);
      var so := ps[..k - 1];
      PieceNext(ps, body, k - 1);
      PieceNext(qs, body, k - 1);
      PieceUnique(body, |ShowPieces(so)|, ps[k - 1], qs[k - 1]);
      assert ps[..k] == so + [ps[k - 1]] && qs[..k] == so + [qs[k - 1]];
    }
  }

  lemma PieceNext(ps: seq<Piece>, body: string, k: nat)
    requires Spells(ps, body) && k < |ps|
    ensures ValidPiece(ps[k]) && StartsWith(body, |ShowPieces(ps[..k])|, ShowPiece(ps[k]))
  {
    hide ShowPiece;
    hide ShowPieces;
    NextPiece(ps, k);
  }

  lemma SpellsUnique(ps: seq<Piece>, qs: seq<Piece>, body: string)
    requires Spells(ps, body) && Spells(qs, body)
    ensures ps == qs
  {
    hide ShowPiece;
    hide ShowPieces;
    if |ps| <= |qs| {
      SpellingsAgree(ps, qs, body, |ps|);
      assert qs[..|ps|] == ps;
      SpellsNoLonger(ps, qs, body);
    } else {
      SpellingsAgree(qs, ps, body, |qs|);
      assert ps[..|qs|] == qs;
      SpellsNoLonger(qs, ps, body);
    }
  }

  lemma SpellsNoLonger(ps: seq<Piece>, qs: seq<Piece>, body: string)
    requires Spells(ps, body) && Spells(qs, body) && ps <= qs
    ensures ps == qs
  {
    hide ShowPieces;
    hide ShowPiece;
    if ps != qs {
      PieceNext(qs, body, |ps|);
      assert qs[..|ps|] == ps;
      OtherPiece(body, |ShowPieces(ps)|, qs[|ps|]);
    }
  }
}
