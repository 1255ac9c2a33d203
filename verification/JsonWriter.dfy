/** FastWriter and StyledWriter, both for comment-free values and with their default settings. */
module JsonWriter {
  import opened Wrappers
  import opened JsonValue
  import opened JsonText
  import opened JsonNumber
  import opened JsonString
  import opened JsonLayout

  /** The cases of writeValue that print one token. */
  method ScalarToString(v: Value, showDouble: Double -> string) returns (s: string)
    requires !v.Arr? && !v.Obj? && Valid(v)
    ensures s == Show(ScalarSyntax(v, showDouble))
  {
    if v.Null? {
      s := "null";
    } else if v.Int? {
      s := IntToString(v.i);
    } else if v.UInt? {
      s := UIntToText(v.u);
    } else if v.Real? {
      s := showDouble(v.d);
    } else if v.Str? {
      s := ValueToQuotedStringN(v.s);
    } else {
      s := if v.b then "true" else "false";
    }
  }

  /** Looking a child up by its key gives the child: value[index] and value[name]. */
  lemma LookUp(v: Value, i: nat)
    requires Valid(v) && i < Size(v)
    ensures v.Arr? ==> Find(v.entries, Index(i)) == Children(v)[i].value
    ensures v.Obj? ==> Find(v.entries, v.entries[i].key) == Children(v)[i].value
    ensures Valid(Children(v)[i].value) && (v.Obj? ==> v.entries[i].key.Name?)
  {
    ChildrenValid(v);
    if v.Obj? {
      FindAt(v.entries, i);
    }
  }

  class FastWriter {
    const showDouble: Double -> string
    var document: string

    constructor (showDouble: Double -> string)
      ensures this.showDouble == showDouble
    {
      this.showDouble := showDouble;
      document := "";
    }

    method Write(root: Value) returns (text: string)
      requires Valid(root)
      modifies this
      ensures text == Show(FastSyntax(root, showDouble)) + "\n"
    {
      document := "";
      WriteValue(root);
      document := document + "\n";
      text := document;
    }

    /** Appends the spelling of one value. */
    method WriteValue(v: Value)
      requires Valid(v)
      modifies this
      ensures document == old(document) + Show(FastSyntax(v, showDouble))
      decreases Nodes(v), 1
    {
      hide Show;
      hide ShowElems;
      hide ShowElem;
      hide ScalarSyntax;
      hide FastSyntax;
      hide FastElems;
      hide FastElem;
      hide Valid;
      FastScalar(v, showDouble);
      if v.Arr? || v.Obj? {
        document := document + (if v.Arr? then "[" else "{");
        var size := Size(v);
        ghost var start := document;
        FastStart(v, showDouble);
        for index := 0 to size
          invariant document == start + ShowElems(FastElems(v, index, showDouble))
        {
          if index > 0 {
            document := document + ",";
          }
          FastStep(v, index, showDouble);
          WriteChild(v, index);
        }
        document := document + (if v.Arr? then "]" else "}");
        FastContainer(v, showDouble);
      } else {
        var s := ScalarToString(v, showDouble);
        document := document + s;
      }
    }

    /** One element, or one member with its name. */
    method WriteChild(v: Value, index: nat)
      requires Valid(v) && index < Size(v)
      modifies this
      ensures document == old(document) + ShowElem(FastElem(v, index, showDouble))
      decreases Nodes(v), 0
    {
      hide Show;
      hide ShowElem;
      hide FastElem;
      hide FastSyntax;
      hide Find;
      hide Quoted;
      hide PiecesOf;
      hide Valid;
      LookUp(v, index);
      FastElemText(v, index, showDouble);
      if v.Obj? {
        var name := v.entries[index].key.s;
        var quoted := ValueToQuotedStringN(name);
        document := document + quoted;
        document := document + ":";
        WriteValue(Find(v.entries, Name(name)));
        JoinText(old(document), quoted, ":", Show(FastSyntax(Children(v)[index].value, showDouble)));
      } else {
        WriteValue(Find(v.entries, Index(index)));
      }
    }
  }

  lemma FastScalar(v: Value, showDouble: Double -> string)
    ensures !v.Arr? && !v.Obj? ==> FastSyntax(v, showDouble) == ScalarSyntax(v, showDouble)
  {
  }

  lemma FastStart(v: Value, showDouble: Double -> string)
    ensures ShowElems(FastElems(v, 0, showDouble)) == ""
  {
  }

  lemma FastStep(v: Value, i: nat, showDouble: Double -> string)
    requires i < Size(v)
    ensures ShowElems(FastElems(v, i + 1, showDouble))
            == ShowElems(FastElems(v, i, showDouble)) + (if i > 0 then "," else "")
               + ShowElem(FastElem(v, i, showDouble))
  {
    ShowSnoc(FastElems(v, i, showDouble), FastElem(v, i, showDouble));
  }

  lemma FastElemText(v: Value, i: nat, showDouble: Double -> string)
    requires Valid(v) && i < Size(v)
    ensures var value := Show(FastSyntax(Children(v)[i].value, showDouble));
            ShowElem(FastElem(v, i, showDouble))
            == if v.Obj? && v.entries[i].key.Name? then Quoted(PiecesOf(v.entries[i].key.s)) + ":" + value else value
  {
    hide Quoted;
    hide PiecesOf;
    hide Show;
    hide ShowElem;
    hide FastSyntax;
    hide Valid;
    ChildrenValid(v);
    if v.Obj? {
      assert Children(v) == v.entries;
    }
    FastElemParts(FastElem(v, i, showDouble), Children(v)[i].key);
  }

  lemma FastElemParts(e: Elem, k: Key)
    requires e.lead == "" && e.before == "" && e.after == "" && e.tag == FastTag(k)
    ensures ShowElem(e) == if k.Name? then Quoted(PiecesOf(k.s)) + ":" + Show(e.value) else Show(e.value)
  {
    hide Quoted;
    hide PiecesOf;
    hide Show;
    assert Show(e.value) + "" == Show(e.value);
  }

  lemma FastContainer(v: Value, showDouble: Double -> string)
    requires v.Arr? || v.Obj?
    ensures Show(FastSyntax(v, showDouble))
            == (if v.Arr? then "[" else "{") + ShowElems(FastElems(v, Size(v), showDouble))
               + (if v.Arr? then "]" else "}")
  {
    hide ShowElems;
    hide FastElems;
    hide Size;
    FastShape(v, showDouble);
    hide FastSyntax;
  }

  // ---- StyledWriter ----

  const RIGHT_MARGIN := 74
  const INDENT_SIZE := 3

  /** The syntax s is strict and denotes what StyledWriter makes of v: its normal form with names cut at a NUL. */
  ghost predicate Spelling(s: Syntax, v: Value) {
    RealFree(v) ==>
      && ValidSyntax(s) && Meaning(s) == Norm(v, true) && Depth(s) == ValueDepth(v)
      && Strict(s) && (Narrow(s) <==> Counted(v))
  }

  /** The elements spell the first k children of v. */
  ghost predicate SpellChildren(es: seq<Elem>, v: Value, k: nat)
    requires k <= Size(v)
  {
    && |es| == k
    && (RealFree(v) ==>
          && ValidElems(es, v.Obj?) && ElemPairs(es, v.Obj?) == NormPairs(v, k, true)
          && DepthElems(es) == ChildrenDepth(v, k)
          && StrictElems(es, v.Obj?) && (NarrowElems(es) <==> CountedTo(v, k)))
  }

  ghost predicate SpellChild(e: Elem, v: Value, i: nat)
    requires i < Size(v)
  {
    RealFree(v) ==>
      && ValidElem(e, v.Obj?) && DepthElem(e) == ValueDepth(Children(v)[i].value)
      && ElemPair(e, i, v.Obj?)
         == Pair(CutKey(Children(v)[i].key, true), Norm(Children(v)[i].value, true))
      && StrictElem(e, v.Obj?) && (NarrowElem(e) <==> Counted(Children(v)[i].value))
  }

  lemma SpellStart(v: Value)
    ensures SpellChildren([], v, 0) && ShowElems([]) == ""
  {
  }

  lemma NormStep(v: Value, k: nat)
    requires k < Size(v)
    ensures NormPairs(v, k + 1, true)
            == NormPairs(v, k, true) + [Pair(CutKey(Children(v)[k].key, true), Norm(Children(v)[k].value, true))]
    ensures ChildrenDepth(v, k + 1) == Max(ChildrenDepth(v, k), ValueDepth(Children(v)[k].value))
  {
    hide Norm;
    hide Children;
  }

  lemma SpellSnoc(es: seq<Elem>, e: Elem, v: Value, k: nat)
    requires k < Size(v) && SpellChildren(es, v, k) && SpellChild(e, v, k)
    ensures SpellChildren(es + [e], v, k + 1)
    ensures ShowElems(es + [e]) == ShowElems(es) + (if k > 0 then "," else "") + ShowElem(e)
  {
    hide Norm;
    hide Children;
    hide Counted;
    hide CountedTo;
    hide StrictElem;
    hide StrictElems;
    hide NarrowElem;
    hide NarrowElems;
    hide DepthElem;
    hide DepthElems;
    hide ValueDepth;
    hide ValidElem;
    hide ElemPair;
    hide ElemPairs;
    hide ValidElems;
    hide NormPairs;
    hide ChildrenDepth;
    hide CutKey;
    hide ShowElem;
    hide ShowElems;
    hide RealFree;
    if RealFree(v) {
      NormStep(v, k);
      ElemsSnoc(es, e, v.Obj?);
      StrictSnoc(es, e, v.Obj?);
      CountedStep(v, k + 1);
    }
    ShowSnoc(es, e);
  }

  /** An array element, between blanks. */
  lemma SpellElement(v: Value, i: nat, lead: string, s: Syntax)
    requires Valid(v) && v.Arr? && i < Size(v) && Blank(lead) && Spelling(s, Children(v)[i].value)
    ensures SpellChild(Elem(lead, None, "", s, ""), v, i)
    ensures ShowElem(Elem(lead, None, "", s, "")) == lead + Show(s)
  {
    hide RealFree;
    hide Norm;
    hide ValueDepth;
    hide Valid;
    hide Show;
    hide ShowElem;
    hide Strict;
    hide Narrow;
    hide Counted;
    hide Children;
    hide Depth;
    hide Meaning;
    hide ValidSyntax;
    ChildIndex(v, i);
    ChildRealFree(v, i);
    ElementText(lead, s);
  }

  lemma ElementText(lead: string, s: Syntax)
    ensures ShowElem(Elem(lead, None, "", s, "")) == lead + Show(s)
  {
    hide Show;
    assert lead + "" + "" + Show(s) + "" == lead + Show(s);
  }

  lemma ChildIndex(v: Value, i: nat)
    requires Valid(v) && v.Arr? && i < Size(v)
    ensures Children(v)[i].key == Index(i)
  {
  }

  lemma ChildRealFree(v: Value, i: nat)
    requires i < Size(v)
    ensures RealFree(v) ==> RealFree(Children(v)[i].value)
  {
  }

  lemma EmptyContainers()
    ensures Show(List([], "")) == "[]" && Show(Record([], "")) == "{}" && Blank("")
  {
  }

  /** An object member: its name up to the first NUL, " : " and its value. */
  function Member(lead: string, name: string, before: string, s: Syntax): Elem {
    Elem(lead, Some(Tag(PiecesOf(CutAtNul(name)), " ")), " " + before, s, "")
  }

  lemma SpellMember(v: Value, i: nat, lead: string, before: string, s: Syntax)
    requires Valid(v) && v.Obj? && i < Size(v) && v.entries[i].key.Name?
    requires Blank(lead) && Blank(before) && Spelling(s, Children(v)[i].value)
    ensures SpellChild(Member(lead, v.entries[i].key.s, before, s), v, i)
    ensures ShowElem(Member(lead, v.entries[i].key.s, before, s))
            == lead + Quoted(PiecesOf(CutAtNul(v.entries[i].key.s))) + " : " + before + Show(s)
  {
    hide RealFree;
    hide Norm;
    hide ValueDepth;
    hide Valid;
    hide PiecesOf;
    hide CutAtNul;
    hide Quoted;
    hide Show;
    hide ShowElem;
    hide Strict;
    hide Narrow;
    hide Counted;
    ChildRealFree(v, i);
    NameFits(v, i);
    CutShorter(v.entries[i].key.s);
    PiecesOfExact(CutAtNul(v.entries[i].key.s));
    ShowMember(lead, v.entries[i].key.s, before, s);
  }

  lemma NameFits(v: Value, i: nat)
    requires Valid(v) && v.Obj? && i < Size(v)
    ensures v.entries[i].key.Name? && |v.entries[i].key.s| < NAME_RANGE
  {
    assert KeyFits(v.entries[i].key, true);
  }

  lemma {:induction false} CutShorter(s: string)
    ensures |CutAtNul(s)| <= |s|
  {
    if s != [] {
      CutShorter(s[1..]);
    }
  }

  lemma ShowMember(lead: string, name: string, before: string, s: Syntax)
    ensures ShowElem(Member(lead, name, before, s))
            == lead + Quoted(PiecesOf(CutAtNul(name))) + " : " + before + Show(s)
  {
    hide Quoted;
    hide PiecesOf;
    hide CutAtNul;
    hide Show;
    var q := Quoted(PiecesOf(CutAtNul(name)));
    assert ShowElem(Member(lead, name, before, s)) == lead + (q + " " + ":") + (" " + before) + Show(s) + "";
    JoinMember(lead, q, before, Show(s));
  }

  lemma JoinMember(a: string, q: string, b: string, t: string)
    ensures a + (q + " " + ":") + (" " + b) + t + "" == a + q + " : " + b + t
  {
    assert " : " == " " + ":" + " ";
    assert a + (q + " " + ":") + (" " + b) == a + q + " : " + b;
  }

  lemma JoinText(a: string, b: string, c: string, d: string)
    ensures a + b + (c + d) == a + (b + c + d) && a + b + c + d == a + (b + c + d)
    ensures c == "" ==> a + b + d == a + (b + d)
  {
    assert a + b + (c + d) == a + (b + c + d);
  }

  lemma FullLine(open: string, es: seq<Elem>)
    ensures es != [] ==> LineText(open, es) == open + ShowElems(es)
  {
  }

  lemma OpenLine(start: string)
    ensures start + "[ " == start + "[" + " "
  {
    assert "[ " == "[" + " ";
  }

  lemma JoinClose(a: string, open: string, es: string, close: string, bracket: string)
    ensures a + open + es + (close + bracket) == a + (open + es + close + bracket)
    ensures a + open + es + close + bracket == a + (open + es + close + bracket)
    ensures " " + "]" == " ]"
  {
    assert a + open + es + (close + bracket) == a + (open + es + close + bracket);
  }

  lemma JoinLine(start: string, es: string, t: string)
    ensures start + es + ", " + t == start + (es + "," + (" " + t))
    ensures start + " " + t == start + ("" + "" + (" " + t))
  {
    assert ", " == "," + " ";
    assert es + ", " + t == es + "," + (" " + t);
    assert start + (es + ", " + t) == start + es + ", " + t;
  }

  /** The line behind its opening bracket, which a blank follows at once. */
  function LineText(open: string, es: seq<Elem>): string {
    if es == [] then open + " " else open + ShowElems(es)
  }

  /** One more element on the line. */
  lemma LineStep(open: string, es: seq<Elem>, v: Value, k: nat, s: Syntax)
    requires Valid(v) && v.Arr? && k < Size(v) && Spelling(s, Children(v)[k].value) && SpellChildren(es, v, k)
    ensures var e := Elem(" ", None, "", s, "");
            && SpellChildren(es + [e], v, k + 1)
            && (if k > 0 then LineText(open, es) + ", " + Show(s) else LineText(open, es) + Show(s))
               == LineText(open, es + [e])
  {
    hide Spelling;
    hide SpellChild;
    hide Valid;
    hide ShowElem;
    hide Show;
    var e := Elem(" ", None, "", s, "");
    SpellElement(v, k, " ", s);
    SpellSnoc(es, e, v, k);
    JoinLine(open, ShowElems(es), Show(s));
  }

  /** Text appended piece by piece is the text appended at once. */
  lemma Joined(start: string, a: string, b: string, c: string, d: string)
    ensures start + a + b + c + d == start + (a + b + c + d)
  {
    assert start + a + b + c == start + (a + b + c);
  }

  lemma MemberText(start: string, blanks: string, quoted: string, shown: string)
    ensures start + blanks + quoted + " : " + shown == start + (blanks + quoted + " : " + "" + shown)
  {
    Joined(start, blanks, quoted, " : ", shown);
    assert blanks + quoted + " : " + "" == blanks + quoted + " : ";
  }

  lemma BehindColon(text: string)
    ensures text + " : " != "" && (text + " : ")[|text + " : "| - 1] == ' '
  {
  }

  lemma KeyedByName(v: Value, i: nat)
    requires v.Obj? && i < Size(v)
    ensures Children(v)[i].key == v.entries[i].key
  {
  }

  lemma SpellContainer(v: Value, es: seq<Elem>, close: string)
    requires (v.Arr? || v.Obj?) && SpellChildren(es, v, Size(v)) && Blank(close)
    ensures Spelling(ContainerOf(v, es, close), v)
  {
    hide Size;
    if RealFree(v) {
      ContainerMeaning(v, es, close, true);
    }
    hide SpellChildren;
  }

  lemma SpellScalar(v: Value, showDouble: Double -> string)
    requires !v.Arr? && !v.Obj? && Valid(v)
    ensures Spelling(ScalarSyntax(v, showDouble), v)
  {
    if RealFree(v) {
      ScalarExact(v, showDouble, true);
    }
  }

  /** What writeIndent adds: a new line unless there is one, and the indentation; nothing behind a blank. */
  function IndentBlanks(document: string, indentString: string): string {
    if document == "" || document[|document| - 1] == '\n' then indentString
    else if document[|document| - 1] == ' ' then ""
    else "\n" + indentString
  }

  lemma BlankLine(level: nat)
    ensures Blank(Indentation(level)) && Blank(Line(level))
  {
  }

  lemma DeeperLine(level: nat)
    ensures Indentation(level) + seq(3, _ => ' ') == Indentation(level + 1)
    ensures Indentation(level + 1)[..3 * level] == Indentation(level)
    ensures Indentation(level + 1) != "" && Indentation(level + 1)[3 * level + 2] == ' '
  {
  }

  /** The length of the line that shows the first of size elements, in 32 bits. */
  function LineLength(size: nat, shown: seq<string>): nat
    requires size > 0
  {
    if shown == [] then (4 + (size - 1) * 2) % UINT_RANGE
    else (LineLength(size, shown[..|shown| - 1]) + |shown[|shown| - 1]|) % UINT_RANGE
  }

  ghost predicate HasNested(v: Value) {
    exists i :: 0 <= i < Size(v) && Size(Children(v)[i].value) > 0
  }

  lemma NotNested(v: Value, i: nat)
    requires !HasNested(v) && i < Size(v)
    ensures Size(Children(v)[i].value) == 0
  {
  }

  lemma NoLine(size: nat)
    requires size > 0
    ensures LineLength(size, []) == (4 + (size - 1) * 2) % UINT_RANGE
  {
  }

  lemma LongerLine(size: nat, shown: seq<string>)
    requires size > 0 && shown != []
    ensures LineLength(size, shown)
            == (LineLength(size, shown[..|shown| - 1]) + |shown[|shown| - 1]|) % UINT_RANGE
  {
  }

  function Total(shown: seq<string>): nat {
    if shown == [] then 0 else Total(shown[..|shown| - 1]) + |shown[|shown| - 1]|
  }

  /** That is the length of the whole line, cut to 32 bits at the end only. */
  lemma {:induction false} LineLengthExact(size: nat, shown: seq<string>)
    requires size > 0
    ensures LineLength(size, shown) == (2 + 2 * size + Total(shown)) % 0x1_0000_0000
  {
    if shown != [] {
      LineLengthExact(size, shown[..|shown| - 1]);
    }
  }

  lemma {:induction false} TotalText(shown: seq<string>, es: seq<Elem>)
    requires |shown| == |es| && forall i :: 0 <= i < |es| ==> shown[i] == Show(es[i].value)
    ensures TextLength(es) == Total(shown)
  {
    if es != [] {
      TotalText(shown[..|es| - 1], es[..|es| - 1]);
    }
  }

  /** The first k members are laid out. */
  ghost predicate MembersLaid(es: seq<Elem>, v: Value, k: nat, level: nat, showDouble: Double -> string)
    requires k <= Size(v)
  {
    |es| == k && forall i :: 0 <= i < k ==> MemberLaid(es[i], v, i, level, showDouble)
  }

  ghost predicate ElementsLaid(es: seq<Elem>, v: Value, k: nat, level: nat, oneLine: bool, showDouble: Double -> string)
    requires k <= Size(v)
  {
    |es| == k && forall i :: 0 <= i < k ==> ElementLaid(es[i], v, i, level, oneLine, showDouble)
  }

  /** The first k elements are the cached ones. */
  predicate Taken(es: seq<Elem>, cached: seq<Syntax>, k: nat) {
    |es| == k <= |cached| && forall i :: 0 <= i < k ==> es[i].value == cached[i]
  }

  lemma TakenSnoc(es: seq<Elem>, e: Elem, cached: seq<Syntax>, k: nat)
    requires Taken(es, cached, k) && k < |cached| && e.value == cached[k]
    ensures Taken(es + [e], cached, k + 1)
  {
  }

  lemma ElementsSnoc(es: seq<Elem>, e: Elem, v: Value, k: nat, level: nat, oneLine: bool, showDouble: Double -> string)
    requires k < Size(v) && ElementsLaid(es, v, k, level, oneLine, showDouble)
    requires ElementLaid(e, v, k, level, oneLine, showDouble)
    ensures ElementsLaid(es + [e], v, k + 1, level, oneLine, showDouble)
  {
    hide ElementLaid;
  }

  lemma MembersSnoc(es: seq<Elem>, e: Elem, v: Value, k: nat, level: nat, showDouble: Double -> string)
    requires k < Size(v) && MembersLaid(es, v, k, level, showDouble) && MemberLaid(e, v, k, level, showDouble)
    ensures MembersLaid(es + [e], v, k + 1, level, showDouble)
  {
    hide MemberLaid;
  }

  lemma RecordLaid(v: Value, es: seq<Elem>, level: nat, showDouble: Double -> string)
    requires v.Obj? && Size(v) > 0 && MembersLaid(es, v, Size(v), level + 1, showDouble)
    ensures Laid(Record(es, Line(level)), v, level, showDouble)
  {
    hide MemberLaid;
    hide Size;
  }

  lemma ListLaid(v: Value, es: seq<Elem>, level: nat, oneLine: bool, showDouble: Double -> string)
    requires v.Arr? && Size(v) > 0 && ElementsLaid(es, v, Size(v), level + 1, oneLine, showDouble)
    requires oneLine <==> OneLine(v, es)
    ensures Laid(List(es, if oneLine then " " else Line(level)), v, level, showDouble)
  {
    hide ElementLaid;
    hide OneLine;
    hide Size;
  }

  /** The cached elements, with one blank in front of each. */
  lemma FlatElements(v: Value, es: seq<Elem>, shown: seq<string>, cached: seq<Syntax>, level: nat,
      showDouble: Double -> string)
    requires |es| == |cached| == Size(v) && Cached(shown, cached, v, Size(v), showDouble)
    requires forall i :: 0 <= i < Size(v) ==> es[i] == Elem(" ", None, "", cached[i], "")
    ensures ElementsLaid(es, v, Size(v), level, true, showDouble)
  {
    hide Cached;
    hide FlatSyntax;
    hide Children;
    hide Size;
    forall i | 0 <= i < Size(v) ensures ElementLaid(es[i], v, i, level, true, showDouble) {
      CachedAt(shown, cached, v, Size(v), showDouble, i);
      FlatLaid(cached[i], Children(v)[i].value, level, showDouble);
    }
  }

  /** Which layout an array has, from the cached strings. */
  lemma LineDecided(v: Value, shown: seq<string>, cached: seq<Syntax>, es: seq<Elem>, showDouble: Double -> string)
    requires Size(v) > 0 && Cached(shown, cached, v, Size(v), showDouble) && Taken(es, cached, Size(v))
    requires Size(v) * 3 % 0x1_0000_0000 < 74 && !HasNested(v)
    ensures OneLine(v, es) <==> LineLength(Size(v), shown) < 74
  {
    hide Cached;
    hide LineLength;
    hide HasNested;
    hide Children;
    hide Size;
    hide Show;
    CachedSize(shown, cached, v, Size(v), showDouble);
    forall i | 0 <= i < Size(v) ensures shown[i] == Show(es[i].value) {
      CachedAt(shown, cached, v, Size(v), showDouble, i);
    }
    LineLengthExact(Size(v), shown);
    TotalText(shown, es);
    NoneNested(v);
    hide TextLength;
    hide Total;
  }

  lemma NoneNested(v: Value)
    ensures !HasNested(v) ==> forall i :: 0 <= i < Size(v) ==> Size(Children(v)[i].value) == 0
  {
    hide Children;
    hide Size;
  }

  /** The cache is full, and the length of the line decides; or it is empty, and something else did. */
  ghost predicate Decided(shown: seq<string>, cached: seq<Syntax>, v: Value, isMultiLine: bool,
      showDouble: Double -> string)
    requires Size(v) > 0
  {
    if shown == [] then isMultiLine && (Size(v) * 3 % 0x1_0000_0000 >= 74 || HasNested(v))
    else
      && Cached(shown, cached, v, Size(v), showDouble) && Size(v) * 3 % 0x1_0000_0000 < 74 && !HasNested(v)
      && (isMultiLine <==> LineLength(Size(v), shown) >= 74)
  }

  lemma ManyLinesLaid(shown: seq<string>, cached: seq<Syntax>, v: Value, es: seq<Elem>, level: nat,
      showDouble: Double -> string)
    requires Size(v) > 0 && v.Arr? && Decided(shown, cached, v, true, showDouble)
    requires shown != [] ==> Taken(es, cached, Size(v))
    requires ElementsLaid(es, v, Size(v), level + 1, false, showDouble)
    ensures Laid(List(es, Line(level)), v, level, showDouble)
  {
    hide Cached;
    hide HasNested;
    hide LineLength;
    hide OneLine;
    hide ElementsLaid;
    hide Size;
    hide Laid;
    if shown != [] {
      LineDecided(v, shown, cached, es, showDouble);
    } else {
      ManyLines(v, es);
    }
    ListLaid(v, es, level, false, showDouble);
  }

  lemma OneLineLaid(shown: seq<string>, cached: seq<Syntax>, v: Value, es: seq<Elem>, level: nat,
      showDouble: Double -> string)
    requires Size(v) > 0 && v.Arr? && Decided(shown, cached, v, false, showDouble)
    requires |es| == |cached| == Size(v) && forall i :: 0 <= i < Size(v) ==> es[i] == Elem(" ", None, "", cached[i], "")
    ensures Laid(List(es, " "), v, level, showDouble)
  {
    hide Cached;
    hide HasNested;
    hide LineLength;
    hide OneLine;
    hide ElementsLaid;
    hide Size;
    hide Laid;
    FlatElements(v, es, shown, cached, level + 1, showDouble);
    LineDecided(v, shown, cached, es, showDouble);
    ListLaid(v, es, level, true, showDouble);
  }

  lemma ManyLines(v: Value, es: seq<Elem>)
    requires Size(v) * 3 % 0x1_0000_0000 >= 74 || HasNested(v)
    ensures !OneLine(v, es)
  {
  }

  lemma FlatLaid(s: Syntax, v: Value, level: nat, showDouble: Double -> string)
    ensures Size(v) == 0 ==> (Laid(s, v, level, showDouble) <==> s == FlatSyntax(v, showDouble))
  {
  }

  /** The strings are the texts of the first k elements, which have no entries of their own. */
  ghost predicate Cached(shown: seq<string>, cached: seq<Syntax>, v: Value, k: nat, showDouble: Double -> string)
    requires k <= Size(v)
  {
    && |shown| == |cached| == k
    && forall i :: 0 <= i < k ==>
         && shown[i] == Show(cached[i]) && Spelling(cached[i], Children(v)[i].value)
         && Size(Children(v)[i].value) == 0 && cached[i] == FlatSyntax(Children(v)[i].value, showDouble)
  }

  lemma CachedAt(shown: seq<string>, cached: seq<Syntax>, v: Value, k: nat, showDouble: Double -> string, i: nat)
    requires k <= Size(v) && Cached(shown, cached, v, k, showDouble) && i < k
    ensures |shown| == |cached| == k && shown[i] == Show(cached[i])
    ensures Spelling(cached[i], Children(v)[i].value) && cached[i] == FlatSyntax(Children(v)[i].value, showDouble)
    ensures Size(Children(v)[i].value) == 0
  {
    hide Children;
    hide Spelling;
  }

  lemma CachedSize(shown: seq<string>, cached: seq<Syntax>, v: Value, k: nat, showDouble: Double -> string)
    requires k <= Size(v) && Cached(shown, cached, v, k, showDouble)
    ensures |shown| == |cached| == k
  {
  }

  lemma CachedSnoc(shown: seq<string>, cached: seq<Syntax>, v: Value, k: nat, showDouble: Double -> string, s: Syntax)
    requires k < Size(v) && Cached(shown, cached, v, k, showDouble)
    requires Spelling(s, Children(v)[k].value) && s == FlatSyntax(Children(v)[k].value, showDouble)
    requires Size(Children(v)[k].value) == 0
    ensures Cached(shown + [Show(s)], cached + [s], v, k + 1, showDouble)
  {
    hide Children;
    hide Spelling;
    hide Show;
    hide FlatSyntax;
  }

  class StyledWriter {
    const showDouble: Double -> string
    var document: string
    var childValues: seq<string>
    var indentString: string
    var addChildValues: bool

    constructor (showDouble: Double -> string)
      ensures this.showDouble == showDouble
    {
      this.showDouble := showDouble;
      document, childValues, indentString, addChildValues := "", [], "", false;
    }

    // ---- Layout ----

    method PushValue(value: string)
      modifies this`document, this`childValues
      ensures if addChildValues then childValues == old(childValues) + [value] && document == old(document)
              else document == old(document) + value && childValues == old(childValues)
    {
      if addChildValues {
        childValues := childValues + [value];
      } else {
        document := document + value;
      }
    }

    /** Starts a new line unless the last character is a space already. */
    method WriteIndent() returns (ghost blanks: string)
      requires Blank(indentString)
      modifies this`document
      ensures Blank(blanks) && document == old(document) + blanks
      ensures blanks == IndentBlanks(old(document), indentString)
    {
      blanks := "";
      if document != "" {
        var last := document[|document| - 1];
        if last == ' ' {
          return;
        }
        if last != '\n' {
          document := document + "\n";
          blanks := "\n";
        }
      }
      document := document + indentString;
      blanks := blanks + indentString;
    }

    method WriteWithIndent(value: string) returns (ghost blanks: string)
      requires Blank(indentString)
      modifies this`document
      ensures Blank(blanks) && document == old(document) + blanks + value
      ensures blanks == IndentBlanks(old(document), indentString)
    {
      blanks := WriteIndent();
      document := document + value;
    }

    method Indent()
      requires Blank(indentString)
      modifies this`indentString
      ensures Blank(indentString) && indentString == old(indentString) + seq(INDENT_SIZE, _ => ' ')
    {
      indentString := indentString + seq(INDENT_SIZE, _ => ' ');
    }

    method Unindent()
      requires Blank(indentString) && |indentString| >= INDENT_SIZE
      modifies this`indentString
      ensures Blank(indentString) && indentString == old(indentString)[..|old(indentString)| - INDENT_SIZE]
    {
      indentString := indentString[..|indentString| - INDENT_SIZE];
    }

    // ---- Values ----

    /** The document is the value in its one layout, and a line feed. */
    method Write(root: Value) returns (text: string, ghost s: Syntax)
      requires Valid(root)
      modifies this
      ensures text == Show(s) + "\n" && Spelling(s, root)
      ensures SolidDoubles(showDouble) ==> Laid(s, root, 0, showDouble)
    {
      hide Show;
      hide Spelling;
      hide Valid;
      document := "";
      addChildValues := false;
      indentString := "";
      s := WriteValue(root, 0);
      document := document + "\n";
      text := document;
    }

    /** A value may start here: at the start of the document, or behind a blank. */
    predicate AtValue()
      reads this`document, this`indentString
    {
      if document == "" then indentString == "" else document[|document| - 1] == ' '
    }

    /** Appends the value to the document, or, while addChildValues is set, to the cached strings. */
    method WriteValue(v: Value, ghost level: nat) returns (ghost s: Syntax)
      requires Valid(v) && indentString == Indentation(level)
      requires if addChildValues then Size(v) == 0 else AtValue()
      modifies this
      ensures addChildValues == old(addChildValues) && indentString == old(indentString)
      ensures Spelling(s, v) && (SolidDoubles(showDouble) ==> Laid(s, v, level, showDouble))
      ensures Size(v) == 0 ==> s == FlatSyntax(v, showDouble)
      ensures if addChildValues then document == old(document) && childValues == old(childValues) + [Show(s)]
              else document == old(document) + Show(s)
      decreases Nodes(v), 4
    {
      hide Spelling;
      hide Valid;
      hide Laid;
      hide Indentation;
      if v.Arr? {
        s := WriteArrayValue(v, level);
      } else if v.Obj? {
        s := WriteObjectValue(v, level);
      } else {
        s := ScalarSyntax(v, showDouble);
        SpellScalar(v, showDouble);
        FlatLaid(s, v, level, showDouble);
        var text := ScalarToString(v, showDouble);
        PushValue(text);
      }
    }

    method WriteObjectValue(v: Value, ghost level: nat) returns (ghost s: Syntax)
      requires Valid(v) && v.Obj? && indentString == Indentation(level)
      requires if addChildValues then Size(v) == 0 else AtValue()
      modifies this
      ensures addChildValues == old(addChildValues) && indentString == old(indentString)
      ensures Spelling(s, v) && (SolidDoubles(showDouble) ==> Laid(s, v, level, showDouble))
      ensures Size(v) == 0 ==> s == FlatSyntax(v, showDouble)
      ensures if addChildValues then document == old(document) && childValues == old(childValues) + [Show(s)]
              else document == old(document) + Show(s)
      decreases Nodes(v), 2
    {
      hide Children;
      hide Nodes;
      hide Find;
      hide Spelling;
      hide SpellChildren;
      hide SpellChild;
      hide Valid;
      hide Laid;
      hide MemberLaid;
      hide SolidDoubles;
      hide Indentation;
      hide Line;
      hide ShowElem;
      hide ShowElems;
      hide Show;
      hide Blank;
      ghost var es: seq<Elem> := [];
      SpellStart(v);
      if Size(v) == 0 {
        s := Record([], "");
        EmptyContainers();
        SpellContainer(v, [], "");
        FlatLaid(s, v, level, showDouble);
        PushValue("{}");
        return;
      }
      ghost var start := document;
      BlankLine(level);
      BlankLine(level + 1);
      DeeperLine(level);
      NothingHere(document, indentString, "{");
      hide IndentBlanks;
      var _ := WriteWithIndent("{");
      Indent();
      assert MembersLaid([], v, 0, level + 1, showDouble);
      assert (start + "{") + ShowElems([]) == start + "{";
      hide MembersLaid;
      hide Solid;
      for index := 0 to Size(v)
        invariant !addChildValues && indentString == Indentation(level + 1)
        invariant SpellChildren(es, v, index) && document == (start + "{") + ShowElems(es)
        invariant index == 0 || SolidDoubles(showDouble) ==> Solid(document)
        invariant SolidDoubles(showDouble) ==> MembersLaid(es, v, index, level + 1, showDouble)
      {
        ghost var e;
        if index > 0 {
          SolidComma(document);
          document := document + ",";
        }
        e := WriteMember(v, index, level + 1);
        SpellSnoc(es, e, v, index);
        if SolidDoubles(showDouble) {
          MembersSnoc(es, e, v, index, level + 1, showDouble);
        }
        NextLine(start + "{", es, e);
        es := es + [e];
      }
      Unindent();
      LineHere(document, level);
      ghost var close := WriteWithIndent("}");
      s := Record(es, close);
      SpellContainer(v, es, close);
      JoinClose(start, "{", ShowElems(es), close, "}");
      RecordText(es, close);
      if SolidDoubles(showDouble) {
        RecordLaid(v, es, level, showDouble);
      }
    }

    method WriteMember(v: Value, index: nat, ghost level: nat) returns (ghost e: Elem)
      requires Valid(v) && v.Obj? && index < Size(v) && !addChildValues
      requires indentString == Indentation(level) && Solid(document)
      modifies this
      ensures addChildValues == old(addChildValues) && indentString == old(indentString)
      ensures SpellChild(e, v, index) && document == old(document) + ShowElem(e)
      ensures SolidDoubles(showDouble) ==> MemberLaid(e, v, index, level, showDouble) && Solid(document)
      decreases Nodes(v), 1
    {
      hide Spelling;
      hide SpellChild;
      hide ShowElem;
      hide Show;
      hide Blank;
      hide Valid;
      hide Quoted;
      hide PiecesOf;
      hide CutAtNul;
      hide Laid;
      hide SolidDoubles;
      hide Indentation;
      hide Find;
      LookUp(v, index);
      BlankLine(level);
      LineHere(document, level);
      hide IndentBlanks;
      hide Solid;
      hide Children;
      var name := v.entries[index].key.s;
      var quoted := ValueToQuotedString(name);
      ghost var blanks := WriteWithIndent(quoted);
      BehindColon(document);
      document := document + " : ";
      ghost var s := WriteValue(Find(v.entries, Name(name)), level);
      e := Member(blanks, name, "", s);
      EmptyContainers();
      SpellMember(v, index, blanks, "", s);
      MemberText(old(document), blanks, quoted, Show(s));
      if SolidDoubles(showDouble) {
        SolidText(s, Children(v)[index].value, level, showDouble);
        SolidConcat(old(document) + blanks + quoted + " : ", Show(s));
        KeyedByName(v, index);
      }
    }

    method WriteArrayValue(v: Value, ghost level: nat) returns (ghost s: Syntax)
      requires Valid(v) && v.Arr? && indentString == Indentation(level)
      requires if addChildValues then Size(v) == 0 else AtValue()
      modifies this
      ensures addChildValues == old(addChildValues) && indentString == old(indentString)
      ensures Spelling(s, v) && (SolidDoubles(showDouble) ==> Laid(s, v, level, showDouble))
      ensures Size(v) == 0 ==> s == FlatSyntax(v, showDouble)
      ensures if addChildValues then document == old(document) && childValues == old(childValues) + [Show(s)]
              else document == old(document) + Show(s)
      decreases Nodes(v), 3
    {
      hide Spelling;
      hide HasNested;
      hide LineLength;
      hide SpellChildren;
      hide SpellChild;
      hide Valid;
      hide Laid;
      hide Indentation;
      hide ShowElem;
      hide ShowElems;
      hide Show;
      hide Blank;
      EmptyContainers();
      SpellStart(v);
      if Size(v) == 0 {
        s := List([], "");
        SpellContainer(v, [], "");
        FlatLaid(s, v, level, showDouble);
        PushValue("[]");
        return;
      }
      var isArrayMultiLine;
      ghost var cached;
      isArrayMultiLine, cached := IsMultilineArray(v, level);
      if isArrayMultiLine {
        s := WriteManyLines(v, level, cached);
      } else {
        s := WriteOneLine(v, level, cached);
      }
    }

    /** The layout of an array on one line. */
    method WriteOneLine(v: Value, ghost level: nat, ghost cached: seq<Syntax>) returns (ghost s: Syntax)
      requires Valid(v) && v.Arr? && Size(v) > 0 && Decided(childValues, cached, v, false, showDouble)
      modifies this`document
      ensures document == old(document) + Show(s)
      ensures Spelling(s, v) && (SolidDoubles(showDouble) ==> Laid(s, v, level, showDouble))
    {
      hide Cached;
      hide Spelling;
      hide HasNested;
      hide LineLength;
      hide SpellChildren;
      hide Valid;
      hide Laid;
      hide OneLine;
      hide ShowElems;
      hide Show;
      hide Blank;
      hide FlatSyntax;
      ghost var es := WriteSingleLine(v, cached);
      hide Decided;
      BlankSpace();
      document := document + " ]";
      s := List(es, " ");
      SpellContainer(v, es, " ");
      ListText(es, " ");
      JoinClose(old(document), "[", ShowElems(es), " ", "]");
      OneLineLaid(childValues, cached, v, es, level, showDouble);
    }

    /** The layout of an array on many lines. */
    method WriteManyLines(v: Value, ghost level: nat, ghost cached: seq<Syntax>) returns (ghost s: Syntax)
      requires Valid(v) && v.Arr? && Size(v) > 0 && indentString == Indentation(level)
      requires !addChildValues && AtValue() && Decided(childValues, cached, v, true, showDouble)
      modifies this
      ensures !addChildValues && indentString == old(indentString) && document == old(document) + Show(s)
      ensures Spelling(s, v) && (SolidDoubles(showDouble) ==> Laid(s, v, level, showDouble))
      decreases Nodes(v), 2
    {
      hide Nodes;
      hide Cached;
      hide Spelling;
      hide HasNested;
      hide LineLength;
      hide SpellChildren;
      hide SpellChild;
      hide Valid;
      hide Laid;
      hide ElementLaid;
      hide OneLine;
      hide SolidDoubles;
      hide Indentation;
      hide Line;
      hide ShowElem;
      hide ShowElems;
      hide Show;
      hide Blank;
      hide ElementsLaid;
      hide FlatSyntax;
      hide Children;
      hide Size;
      SpellStart(v);
      ghost var shown := childValues;
      BlankLine(level);
      BlankLine(level + 1);
      DeeperLine(level);
      NothingHere(document, indentString, "[");
      hide IndentBlanks;
      hide Solid;
      var _ := WriteWithIndent("[");
      Indent();
      var hasChildValue := childValues != [];
      assert hasChildValue ==> CacheFull(v, cached);
      hide Decided;
      ghost var es := WriteElements(v, level + 1, hasChildValue, cached);
      Unindent();
      LineHere(document, level);
      ghost var close := WriteWithIndent("]");
      s := List(es, close);
      SpellContainer(v, es, close);
      ListText(es, close);
      JoinClose(old(document), "[", ShowElems(es), close, "]");
      if SolidDoubles(showDouble) {
        ManyLinesLaid(shown, cached, v, es, level, showDouble);
      }
    }

    /** The lines of a multi-line array, with commas between them. */
    method WriteElements(v: Value, ghost level: nat, hasChildValue: bool, ghost cached: seq<Syntax>)
      returns (ghost es: seq<Elem>)
      requires Valid(v) && v.Arr? && Size(v) > 0 && !addChildValues
      requires level > 0 && indentString == Indentation(level) && Solid(document)
      requires hasChildValue ==> CacheFull(v, cached)
      modifies this
      ensures !addChildValues && indentString == old(indentString) && document == old(document) + ShowElems(es)
      ensures SpellChildren(es, v, Size(v))
      ensures SolidDoubles(showDouble) ==> ElementsLaid(es, v, Size(v), level, false, showDouble) && Solid(document)
      ensures |es| == Size(v)
      ensures hasChildValue ==> Taken(es, cached, Size(v))
      decreases Nodes(v), 1
    {
      hide Children;
      hide Nodes;
      hide Find;
      hide Size;
      if hasChildValue {
        CachedSize(childValues, cached, v, Size(v), showDouble);
      }
      hide Cached;
      hide Spelling;
      hide SpellChildren;
      hide SpellChild;
      hide Valid;
      hide ElementLaid;
      hide SolidDoubles;
      hide Indentation;
      hide ShowElem;
      hide ShowElems;
      hide Show;
      hide FlatSyntax;
      assert ElementsLaid([], v, 0, level, false, showDouble) && Taken([], cached, 0);
      assert old(document) + ShowElems([]) == old(document);
      hide ElementsLaid;
      hide Solid;
      hide Taken;
      es := [];
      SpellStart(v);
      for index := 0 to Size(v)
        invariant !addChildValues && indentString == Indentation(level)
        invariant hasChildValue ==> childValues == old(childValues)
        invariant SpellChildren(es, v, index) && document == old(document) + ShowElems(es)
        invariant index == 0 || SolidDoubles(showDouble) ==> Solid(document)
        invariant SolidDoubles(showDouble) ==> ElementsLaid(es, v, index, level, false, showDouble)
        invariant |es| == index && (hasChildValue ==> Taken(es, cached, index))
      {
        if index > 0 {
          SolidComma(document);
          document := document + ",";
        }
        ghost var e := WriteElement(v, index, level, hasChildValue, cached);
        SpellSnoc(es, e, v, index);
        if SolidDoubles(showDouble) {
          ElementsSnoc(es, e, v, index, level, false, showDouble);
        }
        if hasChildValue {
          TakenSnoc(es, e, cached, index);
        }
        NextLine(old(document), es, e);
        es := es + [e];
      }
    }

    /** The opening bracket and the cached elements of an array on one line. */
    method WriteSingleLine(v: Value, ghost cached: seq<Syntax>) returns (ghost es: seq<Elem>)
      requires Valid(v) && v.Arr? && Size(v) > 0 && CacheFull(v, cached)
      modifies this`document
      ensures SpellChildren(es, v, Size(v)) && document == old(document) + "[" + ShowElems(es)
      ensures |es| == |cached| == Size(v)
      ensures forall i :: 0 <= i < Size(v) ==> es[i] == Elem(" ", None, "", cached[i], "")
    {
      hide Spelling;
      hide SpellChildren;
      hide SpellChild;
      hide Valid;
      hide ShowElem;
      hide ShowElems;
      hide Show;
      hide Blank;
      hide FlatSyntax;
      hide Children;
      hide Size;
      ghost var start := document;
      es := [];
      SpellStart(v);
      BlankSpace();
      document := document + "[ ";
      ghost var open := start + "[";
      OpenLine(start);
      assert document == LineText(open, es);
      hide LineText;
      CachedSize(childValues, cached, v, Size(v), showDouble);
      hide Cached;
      for index := 0 to Size(v)
        invariant SpellChildren(es, v, index)
        invariant |es| == index && forall i :: 0 <= i < index ==> es[i] == Elem(" ", None, "", cached[i], "")
        invariant document == LineText(open, es)
      {
        if index > 0 {
          document := document + ", ";
        }
        CachedAt(childValues, cached, v, Size(v), showDouble, index);
        document := document + childValues[index];
        ghost var e := Elem(" ", None, "", cached[index], "");
        LineStep(open, es, v, index, cached[index]);
        es := es + [e];
      }
      FullLine(open, es);
    }

    /** The cached strings are one per element, each the text of the element. */
    ghost predicate CacheFull(v: Value, cached: seq<Syntax>)
      reads this`childValues
    {
      Cached(childValues, cached, v, Size(v), showDouble)
    }

    /** One line of a multi-line array. */
    method WriteElement(v: Value, index: nat, ghost level: nat, hasChildValue: bool, ghost cached: seq<Syntax>)
      returns (ghost e: Elem)
      requires Valid(v) && v.Arr? && index < Size(v) && !addChildValues
      requires level > 0 && indentString == Indentation(level) && Solid(document)
      requires hasChildValue ==> CacheFull(v, cached) && |cached| == Size(v)
      modifies this
      ensures addChildValues == old(addChildValues) && indentString == old(indentString)
      ensures hasChildValue ==> childValues == old(childValues) && e.value == cached[index]
      ensures SpellChild(e, v, index) && document == old(document) + ShowElem(e)
      ensures SolidDoubles(showDouble) ==> ElementLaid(e, v, index, level, false, showDouble) && Solid(document)
      decreases Nodes(v), 0
    {
      hide Find;
      hide Children;
      hide Nodes;
      hide Cached;
      hide Spelling;
      hide SpellChild;
      hide Valid;
      hide ShowElem;
      hide Show;
      hide Blank;
      hide Laid;
      hide SolidDoubles;
      hide Indentation;
      hide FlatSyntax;
      LookUp(v, index);
      BlankLine(level);
      ghost var s;
      ghost var blanks;
      if hasChildValue {
        CachedAt(childValues, cached, v, Size(v), showDouble, index);
        blanks := WriteWithIndent(childValues[index]);
        s := cached[index];
        FlatLaid(s, Children(v)[index].value, level, showDouble);
      } else {
        blanks := WriteIndent();
        DeeperLine(level - 1);
        s := WriteValue(Find(v.entries, Index(index)), level);
      }
      e := Elem(blanks, None, "", s, "");
      SpellElement(v, index, blanks, s);
      JoinText(old(document), blanks, "", Show(s));
      if SolidDoubles(showDouble) {
        SolidText(s, Children(v)[index].value, level, showDouble);
        SolidConcat(old(document) + blanks, Show(s));
      }
    }

    /** Decides the layout.  The cache is filled completely or left empty, and it is full whenever the
        array goes on one line. */
    method IsMultilineArray(v: Value, ghost level: nat) returns (isMultiLine: bool, ghost cached: seq<Syntax>)
      requires Valid(v) && v.Arr? && Size(v) > 0 && indentString == Indentation(level) && !addChildValues
      modifies this
      ensures !addChildValues && indentString == old(indentString) && document == old(document)
      ensures Decided(childValues, cached, v, isMultiLine, showDouble)
      decreases Nodes(v), 1
    {
      hide Spelling;
      hide Valid;
      hide Show;
      hide Indentation;
      var size := Size(v);
      isMultiLine := size * 3 % UINT_RANGE >= RIGHT_MARGIN;
      childValues := [];
      cached := [];
      if !isMultiLine {
        isMultiLine := HasNestedElement(v);
      }
      if !isMultiLine {
        var lineLength;
        lineLength, cached := FillCache(v, level);
        isMultiLine := lineLength >= RIGHT_MARGIN;
      }
    }

    /** Some element is a container that is not empty. */
    method HasNestedElement(v: Value) returns (nested: bool)
      requires Valid(v) && v.Arr?
      ensures nested <==> HasNested(v)
    {
      hide Find;
      hide Nodes;
      hide Children;
      hide Valid;
      nested := false;
      for index := 0 to Size(v)
        invariant forall i :: 0 <= i < index ==> Size(Children(v)[i].value) == 0
      {
        LookUp(v, index);
        var childValue := Find(v.entries, Index(index));
        if (childValue.Arr? || childValue.Obj?) && Size(childValue) > 0 {
          return true;
        }
      }
    }

    /** Caches the text of every element and adds up the length of the line, in 32 bits. */
    method FillCache(v: Value, ghost level: nat) returns (lineLength: nat, ghost cached: seq<Syntax>)
      requires Valid(v) && v.Arr? && Size(v) > 0 && indentString == Indentation(level)
      requires !addChildValues && childValues == [] && !HasNested(v)
      modifies this
      ensures !addChildValues && indentString == old(indentString) && document == old(document)
      ensures CacheFull(v, cached) && lineLength == LineLength(Size(v), childValues)
      decreases Nodes(v), 0
    {
      hide Find;
      hide Nodes;
      hide Spelling;
      hide Valid;
      hide Show;
      hide Children;
      hide HasNested;
      hide LineLength;
      hide FlatSyntax;
      hide Indentation;
      NoLine(Size(v));
      assert Cached([], [], v, 0, showDouble);
      hide Cached;
      addChildValues := true;
      cached := [];
      lineLength := (4 + (Size(v) - 1) * 2) % UINT_RANGE;
      for index := 0 to Size(v)
        invariant addChildValues && indentString == old(indentString) && document == old(document)
        invariant |childValues| == index && lineLength == LineLength(Size(v), childValues)
        invariant Cached(childValues, cached, v, index, showDouble)
      {
        LookUp(v, index);
        NotNested(v, index);
        ghost var shown := childValues;
        ghost var s := WriteValue(Find(v.entries, Index(index)), level);
        CachedSnoc(shown, cached, v, index, showDouble, s);
        cached := cached + [s];
        LongerLine(Size(v), childValues);
        lineLength := (lineLength + |childValues[index]|) % UINT_RANGE;
      }
      addChildValues := false;
    }
  }

  lemma NextLine(start: string, es: seq<Elem>, e: Elem)
    ensures (if es != [] then start + ShowElems(es) + "," + ShowElem(e) else start + ShowElems(es) + ShowElem(e))
            == start + ShowElems(es + [e])
  {
    hide ShowElem;
    ShowSnoc(es, e);
    hide ShowElems;
    JoinText(start, ShowElems(es), if es != [] then "," else "", ShowElem(e));
    assert ShowElems(es) + "" == ShowElems(es);
  }

  lemma SolidComma(text: string)
    ensures Solid(text + ",")
  {
  }

  /** In front of a value writeIndent adds nothing. */
  lemma NothingHere(document: string, indentString: string, bracket: string)
    requires if document == "" then indentString == "" else document[|document| - 1] == ' '
    requires bracket == "[" || bracket == "{"
    ensures IndentBlanks(document, indentString) == ""
    ensures document + "" + bracket == document + bracket && Solid(document + bracket)
  {
  }

  /** Behind a solid end writeIndent starts a new line. */
  lemma LineHere(document: string, level: nat)
    ensures Solid(document) ==> IndentBlanks(document, Indentation(level)) == Line(level)
  {
  }

  lemma BlankSpace()
    ensures Blank(" ")
  {
  }

  lemma RecordText(es: seq<Elem>, close: string)
    ensures Show(Record(es, close)) == "{" + ShowElems(es) + close + "}"
  {
  }

  lemma ListText(es: seq<Elem>, close: string)
    ensures Show(List(es, close)) == "[" + ShowElems(es) + close + "]"
  {
  }

  // ---- A small object in this layout ----

  function PlainElem(lead: string, name: char, digit: char): Elem {
    Elem(lead, Some(Tag([Plain(name)], " ")), " ", Integer(false, [digit]), "")
  }

  lemma PlainText(lead: string, name: char, digit: char)
    ensures ShowElem(PlainElem(lead, name, digit)) == lead + "\"" + [name] + "\" : " + [digit]
  {
    var ps := [Plain(name)];
    assert ps[..0] == [] && ShowPieces(ps) == [name];
    assert "" + [digit] == [digit];
  }

  lemma PlainLaid(e: Elem, v: Value, i: nat, name: char, digit: char, showDouble: Double -> string)
    requires i < Size(v) && MemberLaid(e, v, i, 1, showDouble)
    requires '0' <= digit <= '9' && 'a' <= name <= 'z'
    requires Children(v)[i] == Pair(Name([name]), Int(digit as int - '0' as int))
    ensures e == PlainElem(Line(1), name, digit)
  {
    var s := [name];
    assert s[1..] == "" && CutAtNul(s) == s;
    assert PiecesOf(s) == [Plain(name)];
    assert DecimalText(digit as int - '0' as int) == [digit];
  }

  /** The object with a = 1 and b = 2, as StyledWriter prints it. */
  method StyledSample(showDouble: Double -> string) returns (text: string)
    requires SolidDoubles(showDouble)
    ensures text == "{\n   \"a\" : 1,\n   \"b\" : 2\n}\n"
  {
    var v := Obj([Pair(Name("a"), Int(1)), Pair(Name("b"), Int(2))]);
    SampleValid(v);
    var writer := new StyledWriter(showDouble);
    ghost var s;
    text, s := writer.Write(v);
    SampleText(s, v, showDouble);
  }

  lemma SampleValid(v: Value)
    requires v == Obj([Pair(Name("a"), Int(1)), Pair(Name("b"), Int(2))])
    ensures Valid(v) && Size(v) == 2 && Children(v) == v.entries
  {
    var m := v.entries;
    assert m[1..] == [m[1]] && m[1..][1..] == [];
    assert BytesLess("a", "b");
  }

  lemma SampleText(s: Syntax, v: Value, showDouble: Double -> string)
    requires v == Obj([Pair(Name("a"), Int(1)), Pair(Name("b"), Int(2))]) && Laid(s, v, 0, showDouble)
    ensures Show(s) + "\n" == "{\n   \"a\" : 1,\n   \"b\" : 2\n}\n"
  {
    hide Show;
    hide MemberLaid;
    SampleValid(v);
    assert v.entries[0].key == Name(['a']) && v.entries[1].key == Name(['b']);
    assert MemberLaid(s.elems[0], v, 0, 1, showDouble) && MemberLaid(s.elems[1], v, 1, 1, showDouble);
    PlainLaid(s.elems[0], v, 0, 'a', '1', showDouble);
    PlainLaid(s.elems[1], v, 1, 'b', '2', showDouble);
    SampleLines();
    assert s == Record([PlainElem("\n   ", 'a', '1'), PlainElem("\n   ", 'b', '2')], "\n");
    SampleShown();
  }

  lemma SampleShown()
    ensures Show(Record([PlainElem("\n   ", 'a', '1'), PlainElem("\n   ", 'b', '2')], "\n")) + "\n"
            == "{\n   \"a\" : 1,\n   \"b\" : 2\n}\n"
  {
    hide ShowElem;
    hide ShowElems;
    hide PlainElem;
    var a, b := PlainElem("\n   ", 'a', '1'), PlainElem("\n   ", 'b', '2');
    PlainText("\n   ", 'a', '1');
    PlainText("\n   ", 'b', '2');
    ShowSnoc([], a);
    ShowSnoc([a], b);
    NoElemText();
    assert [] + [a] == [a] && [a] + [b] == [a, b];
    RecordText([a, b], "\n");
  }

  lemma NoElemText()
    ensures ShowElems([]) == ""
  {
  }

  lemma SampleLines()
    ensures Line(1) == "\n   " && Line(0) == "\n"
  {
  }
}
