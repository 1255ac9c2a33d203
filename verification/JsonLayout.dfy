/** The layout of a styled document: where its lines break, how far they are indented, and which arrays stay
    on one line, as predicates on its concrete syntax. */
module JsonLayout {
  import opened Wrappers
  import opened JsonValue
  import opened JsonText

  /** Three blanks for every level. */
  function Indentation(level: nat): string {
    seq(3 * level, _ => ' ')
  }

  /** A line feed and the indentation of the new line. */
  function Line(level: nat): string {
    "\n" + Indentation(level)
  }

  /** How a value without entries is spelled. */
  function FlatSyntax(v: Value, showDouble: Double -> string): Syntax {
    if v.Arr? then List([], "") else if v.Obj? then Record([], "") else ScalarSyntax(v, showDouble)
  }

  /** The length of the elements' own texts. */
  function TextLength(es: seq<Elem>): nat {
    if es == [] then 0 else TextLength(es[..|es| - 1]) + |Show(es[|es| - 1].value)|
  }

  /** An array stays on one line if it has fewer than 25 elements, none of them with entries of its own, and
      the line is shorter than 74 characters; all this in 32 bits. */
  ghost predicate OneLine(v: Value, es: seq<Elem>) {
    && Size(v) * 3 % 0x1_0000_0000 < 74
    && (forall i :: 0 <= i < Size(v) ==> Size(Children(v)[i].value) == 0)
    && (2 + 2 * |es| + TextLength(es)) % 0x1_0000_0000 < 74
  }

  /** The syntax s is v laid out at this level.  The members of an object, and the elements of an array on
      many lines, are one level further in, each on its own line, and the closing bracket is back on its
      own; an array on one line has one blank at each bracket and behind each comma. */
  ghost predicate Laid(s: Syntax, v: Value, level: nat, showDouble: Double -> string)
    decreases Nodes(v), 1
  {
    if Size(v) == 0 then s == FlatSyntax(v, showDouble)
    else if v.Obj? then
      && s.Record? && |s.elems| == Size(v) && s.close == Line(level)
      && forall i :: 0 <= i < Size(v) ==> MemberLaid(s.elems[i], v, i, level + 1, showDouble)
    else
      && s.List? && |s.elems| == Size(v) && s.close == (if OneLine(v, s.elems) then " " else Line(level))
      && forall i :: 0 <= i < Size(v) ==>
           ElementLaid(s.elems[i], v, i, level + 1, OneLine(v, s.elems), showDouble)
  }

  /** A member on its own line: its name up to the first NUL, " : " and its value. */
  ghost predicate MemberLaid(e: Elem, v: Value, i: nat, level: nat, showDouble: Double -> string)
    requires i < Size(v)
    decreases Nodes(v), 0
  {
    var child := Children(v)[i];
    && child.key.Name? && e.tag == Some(Tag(PiecesOf(CutAtNul(child.key.s)), " "))
    && e.lead == Line(level) && e.before == " " && e.after == "" && Laid(e.value, child.value, level, showDouble)
  }

  ghost predicate ElementLaid(e: Elem, v: Value, i: nat, level: nat, oneLine: bool, showDouble: Double -> string)
    requires i < Size(v)
    decreases Nodes(v), 0
  {
    && e.tag == None && e.lead == (if oneLine then " " else Line(level)) && e.before == "" && e.after == ""
    && Laid(e.value, Children(v)[i].value, level, showDouble)
  }

  // ---- One layout for every value ----

  lemma {:induction false} LaidUnique(s: Syntax, t: Syntax, v: Value, level: nat, showDouble: Double -> string)
    requires Laid(s, v, level, showDouble) && Laid(t, v, level, showDouble)
    ensures s == t
    decreases Nodes(v)
  {
    hide OneLine;
    hide FlatSyntax;
    hide Line;
    hide PiecesOf;
    hide CutAtNul;
    hide Children;
    hide Size;
    if Size(v) > 0 {
      forall i | 0 <= i < Size(v) ensures s.elems[i].value == t.elems[i].value {
        ChildLaid(s, v, i, level, showDouble);
        ChildLaid(t, v, i, level, showDouble);
        LaidUnique(s.elems[i].value, t.elems[i].value, Children(v)[i].value, level + 1, showDouble);
      }
      if !v.Obj? {
        SameLine(v, s.elems, t.elems);
      }
      forall i | 0 <= i < Size(v) ensures s.elems[i] == t.elems[i] {
        if v.Obj? {
          assert MemberLaid(s.elems[i], v, i, level + 1, showDouble);
        } else {
          assert ElementLaid(s.elems[i], v, i, level + 1, OneLine(v, s.elems), showDouble);
        }
      }
      assert s.elems == t.elems;
    }
  }

  lemma ChildLaid(s: Syntax, v: Value, i: nat, level: nat, showDouble: Double -> string)
    requires Laid(s, v, level, showDouble) && i < Size(v)
    ensures (s.List? || s.Record?) && |s.elems| == Size(v)
    ensures Laid(s.elems[i].value, Children(v)[i].value, level + 1, showDouble)
  {
    hide OneLine;
    hide Line;
    hide PiecesOf;
    hide CutAtNul;
    hide Children;
    hide Size;
    if v.Obj? {
      assert MemberLaid(s.elems[i], v, i, level + 1, showDouble);
    } else {
      assert ElementLaid(s.elems[i], v, i, level + 1, OneLine(v, s.elems), showDouble);
    }
  }

  lemma SameLine(v: Value, es: seq<Elem>, fs: seq<Elem>)
    requires |es| == |fs| && forall i :: 0 <= i < |es| ==> es[i].value == fs[i].value
    ensures OneLine(v, es) <==> OneLine(v, fs)
  {
    SameLength(es, fs);
  }

  lemma {:induction false} SameLength(es: seq<Elem>, fs: seq<Elem>)
    requires |es| == |fs| && forall i :: 0 <= i < |es| ==> es[i].value == fs[i].value
    ensures TextLength(es) == TextLength(fs)
  {
    if es != [] {
      SameLength(es[..|es| - 1], fs[..|fs| - 1]);
    }
  }

  // ---- What writeIndent needs to know ----

  /** The text ends in a character behind which writeIndent starts a new line. */
  predicate Solid(text: string) {
    text != "" && text[|text| - 1] != ' ' && text[|text| - 1] != '\n'
  }

  /** A double is never printed as nothing, nor with a blank at its end. */
  ghost predicate SolidDoubles(showDouble: Double -> string) {
    forall d :: Solid(showDouble(d))
  }

  lemma SolidConcat(a: string, b: string)
    requires Solid(b)
    ensures Solid(a + b)
  {
  }

  lemma SolidScalar(v: Value, showDouble: Double -> string)
    requires SolidDoubles(showDouble) && !v.Arr? && !v.Obj?
    ensures Solid(Show(ScalarSyntax(v, showDouble)))
  {
    match v
    case Int(i) => SolidInteger(i);
    case UInt(u) => SolidInteger(u);
    case Str(s) => SolidConcat("\"" + ShowPieces(PiecesOf(s)), "\"");
    case _ =>
  }

  lemma SolidInteger(n: int)
    ensures Solid(IntegerText(n))
  {
    var digits := DecimalText(if n < 0 then -n else n);
    SolidConcat(if n < 0 then "-" else "", digits);
  }

  lemma SolidText(s: Syntax, v: Value, level: nat, showDouble: Double -> string)
    requires Laid(s, v, level, showDouble) && SolidDoubles(showDouble)
    ensures Solid(Show(s))
  {
    hide ShowElems;
    if s.List? {
      SolidConcat("[" + ShowElems(s.elems) + s.close, "]");
    } else if s.Record? {
      SolidConcat("{" + ShowElems(s.elems) + s.close, "}");
    } else {
      SolidScalar(v, showDouble);
    }
  }
}
