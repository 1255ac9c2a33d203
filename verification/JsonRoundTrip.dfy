/** Reader and writers undo each other. */
module JsonRoundTrip {
  import opened Wrappers
  import opened JsonValue
  import opened JsonText
  import opened JsonString
  import opened JsonScan
  import opened JsonToken
  import opened JsonTree
  import opened JsonReader
  import opened JsonWriter

  // ---- The normal form is valid ----

  /** An assignment brings in no pair but its own. */
  lemma {:induction false} PutAllFrom(ps: seq<Pair>, p: Pair)
    requires p in PutAll(ps)
    ensures p in ps
  {
    if ps != [] {
      var init, last := ps[..|ps| - 1], ps[|ps| - 1];
      PutFrom(PutAll(init), last.key, last.value, p);
      if p in PutAll(init) {
        PutAllFrom(init, p);
      } else {
        assert p == last;
      }
    }
  }

  lemma PutFrom(m: seq<Pair>, k: Key, v: Value, p: Pair)
    requires p in Put(m, k, v)
    ensures p == Pair(k, v) || p in m
  {
  }

  lemma {:induction false} NormPairsFrom(v: Value, k: nat, cut: bool, p: Pair) returns (i: nat)
    requires k <= Size(v) && p in NormPairs(v, k, cut)
    ensures i < k && p == Pair(CutKey(Children(v)[i].key, cut), Norm(Children(v)[i].value, cut))
    decreases k
  {
    var q := Children(v)[k - 1];
    if p in NormPairs(v, k - 1, cut) {
      i := NormPairsFrom(v, k - 1, cut, p);
    } else {
      assert p == Pair(CutKey(q.key, cut), Norm(q.value, cut));
      i := k - 1;
    }
  }

  /** An entry of a container's normal form is the normal form of a child. */
  lemma NormEntryFrom(v: Value, cut: bool, j: nat) returns (i: nat)
    requires v.Arr? || v.Obj?
    requires j < |Norm(v, cut).entries|
    ensures i < Size(v)
    ensures Norm(v, cut).entries[j] == Pair(CutKey(Children(v)[i].key, cut), Norm(Children(v)[i].value, cut))
  {
    var ps := NormPairs(v, Size(v), cut);
    assert Norm(v, cut).entries == PutAll(ps);
    PutAllFrom(ps, PutAll(ps)[j]);
    i := NormPairsFrom(v, Size(v), cut, PutAll(ps)[j]);
  }

  lemma {:induction false} NormValid(v: Value, cut: bool)
    requires Valid(v)
    ensures Valid(Norm(v, cut))
    decreases Nodes(v)
  {
    if v.Arr? || v.Obj? {
      var m := Norm(v, cut).entries;
      PutAllAscending(NormPairs(v, Size(v), cut));
      PutAllSize(NormPairs(v, Size(v), cut));
      forall j | 0 <= j < |m| ensures Valid(m[j].value) && KeyFits(m[j].key, v.Obj?) {
        var i := NormEntryFrom(v, cut, j);
        ChildrenValid(v);
        NormValid(Children(v)[i].value, cut);
        CutKeyFits(Children(v)[i].key, cut);
      }
      ValidMapAll(m);
    }
  }

  lemma {:induction false} PutAllSize(ps: seq<Pair>)
    ensures |PutAll(ps)| <= |ps|
  {
    if ps != [] {
      PutAllSize(ps[..|ps| - 1]);
    }
  }

  lemma CutKeyFits(k: Key, cut: bool)
    ensures KeyFits(k, k.Name?) ==> KeyFits(CutKey(k, cut), k.Name?)
  {
    if k.Name? {
      CutShorter(k.s);
    }
  }

  // ---- Names with a NUL ----

  predicate NulFreeKey(k: Key) {
    k.Name? ==> '\0' !in k.s
  }

  /** No member name contains a NUL, however deep. */
  predicate NulFree(v: Value)
    decreases Nodes(v)
  {
    forall i :: 0 <= i < Size(v) ==> NulFreeKey(Children(v)[i].key) && NulFree(Children(v)[i].value)
  }

  lemma {:induction false} CutIsNulFree(s: string)
    ensures '\0' !in CutAtNul(s)
  {
    if s != [] {
      CutIsNulFree(s[1..]);
    }
  }

  /** What StyledWriter's output denotes never has a NUL in a name. */
  lemma {:induction false} CutNormNulFree(v: Value)
    ensures NulFree(Norm(v, true))
    decreases Nodes(v)
  {
    if v.Arr? || v.Obj? {
      var w := Norm(v, true);
      forall j | 0 <= j < |w.entries| ensures NulFreeKey(w.entries[j].key) && NulFree(w.entries[j].value) {
        var i := NormEntryFrom(v, true, j);
        var child := Children(v)[i];
        CutNormNulFree(child.value);
        if child.key.Name? {
          CutIsNulFree(child.key.s);
        }
      }
      assert NulFree(Null);
    }
  }

  lemma NulFreeStep(v: Value)
    ensures NulFree(v) <==>
              forall i :: 0 <= i < Size(v) ==> NulFreeKey(Children(v)[i].key) && NulFree(Children(v)[i].value)
  {
  }

  lemma {:induction false} NormKeepsNames(v: Value)
    requires Valid(v)
    ensures NulFree(Norm(v, false)) <==> NulFree(v)
    decreases Nodes(v)
  {
    if v.Arr? || v.Obj? {
      hide Norm;
      hide NulFree;
      hide Valid;
      hide Children;
      hide Size;
      NormShape(v);
      ChildrenValid(v);
      NulFreeStep(v);
      NulFreeStep(Norm(v, false));
      forall i | 0 <= i < Size(v)
        ensures NulFree(Norm(Children(v)[i].value, false)) <==> NulFree(Children(v)[i].value)
      {
        NormKeepsNames(Children(v)[i].value);
      }
    }
  }

  lemma {:induction false} NulFreeNorm(v: Value)
    requires NulFree(v)
    ensures Norm(v, true) == Norm(v, false)
    decreases Nodes(v), 1
  {
    if v.Arr? || v.Obj? {
      NulFreePairs(v, Size(v));
    }
  }

  lemma {:induction false} NulFreePairs(v: Value, k: nat)
    requires NulFree(v) && k <= Size(v)
    ensures NormPairs(v, k, true) == NormPairs(v, k, false)
    decreases Nodes(v), 0, k
  {
    if k > 0 {
      NulFreePairs(v, k - 1);
      var p := Children(v)[k - 1];
      NulFreeNorm(p.value);
      if p.key.Name? {
        CutWithoutNul(p.key.s);
      }
    }
  }

  /** StyledWriter's output denotes the same value as FastWriter's exactly when no member name contains
      a NUL. */
  lemma StyledExact(v: Value)
    requires Valid(v)
    ensures Norm(v, true) == Norm(v, false) <==> NulFree(v)
  {
    CutNormNulFree(v);
    NormKeepsNames(v);
    if NulFree(v) {
      NulFreeNorm(v);
    }
  }

  // ---- What a round trip should keep ----

  /** w is what v comes back as: integers keep their number, an array its size and what is at every index,
      with null where there was nothing, and an object its names and what is under them. */
  predicate Same(v: Value, w: Value)
    decreases Nodes(v)
  {
    match v
    case Int(i) => w == Number(i)
    case UInt(u) => w == Number(u)
    case Arr(m) =>
      FindNodes(m);
      && w.Arr? && FullSize(w) == FullSize(v)
      && forall i :: 0 <= i < FullSize(v) ==> Same(Find(m, Index(i)), Find(w.entries, Index(i)))
    case Obj(m) =>
      EntryNodes(m);
      && w.Obj? && |w.entries| == |m|
      && forall i :: 0 <= i < |m| ==> w.entries[i].key == m[i].key && Same(m[i].value, w.entries[i].value)
    case _ => w == v
  }

  /** Every array at every depth has the size that it says it has. */
  predicate NoWrap(v: Value)
    decreases Nodes(v)
  {
    Size(v) == FullSize(v) && forall i :: 0 <= i < Size(v) ==> NoWrap(Children(v)[i].value)
  }

  /** Indices stay below what an int counts, in every array at every depth. */
  predicate Countable(v: Value)
    decreases Nodes(v), 1
  {
    (v.Arr? || v.Obj?) ==> CountableMap(v.entries)
  }

  predicate CountableMap(m: seq<Pair>)
    decreases MapNodes(m), 0
  {
    m == [] || ((m[0].key.Index? ==> m[0].key.i < MAX_INT) && Countable(m[0].value) && CountableMap(m[1..]))
  }

  lemma {:induction false} CountableAll(m: seq<Pair>)
    ensures CountableMap(m) <==>
              forall i :: 0 <= i < |m| ==> (m[i].key.Index? ==> m[i].key.i < MAX_INT) && Countable(m[i].value)
  {
    if m != [] {
      CountableAll(m[1..]);
      assert forall i :: 0 < i < |m| ==> m[i] == m[1..][i - 1];
    }
  }

  /** For values without such an index neither the writers' sizes nor the reader's counter overflow, and
      for all others one of them does. */
  lemma {:induction false} CountableExact(v: Value)
    requires Valid(v)
    ensures Countable(v) <==> NoWrap(v) && Counted(v)
    decreases Nodes(v)
  {
    if v.Arr? || v.Obj? {
      ChildrenValid(v);
      CountableAll(v.entries);
      if v.Arr? {
        CountableSize(v);
      }
      hide Valid;
      hide Children;
      forall i | 0 <= i < Size(v)
        ensures Countable(Children(v)[i].value) <==> NoWrap(Children(v)[i].value) && Counted(Children(v)[i].value)
      {
        CountableExact(Children(v)[i].value);
      }
      if FullSize(v) == Size(v) {
        CountableChildren(v);
      }
    }
  }

  lemma CountableSize(v: Value)
    requires Valid(v) && v.Arr?
    ensures FullSize(v) <= MAX_INT <==> forall i :: 0 <= i < |v.entries| ==> v.entries[i].key.i < MAX_INT
  {
    var m := v.entries;
    if m != [] {
      assert KeyFits(m[|m| - 1].key, false);
      forall i | 0 <= i < |m| ensures m[i].key.i <= m[|m| - 1].key.i {
        assert KeyFits(m[i].key, false);
      }
    }
  }

  lemma CountableChildren(v: Value)
    requires Valid(v) && (v.Arr? || v.Obj?) && FullSize(v) == Size(v)
    ensures (forall i :: 0 <= i < Size(v) ==> Countable(Children(v)[i].value)) <==>
            (forall i :: 0 <= i < |v.entries| ==> Countable(v.entries[i].value))
  {
    var m := v.entries;
    if v.Arr? {
      assert Countable(Null);
      if forall j :: 0 <= j < |m| ==> Countable(m[j].value) {
        forall i | 0 <= i < Size(v) ensures Countable(Children(v)[i].value) {
          FindFrom(m, Index(i));
        }
      }
      if forall i :: 0 <= i < Size(v) ==> Countable(Children(v)[i].value) {
        forall j | 0 <= j < |m| ensures Countable(m[j].value) {
          EntryChild(v, j);
        }
      }
    } else {
      assert Children(v) == m;
    }
  }

  lemma FindFrom(m: seq<Pair>, k: Key)
    ensures Find(m, k) == Null || exists j :: 0 <= j < |m| && Find(m, k) == m[j].value
  {
  }

  lemma EntryChild(v: Value, j: nat)
    requires Valid(v) && v.Arr? && FullSize(v) == Size(v) && j < |v.entries|
    ensures exists i :: 0 <= i < Size(v) && Children(v)[i].value == v.entries[j].value
  {
    var m := v.entries;
    FindAt(m, j);
    assert KeyFits(m[j].key, false) && KeyFits(m[|m| - 1].key, false);
    assert Children(v)[m[j].key.i].value == m[j].value;
  }

  /** The normal form is the same value if and only if no size wraps. */
  lemma {:induction false} NormSame(v: Value)
    requires Valid(v)
    ensures Same(v, Norm(v, false)) <==> NoWrap(v)
    decreases Nodes(v)
  {
    if v.Arr? || v.Obj? {
      hide Norm;
      hide NoWrap;
      hide Children;
      hide Size;
      var w := Norm(v, false);
      NormShape(v);
      NormKind(v);
      NoWrapStep(v);
      if FullSize(v) == Size(v) {
        SameByChildren(v, w);
        ChildrenValid(v);
        forall i | 0 <= i < Size(v)
          ensures Same(Children(v)[i].value, Children(w)[i].value) <==> NoWrap(Children(v)[i].value)
        {
          NormSame(Children(v)[i].value);
        }
      }
    }
  }

  lemma NormKind(v: Value)
    ensures v.Arr? <==> Norm(v, false).Arr?
    ensures v.Obj? <==> Norm(v, false).Obj?
  {
  }

  lemma NoWrapStep(v: Value)
    ensures NoWrap(v) <==> Size(v) == FullSize(v) && forall i :: 0 <= i < Size(v) ==> NoWrap(Children(v)[i].value)
  {
  }

  lemma SameByChildren(v: Value, w: Value)
    requires v.Arr? || v.Obj?
    requires (v.Arr? <==> w.Arr?) && (v.Obj? <==> w.Obj?) && FullSize(v) == Size(v) == Size(w) == FullSize(w)
    ensures Same(v, w) <==>
              forall i :: 0 <= i < Size(v) ==>
                Children(w)[i].key == Children(v)[i].key && Same(Children(v)[i].value, Children(w)[i].value)
  {
    hide Nodes;
    hide Find;
    if v.Arr? {
      forall i | 0 <= i < Size(v)
        ensures Same(Find(v.entries, Index(i)), Find(w.entries, Index(i))) <==>
                  Children(w)[i].key == Children(v)[i].key && Same(Children(v)[i].value, Children(w)[i].value)
      {
        assert Children(v)[i] == Pair(Index(i), Find(v.entries, Index(i)));
        assert Children(w)[i] == Pair(Index(i), Find(w.entries, Index(i)));
      }
    } else {
      assert Children(v) == v.entries && Children(w) == w.entries;
    }
  }

  lemma {:induction false} SameKeepsNames(v: Value, w: Value)
    requires Valid(v) && Same(v, w) && NulFree(w)
    ensures NulFree(v)
    decreases Nodes(v)
  {
    if v.Arr? || v.Obj? {
      ChildrenValid(v);
      forall i | 0 <= i < Size(v) ensures NulFreeKey(Children(v)[i].key) && NulFree(Children(v)[i].value) {
        SameChild(v, w, i);
        SameKeepsNames(Children(v)[i].value, Children(w)[i].value);
      }
    }
  }

  lemma SameChild(v: Value, w: Value, i: nat)
    requires Same(v, w) && i < Size(v)
    ensures i < Size(w) && Children(w)[i].key == Children(v)[i].key && Same(Children(v)[i].value, Children(w)[i].value)
  {
    hide Nodes;
    hide Find;
  }

  /** With names cut at their first NUL, the normal form is the same value if and only if besides there is
      no NUL in a name. */
  lemma CutNormSame(v: Value)
    requires Valid(v)
    ensures Same(v, Norm(v, true)) <==> NoWrap(v) && NulFree(v)
  {
    NormSame(v);
    if NulFree(v) {
      NulFreeNorm(v);
    } else if Same(v, Norm(v, true)) {
      CutNormNulFree(v);
      SameKeepsNames(v, Norm(v, true));
    }
  }

  // ---- Round trips ----

  lemma WrittenText(lead: string, s: Syntax)
    requires Blank(lead) && ValidSyntax(s)
    ensures TextAt(lead + Show(s) + "\n", 0, lead, s)
  {
    var doc := lead + Show(s) + "\n";
    StartsConcat(doc, 0, lead, Show(s));
  }

  /** Reads a text that is known to begin with s.  By Explained, it is read if and only if it is readable:
      neither too deep, nor with an array that is too long, nor with a comma behind a last member whose name
      is not empty; and what is read is its meaning.  So the readable texts of the grammar are among the
      reader's language, with the same meaning. */
  method ParseText(text: string, past: char, toDouble: string -> Option<Double>, ghost lead: string, ghost s: Syntax)
    returns (r: Outcome, root: Value)
    requires TextAt(text, 0, lead, s)
    ensures Explained(r, s, 0)
    ensures r == Done(true) <==> Readable(s, 0)
    ensures r == Done(true) ==> root == Meaning(s)
    ensures Readable(s, 0) ==>
              exists t :: Reads(Input(text, past, toDouble), Uncommented(text, 0), t) && TreeValue(t) == Meaning(s)
  {
    var reader := new Reader(text, past, toDouble);
    ghost var tree;
    r, root, tree := reader.Parse(Exactly(lead, s));
  }

  /** What the writers print is accepted, so that depth and counts alone decide whether it is read. */
  lemma WrittenReadable(s: Syntax, v: Value)
    requires ValidSyntax(s) && Strict(s) && Depth(s) == ValueDepth(v) && (Narrow(s) <==> Counted(v))
    ensures Readable(s, 0) <==> ValueDepth(v) <= STACK_LIMIT && Counted(v)
    ensures Accepted(s)
  {
    StrictAccepted(s);
  }

  /** Write with FastWriter, read, and write again: the same value comes back, and the same text, if and
      only if the value nests at most STACK_LIMIT deep and its indices stay below what an int counts.
      Otherwise the reader stops at its limit or its counter, or a size has wrapped. */
  method FastRoundTrip(v: Value, past: char, toDouble: string -> Option<Double>, showDouble: Double -> string)
    returns (text: string, r: Outcome, back: Value, again: string)
    requires Valid(v) && RealFree(v)
    ensures r == Done(true) && Same(v, back) <==> ValueDepth(v) <= STACK_LIMIT && Countable(v)
    ensures r == Done(true) ==> back == Norm(v, false) && again == text
    ensures r == StackLimit ==> ValueDepth(v) > STACK_LIMIT
    ensures r == TooLarge ==> !Countable(v)
    ensures r != Done(false)
  {
    hide Show;
    hide FastSyntax;
    hide Norm;
    hide TextAt;
    var writer := new FastWriter(showDouble);
    text := writer.Write(v);
    ghost var s := FastSyntax(v, showDouble);
    FastMeaning(v, showDouble);
    assert "" + Show(s) == Show(s);
    WrittenText("", s);
    WrittenReadable(s, v);
    r, back := ParseText(text, past, toDouble, "", s);
    CountableExact(v);
    NormSame(v);
    again := "";
    if r == Done(true) {
      NormValid(v, false);
      FastSyntaxNorm(v, showDouble);
      again := writer.Write(back);
    }
  }

  /** Write with StyledWriter and read: the same value comes back, whatever layout was chosen, if and only
      if besides no member name contains a NUL. */
  method StyledRoundTrip(v: Value, past: char, toDouble: string -> Option<Double>, showDouble: Double -> string)
    returns (text: string, r: Outcome, back: Value)
    requires Valid(v) && RealFree(v)
    ensures r == Done(true) && Same(v, back) <==> ValueDepth(v) <= STACK_LIMIT && Countable(v) && NulFree(v)
    ensures r == Done(true) ==> back == Norm(v, true) && (back == Norm(v, false) <==> NulFree(v))
    ensures r == StackLimit ==> ValueDepth(v) > STACK_LIMIT
    ensures r == TooLarge ==> !Countable(v)
    ensures r != Done(false)
  {
    hide Show;
    hide Norm;
    hide NulFree;
    hide TextAt;
    var writer := new StyledWriter(showDouble);
    ghost var s;
    text, s := writer.Write(v);
    assert "" + Show(s) == Show(s);
    WrittenText("", s);
    WrittenReadable(s, v);
    r, back := ParseText(text, past, toDouble, "", s);
    CountableExact(v);
    CutNormSame(v);
    StyledExact(v);
  }

  // ---- Inputs on which the round trips fail ----

  /** An array with an entry at the highest index there is says that its size is 0, and is written as an
      empty one. */
  lemma SizeWraps(showDouble: Double -> string)
    ensures var v := Arr([Pair(Index(UINT_RANGE - 1), Int(1))]);
            && Valid(v) && RealFree(v) && FullSize(v) == UINT_RANGE && Size(v) == 0
            && Show(FastSyntax(v, showDouble)) == "[]" && Norm(v, false) == Arr([]) && !Same(v, Arr([]))
            && !Countable(v)
  {
    var v := Arr([Pair(Index(UINT_RANGE - 1), Int(1))]);
    assert v.entries[1..] == [];
    assert Size(v) == 0;
    assert ShowElems([]) == "";
  }

  /** A name with a NUL comes back without what follows the NUL. */
  lemma NameCut()
    ensures var v := Obj([Pair(Name("a\0b"), Null)]);
            && Valid(v) && RealFree(v) && Countable(v) && ValueDepth(v) == 2
            && Norm(v, true) == Obj([Pair(Name("a"), Null)]) && !Same(v, Norm(v, true))
  {
    var name := "a\0b";
    hide Norm;
    hide Valid;
    hide RealFree;
    hide Countable;
    hide ValueDepth;
    OneMember(name);
    OneMemberDepth(name);
    assert name[1..][0] == '\0';
    assert CutAtNul(name) == "a" && |name| == 3;
    assert Obj([Pair(Name(name), Null)]).entries[0].key.s != "a";
  }

  lemma OneMember(name: string)
    requires |name| < NAME_RANGE
    ensures var v := Obj([Pair(Name(name), Null)]);
            Valid(v) && RealFree(v) && Countable(v) && Norm(v, true) == Obj([Pair(Name(CutAtNul(name)), Null)])
  {
    hide Norm;
    hide CutAtNul;
    hide Valid;
    hide RealFree;
    hide Countable;
    OneMemberValid(name);
    OneMemberFree(name);
    OneMemberNorm(name);
  }

  lemma OneMemberValid(name: string)
    requires |name| < NAME_RANGE
    ensures var v := Obj([Pair(Name(name), Null)]); Valid(v) && Countable(v)
  {
    hide KeyLess;
    hide Norm;
    hide CutAtNul;
    var m := [Pair(Name(name), Null)];
    assert m[1..] == [];
    assert Ascending(m) && KeysFit(m, true) && ValidMap(m) && CountableMap(m);
  }

  lemma OneMemberFree(name: string)
    ensures RealFree(Obj([Pair(Name(name), Null)]))
  {
    var v := Obj([Pair(Name(name), Null)]);
    assert Children(v)[0] == v.entries[0];
  }

  lemma OneMemberNorm(name: string)
    ensures Norm(Obj([Pair(Name(name), Null)]), true) == Obj([Pair(Name(CutAtNul(name)), Null)])
  {
    hide CutAtNul;
    var v := Obj([Pair(Name(name), Null)]);
    var ps := [Pair(Name(CutAtNul(name)), Null)];
    assert Children(v)[0] == v.entries[0];
    assert NormPairs(v, 0, true) == [];
    assert NormPairs(v, 1, true) == ps;
    PutAllAscending(ps);
    hide PutAll;
    hide NormPairs;
  }

  lemma OneMemberDepth(name: string)
    ensures ValueDepth(Obj([Pair(Name(name), Null)])) == 2
  {
    var v := Obj([Pair(Name(name), Null)]);
    assert Children(v)[0] == v.entries[0];
    assert ChildrenDepth(v, 0) == 0 && ValueDepth(Null) == 1;
  }

  // ---- A comma behind the last member ----

  /** Members that can be read, then a comma, blanks and the closing brace: the text is read, with the
      meaning that it has without the comma, if and only if the name of the last member is empty. */
  method ReadTrailingComma(text: string, past: char, toDouble: string -> Option<Double>, ghost lead: string,
      ghost es: seq<Elem>, ghost blanks: string)
    returns (r: Outcome, root: Value)
    requires ValidElems(es, true) && es != [] && Blank(lead) && Blank(blanks)
    requires AcceptedElems(es, true) && NarrowElems(es) && DepthElems(es) < STACK_LIMIT
    requires StartsWith(text, 0, lead + ("{" + ShowElems(es) + ("," + blanks) + "}"))
    ensures ValidElem(es[|es| - 1], true)
    ensures r == Done(NameOf(es[|es| - 1]) == "")
    ensures r == Done(true) ==> root == Meaning(Record(es, ""))
  {
    ghost var s := Record(es, "," + blanks);
    assert ("," + blanks)[1..] == blanks;
    StartsConcat(text, 0, lead, Show(s));
    r, root := ParseText(text, past, toDouble, lead, s);
  }

  function OneElem(name: seq<Piece>): Elem {
    Elem("", Some(Tag(name, "")), "", Integer(false, "1"), "")
  }

  lemma OneElemMeaning(name: seq<Piece>)
    requires ValidPieces(name) && |PiecesText(name)| < NAME_RANGE
    ensures var e, es := OneElem(name), [OneElem(name)];
            && ValidElem(e, true) && NameOf(e) == PiecesText(name)
            && ValidElems(es, true) && AcceptedElems(es, true) && NarrowElems(es) && DepthElems(es) == 1
            && Meaning(Record(es, "")) == Obj([Pair(Name(PiecesText(name)), Int(1))])
  {
    hide PiecesText;
    hide ValidPieces;
    var e := OneElem(name);
    assert "1"[..0] == "" && Decimal("1") == 1;
    assert ValidSyntax(e.value) && Meaning(e.value) == Int(1);
    ElemsSnoc([], e, true);
    StrictSnoc([], e, true);
    AcceptedSnoc([], e, true);
    assert [] + [e] == [e];
    PutAllAscending([ElemPair(e, 0, true)]);
  }

  lemma OneElemText(name: seq<Piece>)
    ensures "" + ("{" + ShowElems([OneElem(name)]) + ("," + "") + "}") == "{\"" + ShowPieces(name) + "\":1,}"
  {
    hide ShowElem;
    hide ShowPieces;
    var e := OneElem(name);
    OneElemShown(name);
    ShowSnoc([], e);
    assert [] + [e] == [e];
  }

  lemma OneElemShown(name: seq<Piece>)
    ensures ShowElem(OneElem(name)) == "\"" + ShowPieces(name) + "\":1"
  {
    hide ShowPieces;
  }

  lemma SampleNames()
    ensures var none: seq<Piece> := []; ValidPieces(none) && ShowPieces(none) == "" && PiecesText(none) == ""
    ensures var a := [Plain('a')];
            ValidPieces(a) && ShowPieces(a) == "a" && PiecesText(a) == "a" && |PiecesText(a)| == 1
  {
    var a := [Plain('a')];
    assert a[..0] == [];
  }

  /** Two objects that end in a comma: the one whose name is empty is read, the other one is an error. */
  method TrailingCommas(past: char, toDouble: string -> Option<Double>)
    returns (empty: Outcome, root: Value, named: Outcome)
    ensures empty == Done(true) && root == Obj([Pair(Name(""), Int(1))])
    ensures named == Done(false)
  {
    hide ShowElems;
    hide PiecesText;
    hide ShowPieces;
    hide ValidElems;
    hide AcceptedElems;
    hide NarrowElems;
    hide DepthElems;
    hide Meaning;
    ghost var none: seq<Piece>, a := [], [Plain('a')];
    SampleNames();
    OneElemMeaning(none);
    OneElemText(none);
    empty, root := ReadTrailingComma("{\"" + "" + "\":1,}", past, toDouble, "", [OneElem(none)], "");
    OneElemMeaning(a);
    OneElemText(a);
    var other;
    named, other := ReadTrailingComma("{\"" + "a" + "\":1,}", past, toDouble, "", [OneElem(a)], "");
  }

  // ---- Nesting ----

  function Repeat(c: char, n: nat): (s: string)
    ensures |s| == n && forall i :: 0 <= i < n ==> s[i] == c
  {
    seq(n, _ => c)
  }

  /** n arrays, each the only element of the one around it. */
  function Nest(n: nat): Syntax
    requires n > 0
  {
    if n == 1 then List([], "") else List([Elem("", None, "", Nest(n - 1), "")], "")
  }

  function Nested(n: nat): Value
    requires n > 0
  {
    if n == 1 then Arr([]) else Arr([Pair(Index(0), Nested(n - 1))])
  }

  lemma Around(s: string)
    ensures "[" + ("" + "" + "" + s + "") + "" + "]" == "[" + s + "]"
  {
  }

  lemma OneMoreBracket(n: nat)
    ensures Repeat('[', n + 1) + Repeat(']', n + 1) == "[" + (Repeat('[', n) + Repeat(']', n)) + "]"
  {
    assert Repeat('[', n + 1) == "[" + Repeat('[', n);
    assert Repeat(']', n + 1) == Repeat(']', n) + "]";
  }

  lemma NestShown(e: Elem)
    requires e.lead == e.before == e.after == "" && e.tag == None
    ensures Show(List([e], "")) == "[" + Show(e.value) + "]"
  {
    ShowSnoc([], e);
    assert [] + [e] == [e];
    Around(Show(e.value));
  }

  lemma NestStep(e: Elem)
    requires e.lead == e.before == e.after == "" && e.tag == None && ValidSyntax(e.value)
    ensures var s := List([e], "");
            && ValidSyntax(s) && (Strict(e.value) ==> Strict(s)) && (Narrow(e.value) ==> Narrow(s))
            && Depth(s) == Depth(e.value) + 1 && Meaning(s) == Arr([Pair(Index(0), Meaning(e.value))])
  {
    ElemsSnoc([], e, false);
    StrictSnoc([], e, false);
    assert [] + [e] == [e];
    PutAllAscending([ElemPair(e, 0, false)]);
    hide ValidElems;
    hide ElemPairs;
    hide StrictElems;
    hide NarrowElems;
    hide DepthElems;
  }

  lemma {:induction false} NestExact(n: nat)
    requires n > 0
    ensures ValidSyntax(Nest(n)) && Strict(Nest(n)) && Narrow(Nest(n)) && Depth(Nest(n)) == n
    ensures Meaning(Nest(n)) == Nested(n)
    ensures Show(Nest(n)) == Repeat('[', n) + Repeat(']', n)
  {
    if n == 1 {
      OneMoreBracket(0);
    } else {
      NestExact(n - 1);
      NestStep(Elem("", None, "", Nest(n - 1), ""));
      NestShown(Elem("", None, "", Nest(n - 1), ""));
      OneMoreBracket(n - 1);
    }
  }

  /** Arrays that nest 1000 deep are read, and one level more ends with the exception. */
  method ReadNested(n: nat, past: char, toDouble: string -> Option<Double>) returns (r: Outcome, root: Value)
    requires n > 0
    ensures r == if n <= 1000 then Done(true) else StackLimit
    ensures n <= 1000 ==> root == Nested(n)
  {
    hide Show;
    hide Meaning;
    hide Nest;
    ghost var s := Nest(n);
    NestExact(n);
    StrictAccepted(s);
    var text := Repeat('[', n) + Repeat(']', n);
    r, root := ParseText(text, past, toDouble, "", s);
  }
}
