/** The language that Json::Reader accepts, over tokens, and what its sentences mean.

    It is that of JSON with these liberties: any byte but the quote and the backslash in a string, and any
    second half of a surrogate pair; leading zeros, a minus sign alone for 0, and whatever the stream operator
    takes for a double; comments between tokens, but for the colon behind a name; any token for the comma
    behind a member that a comment follows; a comma behind the last member if that member's name is empty;
    and "[" at the end of the document if the byte behind the document is "]".

    One token begins at most one sentence, and the reader's outcome says of every document whether there is
    one and what it is. */
module JsonTree {
  import opened Wrappers
  import opened JsonValue
  import opened JsonText
  import opened JsonNumber
  import opened JsonString
  import opened JsonScan
  import opened JsonToken

  /** The document, the byte at its end that readArray may look at, and istream >> double. */
  datatype Input = Input(doc: string, past: char, toDouble: string -> Option<Double>)

  /** What was read, with the position behind it. */
  datatype Tree =
    | Leaf(value: Value, end: nat)
    | ListTree(elems: seq<Tree>, end: nat)
    | RecordTree(members: seq<Member>, end: nat)

  datatype Member = Member(name: string, tree: Tree)

  const STACK_LIMIT := 1000

  /** A call that returned; the exception "Exceeded stackLimit in readValue()"; or a size that the reader
      cannot hold: readArray's int counter would overflow, or a string is too long to store. */
  datatype Outcome = Done(ok: bool) | StackLimit | TooLarge

  // ---- Tokens that are whole values ----

  /** CZString keeps a name's length in 30 bits. */
  function StoredName(name: string): (stored: string)
    ensures |stored| < NAME_RANGE && stored <= name
    ensures |name| < NAME_RANGE ==> stored == name
    ensures |stored| == |name| % 1073741824
  {
    name[..|name| % NAME_RANGE]
  }

  /** Value(JSONCPP_STRING), with its cast of the length to unsigned; throws when there is no room. */
  function StoredText(text: string): (stored: Option<string>)
    ensures |text| <= MAX_STRING ==> stored == Some(text)
    ensures stored.Some? ==> |stored.value| <= MAX_STRING && stored.value <= text
    ensures stored.Some? <==> |text| % 4294967296 <= 2147483642
    ensures stored.Some? ==> |stored.value| == |text| % 4294967296
  {
    var n := |text| % UINT_RANGE;
    assert text[..|text|] == text;
    if n <= MAX_STRING then Some(text[..n]) else None
  }

  function NumberOf(text: string, toDouble: string -> Option<Double>): Option<Value> {
    if IsIntegerText(text) && InRange(IntegerOf(text)) then Some(Number(IntegerOf(text)))
    else DecodeDouble(text, toDouble)
  }

  /** The token is a string that denotes text. */
  ghost predicate Denotes(doc: string, token: Token, text: string) {
    && token.start + 2 <= token.end <= |doc|
    && exists ps :: Spells(ps, doc[token.start + 1..token.end - 1]) && text == PiecesText(ps)
  }

  ghost predicate LeafReads(input: Input, token: Token, value: Value)
    requires token.start <= token.end <= |input.doc|
  {
    match token.kind
    case NullToken => value == Null
    case TrueToken => value == Bool(true)
    case FalseToken => value == Bool(false)
    case NumberToken => NumberOf(input.doc[token.start..token.end], input.toDouble) == Some(value)
    case StringToken => TextReads(input.doc, token, value)
    case _ => false
  }

  ghost predicate TextReads(doc: string, token: Token, value: Value) {
    exists text :: Denotes(doc, token, text) && StoredText(text).Some? && value == Str(StoredText(text).value)
  }

  // ---- Lists and records ----

  /** The tree is read from the token on. */
  ghost predicate Reads(input: Input, token: Token, tree: Tree)
    requires token.start <= token.end <= |input.doc|
    decreases tree, 2
  {
    match tree
    case Leaf(value, end) => end == token.end && LeafReads(input, token, value)
    case ListTree(es, end) => token.kind == ArrayBegin && ListReads(input, token.end, es, end)
    case RecordTree(ms, end) => token.kind == ObjectBegin && RecordReads(input, token.end, ms, end)
  }

  ghost predicate ListReads(input: Input, start: nat, es: seq<Tree>, end: nat)
    requires start <= |input.doc|
    decreases es, 1
  {
    && ElemsRead(input, start, es)
    && (if es == [] then EmptyList(input, start, end) else ClosesWith(input.doc, es[|es| - 1].end, ArrayEnd, end))
  }

  /** readArray looks at one byte to tell an empty list. */
  predicate EmptyList(input: Input, start: nat, end: nat)
    requires start <= |input.doc|
  {
    BracketHere(input, start) && end == TokenOf(input.doc, SkipBlank(input.doc, start)).end
  }

  predicate BracketHere(input: Input, start: nat)
    requires start <= |input.doc|
  {
    var p := SkipBlank(input.doc, start);
    (if p < |input.doc| then input.doc[p] else input.past) == ']'
  }

  predicate ClosesWith(doc: string, at: nat, kind: TokenType, end: nat) {
    at <= |doc| && Uncommented(doc, at).kind == kind && end == Uncommented(doc, at).end
  }

  ghost predicate ElemsRead(input: Input, start: nat, es: seq<Tree>)
    requires start <= |input.doc|
    decreases es, 0
  {
    es == []
    || (var init := es[..|es| - 1];
        && ElemsRead(input, start, init)
        && (init != [] ==> Behind(input.doc, init[|init| - 1].end).kind == ArraySeparator)
        && Reads(input, Uncommented(input.doc, NextFrom(input.doc, start, init)), es[|es| - 1]))
  }

  /** The token behind a value. */
  function Behind(doc: string, at: nat): (token: Token)
    ensures token.start <= token.end <= |doc|
  {
    Uncommented(doc, Min(at, |doc|))
  }

  /** Where the next element is, behind the separator of the last one. */
  function NextFrom(doc: string, start: nat, es: seq<Tree>): (at: nat)
    requires start <= |doc|
    ensures at <= |doc|
  {
    if es == [] then start else Behind(doc, es[|es| - 1].end).end
  }

  ghost predicate RecordReads(input: Input, start: nat, ms: seq<Member>, end: nat)
    requires start <= |input.doc|
    decreases ms, 1
  {
    MembersRead(input, start, ms) && RecordCloses(input.doc, start, ms, end)
  }

  /** The closing brace comes behind the last member, behind the opening brace, or behind a comma that
      follows an empty name. */
  predicate RecordCloses(doc: string, start: nat, ms: seq<Member>, end: nat)
    requires start <= |doc|
  {
    || (ms != [] && ClosesWith(doc, ms[|ms| - 1].tree.end, ObjectEnd, end))
    || ((ms != [] ==> GoesOn(doc, ms[|ms| - 1].tree.end) && ms[|ms| - 1].name == "")
        && ClosesWith(doc, MemberFrom(doc, start, ms), ObjectEnd, end))
  }

  /** A comma, or, behind a comment, any token but the closing brace. */
  predicate GoesOn(doc: string, at: nat) {
    && Behind(doc, at).kind != ObjectEnd
    && (Behind(doc, at).kind == ArraySeparator || TokenOf(doc, SkipBlank(doc, Min(at, |doc|))).kind == Comment)
  }

  ghost predicate MembersRead(input: Input, start: nat, ms: seq<Member>)
    requires start <= |input.doc|
    decreases ms, 0
  {
    ms == []
    || (var init := ms[..|ms| - 1];
        && MembersRead(input, start, init)
        && (init != [] ==> GoesOn(input.doc, init[|init| - 1].tree.end))
        && MemberReads(input, Uncommented(input.doc, MemberFrom(input.doc, start, init)), ms[|ms| - 1]))
  }

  /** A name, a colon with no comment before it, and a value. */
  ghost predicate MemberReads(input: Input, name: Token, m: Member)
    requires name.start <= name.end <= |input.doc|
    decreases m, 3
  {
    var colon := TokenOf(input.doc, SkipBlank(input.doc, name.end));
    && name.kind == StringToken && Denotes(input.doc, name, m.name) && colon.kind == MemberSeparator
    && Reads(input, Uncommented(input.doc, colon.end), m.tree)
  }

  function MemberFrom(doc: string, start: nat, ms: seq<Member>): (at: nat)
    requires start <= |doc|
    ensures at <= |doc|
  {
    if ms == [] then start else Behind(doc, ms[|ms| - 1].tree.end).end
  }

  // ---- Meaning and depth ----

  function Container(m: seq<Pair>, named: bool): Value {
    if named then Obj(m) else Arr(m)
  }

  function WithEntry(v: Value, k: Key, child: Value): Value
    requires v.Arr? || v.Obj?
  {
    Container(Put(v.entries, k, child), v.Obj?)
  }

  /** Elements by position, members by name; of two members with one name the later one counts. */
  function TreeValue(tree: Tree): Value
    decreases tree, 2
  {
    match tree
    case Leaf(value, _) => value
    case ListTree(es, _) => Arr(PutAll(ElemValues(es)))
    case RecordTree(ms, _) => Obj(PutAll(MemberValues(ms)))
  }

  function ElemValues(es: seq<Tree>): seq<Pair>
    decreases es, 0
  {
    if es == [] then []
    else ElemValues(es[..|es| - 1]) + [Pair(Index(|es| - 1), TreeValue(es[|es| - 1]))]
  }

  function MemberValues(ms: seq<Member>): seq<Pair>
    decreases ms, 0
  {
    if ms == [] then [] else MemberValues(ms[..|ms| - 1]) + [MemberPair(ms[|ms| - 1])]
  }

  function MemberPair(m: Member): Pair
    decreases m, 3
  {
    Pair(Name(StoredName(m.name)), TreeValue(m.tree))
  }

  function TreeDepth(tree: Tree): (d: nat)
    ensures d > 0
    decreases tree, 2
  {
    match tree
    case Leaf(_, _) => 1
    case ListTree(es, _) => 1 + ElemsDepth(es)
    case RecordTree(ms, _) => 1 + MembersDepth(ms)
  }

  function ElemsDepth(es: seq<Tree>): nat
    decreases es, 0
  {
    if es == [] then 0 else Max(ElemsDepth(es[..|es| - 1]), TreeDepth(es[|es| - 1]))
  }

  function MembersDepth(ms: seq<Member>): nat
    decreases ms, 0
  {
    if ms == [] then 0 else Max(MembersDepth(ms[..|ms| - 1]), MemberDepth(ms[|ms| - 1]))
  }

  function MemberDepth(m: Member): nat
    decreases m, 3
  {
    TreeDepth(m.tree)
  }

  /** No list has more elements than an int counts. */
  predicate NarrowTree(tree: Tree)
    decreases tree, 2
  {
    match tree
    case Leaf(_, _) => true
    case ListTree(es, _) => |es| <= MAX_INT && NarrowTrees(es)
    case RecordTree(ms, _) => NarrowMembers(ms)
  }

  predicate NarrowTrees(es: seq<Tree>)
    decreases es, 0
  {
    es == [] || (NarrowTrees(es[..|es| - 1]) && NarrowTree(es[|es| - 1]))
  }

  predicate NarrowMembers(ms: seq<Member>)
    decreases ms, 0
  {
    ms == [] || (NarrowMembers(ms[..|ms| - 1]) && NarrowMember(ms[|ms| - 1]))
  }

  predicate NarrowMember(m: Member)
    decreases m, 3
  {
    NarrowTree(m.tree)
  }

  // ---- Outcomes ----

  /** What an outcome says about a sentence that the document holds at this depth. */
  predicate Verdict(r: Outcome, tree: Tree, depth: int) {
    match r
    case Done(ok) => ok
    case StackLimit => depth + TreeDepth(tree) > STACK_LIMIT
    case TooLarge => !NarrowTree(tree)
  }

  /** A call that does not read a value says why: there is no sentence from the token on, or it is too deep,
      or too long. */
  ghost predicate Judged(r: Outcome, input: Input, token: Token, depth: int)
    requires token.start <= token.end <= |input.doc|
  {
    forall t :: Reads(input, token, t) ==> Verdict(r, t, depth)
  }

  ghost predicate ListJudged(r: Outcome, input: Input, start: nat, depth: int)
    requires start <= |input.doc|
  {
    forall es, end :: ListReads(input, start, es, end) ==> Verdict(r, ListTree(es, end), depth)
  }

  ghost predicate RecordJudged(r: Outcome, input: Input, start: nat, depth: int)
    requires start <= |input.doc|
  {
    forall ms, end :: RecordReads(input, start, ms, end) ==> Verdict(r, RecordTree(ms, end), depth)
  }

  ghost predicate MemberJudged(r: Outcome, input: Input, name: Token, depth: int)
    requires name.start <= name.end <= |input.doc|
  {
    forall m :: MemberReads(input, name, m) ==> Verdict(r, m.tree, depth)
  }

  // ---- Reading on ----

  /** readArray at the head of its loop: the elements read so far, and the next one at the cursor. */
  ghost predicate ListAt(input: Input, start: nat, es: seq<Tree>, at: nat, top: Value, depth: int)
    requires start <= |input.doc| && at <= |input.doc|
  {
    && ElemsRead(input, start, es) && top == Arr(PutAll(ElemValues(es)))
    && ElemsDepth(es) <= depth && NarrowTrees(es)
    && (if es == [] then !BracketHere(input, start) else Behind(input.doc, es[|es| - 1].end).kind == ArraySeparator)
    && Uncommented(input.doc, at) == Uncommented(input.doc, NextFrom(input.doc, start, es))
  }

  lemma LeafIs(input: Input, token: Token, value: Value)
    requires token.start <= token.end <= |input.doc|
    ensures var tree := Leaf(value, token.end);
            && (LeafReads(input, token, value) ==> Reads(input, token, tree))
            && TreeValue(tree) == value && TreeDepth(tree) == 1 && NarrowTree(tree)
  {
    hide LeafReads;
  }

  lemma ContainerReads(input: Input, token: Token, tree: Tree)
    requires token.start <= token.end <= |input.doc|
    ensures token.kind == ArrayBegin && tree.ListTree? && ListReads(input, token.end, tree.elems, tree.end) ==>
              Reads(input, token, tree)
    ensures token.kind == ObjectBegin && tree.RecordTree? && RecordReads(input, token.end, tree.members, tree.end) ==>
              Reads(input, token, tree)
  {
    hide ListReads;
    hide RecordReads;
  }

  lemma EmptyListReads(input: Input, start: nat, end: nat)
    requires start <= |input.doc| && EmptyList(input, start, end)
    ensures ListReads(input, start, [], end)
    ensures var tree := ListTree([], end); TreeValue(tree) == Arr([]) && TreeDepth(tree) == 1 && NarrowTree(tree)
  {
  }

  lemma ListStart(input: Input, start: nat, depth: nat)
    requires start <= |input.doc| && !BracketHere(input, start)
    ensures ListAt(input, start, [], SkipBlank(input.doc, start), Arr([]), depth)
  {
    BlankTwice(input.doc, start);
  }

  lemma ElemsReadStep(input: Input, start: nat, es: seq<Tree>, e: Tree)
    requires start <= |input.doc| && ElemsRead(input, start, es)
    requires es != [] ==> Behind(input.doc, es[|es| - 1].end).kind == ArraySeparator
    requires Reads(input, Uncommented(input.doc, NextFrom(input.doc, start, es)), e)
    ensures ElemsRead(input, start, es + [e])
  {
    hide Reads;
    hide Behind;
    assert (es + [e])[..|es|] == es;
  }

  lemma ElemValuesStep(es: seq<Tree>, e: Tree)
    ensures PutAll(ElemValues(es + [e])) == Put(PutAll(ElemValues(es)), Index(|es|), TreeValue(e))
    ensures ElemsDepth(es + [e]) == Max(ElemsDepth(es), TreeDepth(e))
    ensures NarrowTrees(es + [e]) <==> NarrowTrees(es) && NarrowTree(e)
  {
    hide TreeValue;
    hide TreeDepth;
    hide NarrowTree;
    assert (es + [e])[..|es|] == es;
    PutSnoc(ElemValues(es), Pair(Index(|es|), TreeValue(e)));
  }

  /** One more element, behind which the list goes on or ends. */
  lemma ListStep(input: Input, start: nat, es: seq<Tree>, at: nat, top: Value, depth: int, e: Tree)
    requires start <= |input.doc| && at <= |input.doc| && ListAt(input, start, es, at, top, depth)
    requires Reads(input, Uncommented(input.doc, at), e) && TreeDepth(e) <= depth && NarrowTree(e)
    requires Behind(input.doc, e.end).kind == ArraySeparator
    ensures ListAt(input, start, es + [e], Behind(input.doc, e.end).end, WithEntry(top, Index(|es|), TreeValue(e)),
                   depth)
  {
    hide Reads;
    hide Behind;
    hide ElemsRead;
    hide ElemValues;
    hide ElemsDepth;
    hide NarrowTrees;
    hide NarrowTree;
    hide TreeValue;
    hide TreeDepth;
    hide Put;
    ElemsReadStep(input, start, es, e);
    ElemValuesStep(es, e);
  }

  lemma ListEnd(input: Input, start: nat, es: seq<Tree>, at: nat, top: Value, depth: int, e: Tree, end: nat)
    requires start <= |input.doc| && at <= |input.doc| && ListAt(input, start, es, at, top, depth)
    requires Reads(input, Uncommented(input.doc, at), e) && TreeDepth(e) <= depth && NarrowTree(e)
    requires ClosesWith(input.doc, e.end, ArrayEnd, end) && |es| < MAX_INT
    ensures var tree := ListTree(es + [e], end);
            ListReads(input, start, es + [e], end) && TreeDepth(tree) <= depth + 1 && NarrowTree(tree)
            && TreeValue(tree) == WithEntry(top, Index(|es|), TreeValue(e))
  {
    hide Reads;
    hide Behind;
    hide ElemsRead;
    hide ElemValues;
    hide ElemsDepth;
    hide NarrowTrees;
    hide ClosesWith;
    hide Put;
    ElemsReadStep(input, start, es, e);
    ElemValuesStep(es, e);
  }

  lemma PutSnoc(ps: seq<Pair>, p: Pair)
    ensures PutAll(ps + [p]) == Put(PutAll(ps), p.key, p.value)
  {
    assert (ps + [p])[..|ps|] == ps;
  }

  /** readObject at the head of its loop: the members read so far, and the name of the last one. */
  ghost predicate MembersAt(input: Input, start: nat, ms: seq<Member>, at: nat, top: Value, depth: int, name: string)
    requires start <= |input.doc|
  {
    && MembersRead(input, start, ms) && top == Obj(PutAll(MemberValues(ms)))
    && MembersDepth(ms) <= depth && NarrowMembers(ms)
    && at == MemberFrom(input.doc, start, ms)
    && (if ms == [] then name == "" else GoesOn(input.doc, ms[|ms| - 1].tree.end) && name == ms[|ms| - 1].name)
  }

  lemma MembersStart(input: Input, start: nat, depth: nat)
    requires start <= |input.doc|
    ensures MembersAt(input, start, [], start, Obj([]), depth, "")
  {
  }

  lemma ClosesHere(doc: string, at: nat, token: Token)
    requires at <= |doc| && token == Uncommented(doc, at)
    ensures ClosesWith(doc, at, token.kind, token.end)
  {
  }

  /** The closing brace at the head of the loop. */
  lemma MembersEnd(input: Input, start: nat, ms: seq<Member>, at: nat, top: Value, depth: int, end: nat)
    requires start <= |input.doc| && MembersAt(input, start, ms, at, top, depth, "")
    requires ClosesWith(input.doc, at, ObjectEnd, end)
    ensures var tree := RecordTree(ms, end);
            RecordReads(input, start, ms, end) && top == TreeValue(tree) && TreeDepth(tree) <= depth + 1
            && NarrowTree(tree)
  {
    hide MembersRead;
  }

  lemma MembersReadStep(input: Input, start: nat, ms: seq<Member>, m: Member)
    requires start <= |input.doc| && MembersRead(input, start, ms)
    requires ms != [] ==> GoesOn(input.doc, ms[|ms| - 1].tree.end)
    requires MemberReads(input, Uncommented(input.doc, MemberFrom(input.doc, start, ms)), m)
    ensures MembersRead(input, start, ms + [m])
  {
    hide MemberReads;
    hide GoesOn;
    hide Behind;
    assert (ms + [m])[..|ms|] == ms;
  }

  lemma MemberValuesStep(ms: seq<Member>, m: Member)
    ensures PutAll(MemberValues(ms + [m])) == Put(PutAll(MemberValues(ms)), Name(StoredName(m.name)), TreeValue(m.tree))
    ensures MembersDepth(ms + [m]) == Max(MembersDepth(ms), TreeDepth(m.tree))
    ensures NarrowMembers(ms + [m]) <==> NarrowMembers(ms) && NarrowTree(m.tree)
  {
    hide TreeValue;
    hide TreeDepth;
    hide NarrowTree;
    assert (ms + [m])[..|ms|] == ms;
    PutSnoc(MemberValues(ms), MemberPair(m));
  }

  /** One more member, behind which the record goes on or ends. */
  lemma MembersStep(input: Input, start: nat, ms: seq<Member>, at: nat, top: Value, depth: int, name: string, m: Member)
    requires start <= |input.doc| && at <= |input.doc| && MembersAt(input, start, ms, at, top, depth, name)
    requires MemberReads(input, Uncommented(input.doc, at), m) && TreeDepth(m.tree) <= depth && NarrowTree(m.tree)
    requires GoesOn(input.doc, m.tree.end)
    ensures MembersAt(input, start, ms + [m], Behind(input.doc, m.tree.end).end,
                      WithEntry(top, Name(StoredName(m.name)), TreeValue(m.tree)), depth, m.name)
  {
    hide MemberReads;
    hide MembersRead;
    hide MemberValues;
    hide MembersDepth;
    hide NarrowMembers;
    hide NarrowTree;
    hide GoesOn;
    hide Behind;
    hide TreeValue;
    hide TreeDepth;
    hide Put;
    MembersReadStep(input, start, ms, m);
    MemberValuesStep(ms, m);
  }

  lemma MembersLast(input: Input, start: nat, ms: seq<Member>, at: nat, top: Value, depth: int, name: string, m: Member,
      end: nat)
    requires start <= |input.doc| && at <= |input.doc| && MembersAt(input, start, ms, at, top, depth, name)
    requires MemberReads(input, Uncommented(input.doc, at), m) && TreeDepth(m.tree) <= depth && NarrowTree(m.tree)
    requires ClosesWith(input.doc, m.tree.end, ObjectEnd, end)
    ensures var tree := RecordTree(ms + [m], end);
            RecordReads(input, start, ms + [m], end) && TreeDepth(tree) <= depth + 1 && NarrowTree(tree)
            && TreeValue(tree) == WithEntry(top, Name(StoredName(m.name)), TreeValue(m.tree))
  {
    hide MemberReads;
    hide MembersRead;
    hide MemberValues;
    hide MembersDepth;
    hide NarrowMembers;
    hide GoesOn;
    hide ClosesWith;
    hide Put;
    MembersReadStep(input, start, ms, m);
    MemberValuesStep(ms, m);
  }

  // ---- The language is unambiguous ----

  lemma DenotesUnique(doc: string, token: Token, a: string, b: string)
    requires Denotes(doc, token, a) && Denotes(doc, token, b)
    ensures a == b
  {
    hide ShowPieces;
    hide PiecesText;
    var body := doc[token.start + 1..token.end - 1];
    var ps :| Spells(ps, body) && a == PiecesText(ps);
    var qs :| Spells(qs, body) && b == PiecesText(qs);
    SpellsUnique(ps, qs, body);
  }

  /** A string that is too long to be stored has no value. */
  lemma NotStored(doc: string, token: Token, text: string, value: Value)
    requires Denotes(doc, token, text) && StoredText(text).None?
    ensures !TextReads(doc, token, value)
  {
    hide Denotes;
    hide StoredText;
    if TextReads(doc, token, value) {
      var other :| Denotes(doc, token, other) && StoredText(other).Some? && value == Str(StoredText(other).value);
      DenotesUnique(doc, token, text, other);
    }
  }

  lemma LeafUnique(input: Input, token: Token, v: Value, w: Value)
    requires token.start <= token.end <= |input.doc| && LeafReads(input, token, v) && LeafReads(input, token, w)
    ensures v == w
  {
    hide Denotes;
    hide NumberOf;
    if token.kind == StringToken {
      var a :| Denotes(input.doc, token, a) && StoredText(a).Some? && v == Str(StoredText(a).value);
      var b :| Denotes(input.doc, token, b) && StoredText(b).Some? && w == Str(StoredText(b).value);
      DenotesUnique(input.doc, token, a, b);
    }
  }

  /** What an element of a list that was read comes behind, and what comes behind it. */
  lemma {:induction false} ElemsReadAt(input: Input, start: nat, es: seq<Tree>, k: nat)
    requires start <= |input.doc| && ElemsRead(input, start, es) && k < |es|
    ensures Reads(input, Uncommented(input.doc, NextFrom(input.doc, start, es[..k])), es[k])
    ensures k + 1 < |es| ==> Behind(input.doc, es[k].end).kind == ArraySeparator
    decreases |es|
  {
    hide Reads;
    hide Behind;
    hide Uncommented;
    var init := es[..|es| - 1];
    if k < |init| {
      ElemsReadAt(input, start, init, k);
      assert init[..k] == es[..k];
    } else {
      assert es[..k] == init;
    }
  }

  /** One token begins at most one sentence. */
  lemma {:induction false} ReadsUnique(input: Input, token: Token, s: Tree, t: Tree)
    requires token.start <= token.end <= |input.doc| && Reads(input, token, s) && Reads(input, token, t)
    ensures s == t
    decreases s, 0
  {
    hide LeafReads;
    hide ListReads;
    hide RecordReads;
    LeafKinds(input, token);
    if s.Leaf? {
      LeafUnique(input, token, s.value, t.value);
    } else if s.ListTree? {
      ListUnique(input, token.end, s.elems, s.end, t.elems, t.end);
    } else {
      RecordUnique(input, token.end, s.members, s.end, t.members, t.end);
    }
  }

  lemma LeafKinds(input: Input, token: Token)
    requires token.start <= token.end <= |input.doc|
    ensures forall v :: LeafReads(input, token, v) ==>
              token.kind in {NullToken, TrueToken, FalseToken, NumberToken, StringToken}
  {
  }

  lemma Prefix<T>(s: seq<T>, k: nat)
    requires 0 < k <= |s|
    ensures s[..k] == s[..k - 1] + [s[k - 1]]
  {
  }

  lemma {:induction false} ElemsAgree(input: Input, start: nat, es: seq<Tree>, fs: seq<Tree>, k: nat)
    requires start <= |input.doc| && ElemsRead(input, start, es) && ElemsRead(input, start, fs)
    requires k <= |es| && k <= |fs|
    ensures es[..k] == fs[..k]
    decreases es, 1, k
  {
    hide Reads;
    hide ElemsRead;
    hide Uncommented;
    hide NextFrom;
    if k > 0 {
      ElemsAgree(input, start, es, fs, k - 1);
      ElemsReadAt(input, start, es, k - 1);
      ElemsReadAt(input, start, fs, k - 1);
      ReadsUnique(input, Uncommented(input.doc, NextFrom(input.doc, start, es[..k - 1])), es[k - 1], fs[k - 1]);
      Prefix(es, k);
      Prefix(fs, k);
    }
  }

  lemma {:induction false} ListUnique(input: Input, start: nat, es: seq<Tree>, end: nat, fs: seq<Tree>, other: nat)
    requires start <= |input.doc| && ListReads(input, start, es, end) && ListReads(input, start, fs, other)
    ensures es == fs && end == other
    decreases es, 2
  {
    hide ElemsRead;
    if |es| <= |fs| {
      ElemsAgree(input, start, es, fs, |es|);
      ListNoLonger(input, start, es, end, fs, other);
    } else {
      ElemsAgree(input, start, es, fs, |fs|);
      ListNoLonger(input, start, fs, other, es, end);
    }
  }

  /** Behind a closing bracket no list goes on. */
  lemma ListNoLonger(input: Input, start: nat, es: seq<Tree>, end: nat, fs: seq<Tree>, other: nat)
    requires start <= |input.doc| && ListReads(input, start, es, end) && ListReads(input, start, fs, other)
    requires |es| <= |fs| && es[..|es|] == fs[..|es|]
    ensures es == fs && end == other
  {
    hide ElemsRead;
    hide Reads;
    if |es| == |fs| {
      assert es == es[..|es|] && fs == fs[..|es|];
    } else if es == [] {
      assert fs[..0] == [];
      NoValueHere(input, start, end, fs[0]);
      ElemsReadAt(input, start, fs, 0);
    } else {
      assert fs[|es| - 1] == fs[..|es|][|es| - 1] == es[|es| - 1];
      ElemsReadAt(input, start, fs, |es| - 1);
    }
  }

  lemma NoValueHere(input: Input, start: nat, end: nat, t: Tree)
    requires start <= |input.doc| && EmptyList(input, start, end)
    ensures !Reads(input, Uncommented(input.doc, start), t)
  {
    hide LeafReads;
    LeafKinds(input, Uncommented(input.doc, start));
  }

  lemma {:induction false} MembersReadAt(input: Input, start: nat, ms: seq<Member>, k: nat)
    requires start <= |input.doc| && MembersRead(input, start, ms) && k < |ms|
    ensures MemberReads(input, Uncommented(input.doc, MemberFrom(input.doc, start, ms[..k])), ms[k])
    ensures k + 1 < |ms| ==> GoesOn(input.doc, ms[k].tree.end)
    decreases |ms|
  {
    hide MemberReads;
    hide GoesOn;
    hide Behind;
    hide Uncommented;
    var init := ms[..|ms| - 1];
    if k < |init| {
      MembersReadAt(input, start, init, k);
      assert init[..k] == ms[..k];
    } else {
      assert ms[..k] == init;
    }
  }

  lemma {:induction false} MemberUnique(input: Input, name: Token, m: Member, n: Member)
    requires name.start <= name.end <= |input.doc| && MemberReads(input, name, m) && MemberReads(input, name, n)
    ensures m == n
    decreases m, 1
  {
    hide Reads;
    hide Denotes;
    hide TokenOf;
    hide Uncommented;
    DenotesUnique(input.doc, name, m.name, n.name);
    var colon := TokenOf(input.doc, SkipBlank(input.doc, name.end));
    ReadsUnique(input, Uncommented(input.doc, colon.end), m.tree, n.tree);
  }

  lemma {:induction false} MembersAgree(input: Input, start: nat, ms: seq<Member>, ns: seq<Member>, k: nat)
    requires start <= |input.doc| && MembersRead(input, start, ms) && MembersRead(input, start, ns)
    requires k <= |ms| && k <= |ns|
    ensures ms[..k] == ns[..k]
    decreases ms, 1, k
  {
    hide MemberReads;
    hide MembersRead;
    hide Uncommented;
    hide MemberFrom;
    if k > 0 {
      MembersAgree(input, start, ms, ns, k - 1);
      MembersReadAt(input, start, ms, k - 1);
      MembersReadAt(input, start, ns, k - 1);
      MemberUnique(input, Uncommented(input.doc, MemberFrom(input.doc, start, ms[..k - 1])), ms[k - 1], ns[k - 1]);
      Prefix(ms, k);
      Prefix(ns, k);
    }
  }

  lemma {:induction false} RecordUnique(input: Input, start: nat, ms: seq<Member>, end: nat, ns: seq<Member>,
                                        other: nat)
    requires start <= |input.doc| && RecordReads(input, start, ms, end) && RecordReads(input, start, ns, other)
    ensures ms == ns && end == other
    decreases ms, 2
  {
    hide MembersRead;
    if |ms| <= |ns| {
      MembersAgree(input, start, ms, ns, |ms|);
      RecordNoLonger(input, start, ms, end, ns, other);
    } else {
      MembersAgree(input, start, ms, ns, |ns|);
      RecordNoLonger(input, start, ns, other, ms, end);
    }
  }

  /** Behind a closing brace no record goes on. */
  lemma RecordNoLonger(input: Input, start: nat, ms: seq<Member>, end: nat, ns: seq<Member>, other: nat)
    requires start <= |input.doc| && RecordReads(input, start, ms, end) && RecordReads(input, start, ns, other)
    requires |ms| <= |ns| && ms[..|ms|] == ns[..|ms|]
    ensures ms == ns && end == other
  {
    hide MembersRead;
    hide Denotes;
    hide Reads;
    hide Uncommented;
    if |ms| == |ns| {
      assert ms == ms[..|ms|] && ns == ns[..|ms|];
    } else {
      assert ns[..|ms|] == ms;
      if ms != [] {
        assert ns[|ms| - 1] == ns[..|ms|][|ms| - 1] == ms[|ms| - 1];
        MembersReadAt(input, start, ns, |ms| - 1);
      }
      MembersReadAt(input, start, ns, |ms|);
    }
  }

  // ---- What a failure says ----

  lemma ListDoneJudged(input: Input, start: nat, depth: int)
    requires start <= |input.doc|
    ensures ListJudged(Done(true), input, start, depth)
  {
  }

  lemma RecordDoneJudged(input: Input, start: nat, depth: int)
    requires start <= |input.doc|
    ensures RecordJudged(Done(true), input, start, depth)
  {
  }

  lemma TooDeepJudged(input: Input, token: Token, depth: int)
    requires token.start <= token.end <= |input.doc| && depth >= STACK_LIMIT
    ensures Judged(StackLimit, input, token, depth)
  {
    hide Reads;
    hide TreeDepth;
  }

  lemma LeafJudged(r: Outcome, input: Input, token: Token, depth: int)
    requires token.start <= token.end <= |input.doc| && token.kind != ArrayBegin && token.kind != ObjectBegin
    requires r == Done(true) || forall v :: !LeafReads(input, token, v)
    ensures Judged(r, input, token, depth)
  {
    hide LeafReads;
  }

  lemma ListTokenJudged(r: Outcome, input: Input, token: Token, depth: int)
    requires token.start <= token.end <= |input.doc| && token.kind == ArrayBegin
    requires ListJudged(r, input, token.end, depth)
    ensures Judged(r, input, token, depth)
  {
    hide LeafReads;
    hide ListReads;
    hide Verdict;
    LeafKinds(input, token);
  }

  lemma RecordTokenJudged(r: Outcome, input: Input, token: Token, depth: int)
    requires token.start <= token.end <= |input.doc| && token.kind == ObjectBegin
    requires RecordJudged(r, input, token.end, depth)
    ensures Judged(r, input, token, depth)
  {
    hide LeafReads;
    hide RecordReads;
    hide Verdict;
    LeafKinds(input, token);
  }

  /** A list that starts with elements which commas follow goes on behind them. */
  lemma ListMust(input: Input, start: nat, es: seq<Tree>, at: nat, top: Value, depth: int, fs: seq<Tree>, end: nat)
    requires start <= |input.doc| && at <= |input.doc| && ListAt(input, start, es, at, top, depth)
    requires ListReads(input, start, fs, end)
    ensures |es| < |fs| && fs[..|es|] == es && Reads(input, Uncommented(input.doc, at), fs[|es|])
  {
    hide ElemsRead;
    hide Reads;
    hide Uncommented;
    if |fs| <= |es| {
      ElemsAgree(input, start, fs, es, |fs|);
      assert fs == es[..|fs|];
      if fs == [] {
        if es != [] {
          assert es[..0] == [];
          NoValueHere(input, start, end, es[0]);
          ElemsReadAt(input, start, es, 0);
        }
      } else {
        assert fs[|fs| - 1] == es[|fs| - 1];
        ElemsReadAt(input, start, es, |fs| - 1);
      }
      assert false;
    }
    ElemsAgree(input, start, es, fs, |es|);
    assert es[..|es|] == es;
    ElemsReadAt(input, start, fs, |es|);
  }

  lemma {:induction false} ElemWithin(es: seq<Tree>, k: nat)
    requires k < |es|
    ensures TreeDepth(es[k]) <= ElemsDepth(es) && (NarrowTrees(es) ==> NarrowTree(es[k]))
    decreases |es|
  {
    hide TreeDepth;
    hide NarrowTree;
    if k < |es| - 1 {
      ElemWithin(es[..|es| - 1], k);
    }
  }

  /** The next element fails, and with it the list. */
  lemma ElementJudged(r: Outcome, input: Input, start: nat, es: seq<Tree>, at: nat, top: Value, room: int, depth: int)
    requires start <= |input.doc| && at <= |input.doc| && ListAt(input, start, es, at, top, room)
    requires Judged(r, input, Uncommented(input.doc, at), depth)
    ensures ListJudged(r, input, start, depth - 1)
  {
    hide ListAt;
    hide ListReads;
    hide Reads;
    hide ElemsDepth;
    hide NarrowTrees;
    forall fs: seq<Tree>, end | ListReads(input, start, fs, end) ensures Verdict(r, ListTree(fs, end), depth - 1) {
      ListMust(input, start, es, at, top, room, fs, end);
      ElemWithin(fs, |es|);
      assert Verdict(r, fs[|es|], depth);
    }
  }

  /** What follows the element is neither a comma nor the bracket. */
  lemma SeparatorJudged(input: Input, start: nat, es: seq<Tree>, at: nat, top: Value, room: int, e: Tree, depth: int)
    requires start <= |input.doc| && at <= |input.doc| && ListAt(input, start, es, at, top, room)
    requires Reads(input, Uncommented(input.doc, at), e)
    requires Behind(input.doc, e.end).kind != ArraySeparator && Behind(input.doc, e.end).kind != ArrayEnd
    ensures ListJudged(Done(false), input, start, depth)
  {
    hide ListAt;
    hide ElemsRead;
    hide Reads;
    hide Uncommented;
    forall fs: seq<Tree>, end | ListReads(input, start, fs, end) ensures false {
      ListMust(input, start, es, at, top, room, fs, end);
      ReadsUnique(input, Uncommented(input.doc, at), e, fs[|es|]);
      ElemsReadAt(input, start, fs, |es|);
    }
  }

  lemma TooManyJudged(input: Input, start: nat, es: seq<Tree>, at: nat, top: Value, room: int, depth: int)
    requires start <= |input.doc| && at <= |input.doc| && ListAt(input, start, es, at, top, room)
    requires |es| >= MAX_INT
    ensures ListJudged(TooLarge, input, start, depth)
  {
    hide ListAt;
    hide ListReads;
    forall fs: seq<Tree>, end | ListReads(input, start, fs, end) ensures !NarrowTree(ListTree(fs, end)) {
      ListMust(input, start, es, at, top, room, fs, end);
    }
  }

  /** A record that starts with members which commas follow goes on behind them, or ends there if the last
      of their names is empty. */
  lemma RecordMust(input: Input, start: nat, ms: seq<Member>, at: nat, top: Value, depth: int, name: string,
      ns: seq<Member>, end: nat)
    requires start <= |input.doc| && at <= |input.doc| && MembersAt(input, start, ms, at, top, depth, name)
    requires RecordReads(input, start, ns, end)
    ensures |ms| <= |ns| && ns[..|ms|] == ms
    ensures |ms| == |ns| ==> name == "" && Uncommented(input.doc, at).kind == ObjectEnd
    ensures |ms| < |ns| ==> MemberReads(input, Uncommented(input.doc, at), ns[|ms|])
  {
    hide MembersRead;
    hide Denotes;
    hide Reads;
    hide Uncommented;
    if |ns| < |ms| {
      MembersAgree(input, start, ns, ms, |ns|);
      assert ns == ms[..|ns|];
      if ns != [] {
        assert ns[|ns| - 1] == ms[|ns| - 1];
        MembersReadAt(input, start, ms, |ns| - 1);
      }
      MembersReadAt(input, start, ms, |ns|);
      assert false;
    }
    MembersAgree(input, start, ms, ns, |ms|);
    assert ms[..|ms|] == ms;
    if |ms| < |ns| {
      MembersReadAt(input, start, ns, |ms|);
    } else {
      assert ns[..|ns|] == ns;
    }
  }

  lemma {:induction false} MemberWithin(ms: seq<Member>, k: nat)
    requires k < |ms|
    ensures TreeDepth(ms[k].tree) <= MembersDepth(ms) && (NarrowMembers(ms) ==> NarrowTree(ms[k].tree))
    decreases |ms|
  {
    hide TreeDepth;
    hide NarrowTree;
    if k < |ms| - 1 {
      MemberWithin(ms[..|ms| - 1], k);
    } else {
      assert MemberDepth(ms[k]) == TreeDepth(ms[k].tree) && NarrowMember(ms[k]) == NarrowTree(ms[k].tree);
    }
  }

  /** The token at the head of the loop is neither a name nor a brace that may come there. */
  lemma HeadJudged(input: Input, start: nat, ms: seq<Member>, at: nat, top: Value, room: int, name: string, depth: int)
    requires start <= |input.doc| && at <= |input.doc| && MembersAt(input, start, ms, at, top, room, name)
    requires var kind := Uncommented(input.doc, at).kind;
             kind != StringToken && !(kind == ObjectEnd && name == "")
    ensures RecordJudged(Done(false), input, start, depth)
  {
    hide MembersAt;
    hide RecordReads;
    hide Reads;
    hide Denotes;
    hide Uncommented;
    forall ns: seq<Member>, end | RecordReads(input, start, ns, end) ensures false {
      RecordMust(input, start, ms, at, top, room, name, ns, end);
    }
  }

  /** The next member fails, and with it the record. */
  lemma NextMemberJudged(r: Outcome, input: Input, start: nat, ms: seq<Member>, at: nat, top: Value, room: int,
      name: string, depth: int)
    requires start <= |input.doc| && at <= |input.doc| && MembersAt(input, start, ms, at, top, room, name)
    requires Uncommented(input.doc, at).kind == StringToken
    requires MemberJudged(r, input, Uncommented(input.doc, at), depth)
    ensures RecordJudged(r, input, start, depth - 1)
  {
    hide MembersAt;
    hide RecordReads;
    hide MemberReads;
    hide MembersDepth;
    hide NarrowMembers;
    forall ns: seq<Member>, end | RecordReads(input, start, ns, end)
      ensures Verdict(r, RecordTree(ns, end), depth - 1)
    {
      RecordMust(input, start, ms, at, top, room, name, ns, end);
      MemberWithin(ns, |ms|);
      assert Verdict(r, ns[|ms|].tree, depth);
    }
  }

  lemma IsName(input: Input, token: Token, m: Member)
    requires token.start <= token.end <= |input.doc| && MemberReads(input, token, m)
    ensures token.kind == StringToken
  {
    hide Reads;
    hide Denotes;
  }

  /** What follows the member passes for no comma and is not the brace. */
  lemma CommaJudged(input: Input, start: nat, ms: seq<Member>, at: nat, top: Value, room: int, name: string, m: Member,
      depth: int)
    requires start <= |input.doc| && at <= |input.doc| && MembersAt(input, start, ms, at, top, room, name)
    requires MemberReads(input, Uncommented(input.doc, at), m)
    requires !GoesOn(input.doc, m.tree.end) && Behind(input.doc, m.tree.end).kind != ObjectEnd
    ensures RecordJudged(Done(false), input, start, depth)
  {
    hide MembersAt;
    hide MembersRead;
    hide MemberReads;
    hide Uncommented;
    hide GoesOn;
    IsName(input, Uncommented(input.doc, at), m);
    forall ns: seq<Member>, end | RecordReads(input, start, ns, end) ensures false {
      RecordMust(input, start, ms, at, top, room, name, ns, end);
      MemberUnique(input, Uncommented(input.doc, at), m, ns[|ms|]);
      MembersReadAt(input, start, ns, |ms|);
    }
  }

  /** A name that denotes nothing, or no colon behind it. */
  lemma NameJudged(r: Outcome, input: Input, name: Token, depth: int)
    requires name.start <= name.end <= |input.doc|
    requires (forall text :: !Denotes(input.doc, name, text))
             || TokenOf(input.doc, SkipBlank(input.doc, name.end)).kind != MemberSeparator
    ensures MemberJudged(r, input, name, depth)
  {
    hide Denotes;
    hide Reads;
  }

  lemma ValueJudged(r: Outcome, input: Input, name: Token, depth: int)
    requires name.start <= name.end <= |input.doc|
    requires var colon := TokenOf(input.doc, SkipBlank(input.doc, name.end));
             Judged(r, input, Uncommented(input.doc, colon.end), depth)
    ensures MemberJudged(r, input, name, depth)
  {
    hide Denotes;
    hide Reads;
    hide Verdict;
  }
}
