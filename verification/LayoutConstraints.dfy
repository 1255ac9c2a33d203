/** The attributes generated from positions, and the equations a layout solver makes of them. Margins of
    centre anchors are kept doubled, which is exact with a bias of one half. */
module LayoutConstraints {
  import opened Wrappers
  import opened LayoutGraph

  datatype View = View(xleft: int, ytop: int, xright: int, ybottom: int, id: nat)

  /** The extent of a view in one orientation. */
  datatype Span = Span(start: int, end: int)

  function SpanOf(v: View, o: Orientation): Span {
    if o == Horizontal then Span(v.xleft, v.xright) else Span(v.ytop, v.ybottom)
  }

  function Size(s: Span): int {
    s.end - s.start
  }

  // ---- Margins ----

  function RelationalMargin(t: ConstraintType, a: View, b: View): int
    requires IsRelationalAnchor(t)
  {
    match t
    case T2T => a.ytop - b.ytop
    case T2B => a.ytop - b.ybottom
    case B2T => b.ytop - a.ybottom
    case B2B => b.ybottom - a.ybottom
    case L2L => a.xleft - b.xleft
    case L2R => a.xleft - b.xright
    case R2L => b.xleft - a.xright
    case R2R => b.xright - a.xright
  }

  /** Twice the margin. */
  function CenterMargin(t: ConstraintType, a: View, l: View, r: View): int
    requires IsCenterAnchor(t)
  {
    match t
    case L2LxR2R => (a.xleft + a.xright) - (l.xleft + r.xright)
    case L2RxR2L => (a.xleft + a.xright) - (l.xright + r.xleft)
    case L2LxR2L => (a.xleft + a.xright) - (l.xleft + r.xleft)
    case L2RxR2R => (a.xleft + a.xright) - (l.xright + r.xright)
    case T2TxB2T => (a.ytop + a.ybottom) - (l.ytop + r.ytop)
    case T2TxB2B => (a.ytop + a.ybottom) - (l.ytop + r.ybottom)
    case T2BxB2T => (a.ytop + a.ybottom) - (l.ybottom + r.ytop)
    case T2BxB2B => (a.ytop + a.ybottom) - (l.ybottom + r.ybottom)
  }

  // ---- Generators ----

  function RelationalTypes(o: Orientation): seq<ConstraintType> {
    if o == Horizontal then [L2L, L2R, R2L, R2R] else [T2T, T2B, B2T, B2B]
  }

  function CenterTypes(o: Orientation): seq<ConstraintType> {
    if o == Horizontal then [L2LxR2L, L2LxR2R, L2RxR2L, L2RxR2R] else [T2TxB2T, T2TxB2B, T2BxB2T, T2BxB2B]
  }

  /** The constructor for one margin: it belongs to the end that the anchor fixes. */
  function RelationalAttribute(t: ConstraintType, size: ViewSize, value: int, src: nat, primary: nat): Attribute
    requires IsRelationalAnchor(t)
  {
    if IsTypeStart(t).value then Attribute(t, size, value, 0, src, primary, None)
    else Attribute(t, size, 0, value, src, primary, None)
  }

  predicate CrossesFrame(t: ConstraintType) {
    t == T2B || t == B2T || t == L2R || t == R2L
  }

  predicate SameAnchors(t: ConstraintType) {
    t == L2LxR2L || t == L2RxR2R || t == T2TxB2T || t == T2BxB2B
  }

  function FixedRelational(src: View, v: View, t: ConstraintType): Option<Attribute>
    requires IsRelationalAnchor(t)
  {
    if v.id == src.id || (v.id == CONTENT_FRAME && CrossesFrame(t)) || RelationalMargin(t, src, v) < 0 then None
    else Some(RelationalAttribute(t, Fixed, RelationalMargin(t, src, v), src.id, v.id))
  }

  function FixedCentering(src: View, l: View, r: View, t: ConstraintType): Option<Attribute>
    requires IsCenterAnchor(t)
  {
    var twice := CenterMargin(t, src, l, r);
    // A margin below one half becomes 0; twice the margin is a whole number.
    var m := if -1 < twice < 1 then 0 else twice;
    if l.id == src.id || r.id == src.id || (l.id == r.id && m != 0 && SameAnchors(t)) then None
    else Some(Attribute(t, Fixed, if m > 0 then m else 0, if m < 0 then -m else 0, src.id, l.id, Some(r.id)))
  }

  function MatchBetween(size: ViewSize, src: View, l: View, r: View, t: ConstraintType): Option<Attribute>
    requires IsCenterAnchor(t)
  {
    var (first, second) := SplitCenterAnchor(t).value;
    var marginStart, marginEnd := RelationalMargin(first, src, l), RelationalMargin(second, src, r);
    if marginStart < 0 || marginEnd < 0 then None
    else Some(Attribute(t, size, marginStart, marginEnd, src.id, l.id, Some(r.id)))
  }

  function MatchConstraintCentering(src: View, l: View, r: View, t: ConstraintType): Option<Attribute>
    requires IsCenterAnchor(t)
  {
    if l.id == src.id || r.id == src.id then None else MatchBetween(MatchConstraint, src, l, r, t)
  }

  function MatchParentCentering(o: Orientation, src: View, parent: View): Option<Attribute> {
    MatchBetween(MatchParent, src, parent, parent, if o == Horizontal then L2LxR2R else T2TxB2B)
  }

  /** An attribute that one of the generators emits. */
  ghost predicate Relational(src: View, vs: seq<View>, types: seq<ConstraintType>, a: Attribute) {
    exists v, t :: v in vs && t in types && IsRelationalAnchor(t) && FixedRelational(src, v, t) == Some(a)
  }

  ghost predicate Paired(size: ViewSize, src: View, vs: seq<View>, ws: seq<View>, types: seq<ConstraintType>,
      a: Attribute)
  {
    exists l, r, t ::
      l in vs && r in ws && t in types && IsCenterAnchor(t) && PairAttribute(size, src, l, r, t) == Some(a)
  }

  /** The attribute of one pair of targets, for a fixed size or for match-constraint. */
  function PairAttribute(size: ViewSize, src: View, l: View, r: View, t: ConstraintType): Option<Attribute>
    requires IsCenterAnchor(t)
  {
    if size == Fixed then FixedCentering(src, l, r, t) else MatchConstraintCentering(src, l, r, t)
  }

  // The attributes in the order in which the generators emit them: for every view, or every pair of views
  // in row order, the types in turn.

  function Kept(a: Option<Attribute>): seq<Attribute> {
    if a.Some? then [a.value] else []
  }

  function RelationalOf(src: View, v: View, types: seq<ConstraintType>): seq<Attribute>
    requires forall t :: t in types ==> IsRelationalAnchor(t)
  {
    if types == [] then []
    else RelationalOf(src, v, types[..|types| - 1]) + Kept(FixedRelational(src, v, types[|types| - 1]))
  }

  function RelationalAll(src: View, vs: seq<View>, types: seq<ConstraintType>): seq<Attribute>
    requires forall t :: t in types ==> IsRelationalAnchor(t)
  {
    if vs == [] then [] else RelationalAll(src, vs[..|vs| - 1], types) + RelationalOf(src, vs[|vs| - 1], types)
  }

  function PairOf(size: ViewSize, src: View, l: View, r: View, types: seq<ConstraintType>): seq<Attribute>
    requires forall t :: t in types ==> IsCenterAnchor(t)
  {
    if types == [] then []
    else PairOf(size, src, l, r, types[..|types| - 1]) + Kept(PairAttribute(size, src, l, r, types[|types| - 1]))
  }

  function PairRow(size: ViewSize, src: View, l: View, ws: seq<View>, types: seq<ConstraintType>): seq<Attribute>
    requires forall t :: t in types ==> IsCenterAnchor(t)
  {
    if ws == [] then []
    else PairRow(size, src, l, ws[..|ws| - 1], types) + PairOf(size, src, l, ws[|ws| - 1], types)
  }

  function PairAll(size: ViewSize, src: View, vs: seq<View>, ws: seq<View>, types: seq<ConstraintType>): seq<Attribute>
    requires forall t :: t in types ==> IsCenterAnchor(t)
  {
    if vs == [] then []
    else PairAll(size, src, vs[..|vs| - 1], ws, types) + PairRow(size, src, vs[|vs| - 1], ws, types)
  }

  // ---- What is emitted, in terms of ends and distances ----

  /** The far end of a span is its right or bottom one. */
  function EndOf(s: Span, far: bool): int {
    if far then s.end else s.start
  }

  function EdgeKind(o: Orientation, srcFar: bool, targetFar: bool): ConstraintType {
    if o == Horizontal then
      if srcFar then if targetFar then R2R else R2L else if targetFar then L2R else L2L
    else
      if srcFar then if targetFar then B2B else B2T else if targetFar then T2B else T2T
  }

  function CentreKind(o: Orientation, leftFar: bool, rightFar: bool): ConstraintType {
    if o == Horizontal then
      if leftFar then if rightFar then L2RxR2R else L2RxR2L else if rightFar then L2LxR2R else L2LxR2L
    else
      if leftFar then if rightFar then T2BxB2B else T2BxB2T else if rightFar then T2TxB2B else T2TxB2T
  }

  /** An end of the view at its distance inside an end of another view.  There is none when the distance is
      negative, nor from one end to the opposite end of the content frame. */
  function EdgeAttribute(o: Orientation, src: View, v: View, srcFar: bool, targetFar: bool): Option<Attribute> {
    var s, edge := SpanOf(src, o), EndOf(SpanOf(v, o), targetFar);
    var distance := if srcFar then edge - s.end else s.start - edge;
    if v.id == src.id || distance < 0 || (v.id == CONTENT_FRAME && srcFar != targetFar) then None
    else
      Some(Attribute(EdgeKind(o, srcFar, targetFar), Fixed, if srcFar then 0 else distance,
                     if srcFar then distance else 0, src.id, v.id, None))
  }

  /** The view between an end of one view and an end of another: with a fixed size, by twice the distance of
      its middle from theirs, on the side where it is off; to match them, by its distance from both.  There is
      none of the view itself; none off the middle of one end twice, where the margin would be ignored; and
      none with a negative distance. */
  function BetweenAttribute(size: ViewSize, o: Orientation, src: View, l: View, r: View, leftFar: bool, rightFar: bool)
    : Option<Attribute>
  {
    var s, from, to := SpanOf(src, o), EndOf(SpanOf(l, o), leftFar), EndOf(SpanOf(r, o), rightFar);
    var off := (s.start + s.end) - (from + to);
    if l.id == src.id || r.id == src.id then None
    else if size == Fixed then
      if l.id == r.id && leftFar == rightFar && off != 0 then None
      else
        Some(Attribute(CentreKind(o, leftFar, rightFar), Fixed, if off > 0 then off else 0,
                       if off < 0 then -off else 0, src.id, l.id, Some(r.id)))
    else if s.start < from || to < s.end then None
    else
      Some(Attribute(CentreKind(o, leftFar, rightFar), MatchConstraint, s.start - from, to - s.end, src.id, l.id,
                     Some(r.id)))
  }

  /** For every view the four pairs of ends in turn: near and near, near and far, far and near, far and far. */
  function EdgeList(o: Orientation, src: View, vs: seq<View>): seq<Attribute> {
    if vs == [] then []
    else
      var v := vs[|vs| - 1];
      EdgeList(o, src, vs[..|vs| - 1])
      + Kept(EdgeAttribute(o, src, v, false, false)) + Kept(EdgeAttribute(o, src, v, false, true))
      + Kept(EdgeAttribute(o, src, v, true, false)) + Kept(EdgeAttribute(o, src, v, true, true))
  }

  function BetweenRow(size: ViewSize, o: Orientation, src: View, l: View, ws: seq<View>): seq<Attribute> {
    if ws == [] then []
    else
      var r := ws[|ws| - 1];
      BetweenRow(size, o, src, l, ws[..|ws| - 1])
      + Kept(BetweenAttribute(size, o, src, l, r, false, false))
      + Kept(BetweenAttribute(size, o, src, l, r, false, true))
      + Kept(BetweenAttribute(size, o, src, l, r, true, false)) + Kept(BetweenAttribute(size, o, src, l, r, true, true))
  }

  /** For every pair of views, in row order, the same four pairs of ends. */
  function BetweenList(size: ViewSize, o: Orientation, src: View, vs: seq<View>, ws: seq<View>): seq<Attribute> {
    if vs == [] then []
    else BetweenList(size, o, src, vs[..|vs| - 1], ws) + BetweenRow(size, o, src, vs[|vs| - 1], ws)
  }

  ghost predicate OnEdges(o: Orientation, src: View, vs: seq<View>, a: Attribute) {
    exists v, srcFar, targetFar :: v in vs && EdgeAttribute(o, src, v, srcFar, targetFar) == Some(a)
  }

  ghost predicate Between(size: ViewSize, o: Orientation, src: View, vs: seq<View>, ws: seq<View>, a: Attribute) {
    exists l, r, leftFar, rightFar ::
      l in vs && r in ws && BetweenAttribute(size, o, src, l, r, leftFar, rightFar) == Some(a)
  }

  lemma FixedEdges(o: Orientation, src: View, v: View)
    ensures var types := RelationalTypes(o);
            && FixedRelational(src, v, types[0]) == EdgeAttribute(o, src, v, false, false)
            && FixedRelational(src, v, types[1]) == EdgeAttribute(o, src, v, false, true)
            && FixedRelational(src, v, types[2]) == EdgeAttribute(o, src, v, true, false)
            && FixedRelational(src, v, types[3]) == EdgeAttribute(o, src, v, true, true)
  {
  }

  lemma PairEdge(size: ViewSize, o: Orientation, src: View, l: View, r: View, leftFar: bool, rightFar: bool)
    requires size != MatchParent
    ensures PairAttribute(size, src, l, r, CentreKind(o, leftFar, rightFar))
            == BetweenAttribute(size, o, src, l, r, leftFar, rightFar)
  {
  }

  lemma PairEdges(size: ViewSize, o: Orientation, src: View, l: View, r: View)
    requires size != MatchParent
    ensures var types := CenterTypes(o);
            && PairAttribute(size, src, l, r, types[0]) == BetweenAttribute(size, o, src, l, r, false, false)
            && PairAttribute(size, src, l, r, types[1]) == BetweenAttribute(size, o, src, l, r, false, true)
            && PairAttribute(size, src, l, r, types[2]) == BetweenAttribute(size, o, src, l, r, true, false)
            && PairAttribute(size, src, l, r, types[3]) == BetweenAttribute(size, o, src, l, r, true, true)
  {
    hide PairAttribute;
    hide BetweenAttribute;
    PairEdge(size, o, src, l, r, false, false);
    PairEdge(size, o, src, l, r, false, true);
    PairEdge(size, o, src, l, r, true, false);
    PairEdge(size, o, src, l, r, true, true);
  }

  lemma FourRelational(src: View, v: View, a: ConstraintType, b: ConstraintType, c: ConstraintType, d: ConstraintType)
    requires IsRelationalAnchor(a) && IsRelationalAnchor(b) && IsRelationalAnchor(c) && IsRelationalAnchor(d)
    ensures RelationalOf(src, v, [a, b, c, d])
            == Kept(FixedRelational(src, v, a)) + Kept(FixedRelational(src, v, b))
               + Kept(FixedRelational(src, v, c)) + Kept(FixedRelational(src, v, d))
  {
    hide FixedRelational;
    var types := [a, b, c, d];
    assert types[..3] == [a, b, c] && [a, b, c][..2] == [a, b] && [a, b][..1] == [a] && [a][..0] == [];
    assert RelationalOf(src, v, [a]) == Kept(FixedRelational(src, v, a));
    assert RelationalOf(src, v, [a, b]) == RelationalOf(src, v, [a]) + Kept(FixedRelational(src, v, b));
    assert RelationalOf(src, v, [a, b, c]) == RelationalOf(src, v, [a, b]) + Kept(FixedRelational(src, v, c));
  }

  lemma FourPairs(size: ViewSize, src: View, l: View, r: View, a: ConstraintType, b: ConstraintType, c: ConstraintType,
      d: ConstraintType)
    requires IsCenterAnchor(a) && IsCenterAnchor(b) && IsCenterAnchor(c) && IsCenterAnchor(d)
    ensures PairOf(size, src, l, r, [a, b, c, d])
            == Kept(PairAttribute(size, src, l, r, a)) + Kept(PairAttribute(size, src, l, r, b))
               + Kept(PairAttribute(size, src, l, r, c)) + Kept(PairAttribute(size, src, l, r, d))
  {
    hide PairAttribute;
    var types := [a, b, c, d];
    assert types[..3] == [a, b, c] && [a, b, c][..2] == [a, b] && [a, b][..1] == [a] && [a][..0] == [];
    assert PairOf(size, src, l, r, [a]) == Kept(PairAttribute(size, src, l, r, a));
    assert PairOf(size, src, l, r, [a, b]) == PairOf(size, src, l, r, [a]) + Kept(PairAttribute(size, src, l, r, b));
    assert PairOf(size, src, l, r, [a, b, c])
           == PairOf(size, src, l, r, [a, b]) + Kept(PairAttribute(size, src, l, r, c));
  }

  lemma Four<T>(init: seq<T>, a: seq<T>, b: seq<T>, c: seq<T>, d: seq<T>)
    ensures init + (a + b + c + d) == init + a + b + c + d
  {
  }

  /** The relational attributes are those of the ends. */
  lemma {:induction false} RelationalEdges(o: Orientation, src: View, vs: seq<View>)
    ensures RelationalAll(src, vs, RelationalTypes(o)) == EdgeList(o, src, vs)
  {
    hide FixedRelational;
    hide EdgeAttribute;
    hide RelationalOf;
    if vs != [] {
      var v, types := vs[|vs| - 1], RelationalTypes(o);
      RelationalEdges(o, src, vs[..|vs| - 1]);
      FixedEdges(o, src, v);
      assert types == [types[0], types[1], types[2], types[3]];
      FourRelational(src, v, types[0], types[1], types[2], types[3]);
      Four(EdgeList(o, src, vs[..|vs| - 1]), Kept(EdgeAttribute(o, src, v, false, false)),
           Kept(EdgeAttribute(o, src, v, false, true)), Kept(EdgeAttribute(o, src, v, true, false)),
           Kept(EdgeAttribute(o, src, v, true, true)));
    }
  }

  lemma {:induction false} RowEdges(size: ViewSize, o: Orientation, src: View, l: View, ws: seq<View>)
    requires size != MatchParent
    ensures PairRow(size, src, l, ws, CenterTypes(o)) == BetweenRow(size, o, src, l, ws)
  {
    hide PairAttribute;
    hide BetweenAttribute;
    hide PairOf;
    if ws != [] {
      var r, types := ws[|ws| - 1], CenterTypes(o);
      RowEdges(size, o, src, l, ws[..|ws| - 1]);
      PairEdges(size, o, src, l, r);
      assert types == [types[0], types[1], types[2], types[3]];
      FourPairs(size, src, l, r, types[0], types[1], types[2], types[3]);
      Four(BetweenRow(size, o, src, l, ws[..|ws| - 1]), Kept(BetweenAttribute(size, o, src, l, r, false, false)),
           Kept(BetweenAttribute(size, o, src, l, r, false, true)),
           Kept(BetweenAttribute(size, o, src, l, r, true, false)),
           Kept(BetweenAttribute(size, o, src, l, r, true, true)));
    }
  }

  /** The attributes of the pairs are those of the ends. */
  lemma {:induction false} AllEdges(size: ViewSize, o: Orientation, src: View, vs: seq<View>, ws: seq<View>)
    requires size != MatchParent
    ensures PairAll(size, src, vs, ws, CenterTypes(o)) == BetweenList(size, o, src, vs, ws)
  {
    hide PairRow;
    hide BetweenRow;
    if vs != [] {
      AllEdges(size, o, src, vs[..|vs| - 1], ws);
      RowEdges(size, o, src, vs[|vs| - 1], ws);
    }
  }

  // Nothing else is emitted, and nothing of it is left out.

  lemma {:induction false} RelationalOfMember(src: View, v: View, types: seq<ConstraintType>, a: Attribute)
    requires forall t :: t in types ==> IsRelationalAnchor(t)
    ensures a in RelationalOf(src, v, types) <==> Relational(src, [v], types, a)
  {
    hide FixedRelational;
    if types != [] {
      var init, last := types[..|types| - 1], types[|types| - 1];
      RelationalOfMember(src, v, init, a);
      assert types == init + [last];
      assert a in Kept(FixedRelational(src, v, last)) <==> FixedRelational(src, v, last) == Some(a);
      assert v in [v] && last in types;
    }
  }

  lemma {:induction false} RelationalMember(src: View, vs: seq<View>, types: seq<ConstraintType>, a: Attribute)
    requires forall t :: t in types ==> IsRelationalAnchor(t)
    ensures a in RelationalAll(src, vs, types) <==> Relational(src, vs, types, a)
  {
    hide FixedRelational;
    hide RelationalOf;
    if vs != [] {
      var init, last := vs[..|vs| - 1], vs[|vs| - 1];
      RelationalMember(src, init, types, a);
      RelationalOfMember(src, last, types, a);
      assert vs == init + [last];
    }
  }

  lemma {:induction false} PairOfMember(size: ViewSize, src: View, l: View, r: View, types: seq<ConstraintType>,
      a: Attribute)
    requires forall t :: t in types ==> IsCenterAnchor(t)
    ensures a in PairOf(size, src, l, r, types) <==> Paired(size, src, [l], [r], types, a)
  {
    hide PairAttribute;
    if types != [] {
      var init, last := types[..|types| - 1], types[|types| - 1];
      PairOfMember(size, src, l, r, init, a);
      assert types == init + [last];
      assert a in Kept(PairAttribute(size, src, l, r, last)) <==> PairAttribute(size, src, l, r, last) == Some(a);
      assert l in [l] && r in [r] && last in types;
    }
  }

  lemma {:induction false} PairRowMember(size: ViewSize, src: View, l: View, ws: seq<View>,
      types: seq<ConstraintType>, a: Attribute)
    requires forall t :: t in types ==> IsCenterAnchor(t)
    ensures a in PairRow(size, src, l, ws, types) <==> Paired(size, src, [l], ws, types, a)
  {
    hide PairAttribute;
    hide PairOf;
    if ws != [] {
      var init, last := ws[..|ws| - 1], ws[|ws| - 1];
      PairRowMember(size, src, l, init, types, a);
      PairOfMember(size, src, l, last, types, a);
      assert ws == init + [last];
    }
  }

  lemma {:induction false} PairMember(size: ViewSize, src: View, vs: seq<View>, ws: seq<View>,
      types: seq<ConstraintType>, a: Attribute)
    requires forall t :: t in types ==> IsCenterAnchor(t)
    ensures a in PairAll(size, src, vs, ws, types) <==> Paired(size, src, vs, ws, types, a)
  {
    hide PairAttribute;
    hide PairRow;
    if vs != [] {
      var init, last := vs[..|vs| - 1], vs[|vs| - 1];
      PairMember(size, src, init, ws, types, a);
      PairRowMember(size, src, last, ws, types, a);
      assert vs == init + [last];
    }
  }

  lemma RelationalByEdges(o: Orientation, src: View, views: seq<View>, a: Attribute)
    ensures Relational(src, views, RelationalTypes(o), a) <==> OnEdges(o, src, views, a)
  {
    hide FixedRelational;
    hide EdgeAttribute;
    var types := RelationalTypes(o);
    forall v | v in views {
      FixedEdges(o, src, v);
    }
    if v, srcFar, targetFar :| v in views && EdgeAttribute(o, src, v, srcFar, targetFar) == Some(a) {
      var t := types[(if srcFar then 2 else 0) + (if targetFar then 1 else 0)];
      assert t in types && FixedRelational(src, v, t) == Some(a);
    }
    if v, t :| v in views && t in types && IsRelationalAnchor(t) && FixedRelational(src, v, t) == Some(a) {
      assert t == types[0] || t == types[1] || t == types[2] || t == types[3];
    }
  }

  lemma PairedEdges(size: ViewSize, o: Orientation, src: View, views: seq<View>, a: Attribute)
    requires size != MatchParent
    ensures Paired(size, src, views, views, CenterTypes(o), a) <==> Between(size, o, src, views, views, a)
  {
    hide PairAttribute;
    hide BetweenAttribute;
    var types := CenterTypes(o);
    if l, r, leftFar, rightFar :|
      l in views && r in views && BetweenAttribute(size, o, src, l, r, leftFar, rightFar) == Some(a)
    {
      PairEdges(size, o, src, l, r);
      var t := types[(if leftFar then 2 else 0) + (if rightFar then 1 else 0)];
      assert t in types && PairAttribute(size, src, l, r, t) == Some(a);
    }
    if l, r, t :|
      l in views && r in views && t in types && IsCenterAnchor(t) && PairAttribute(size, src, l, r, t) == Some(a)
    {
      PairEdges(size, o, src, l, r);
      assert t == types[0] || t == types[1] || t == types[2] || t == types[3];
    }
  }

  lemma BetweenMembers(size: ViewSize, o: Orientation, src: View, views: seq<View>)
    requires size != MatchParent
    ensures var out := BetweenList(size, o, src, views, views);
            && (forall a :: a in out <==> Paired(size, src, views, views, CenterTypes(o), a))
            && (forall a :: a in out <==> Between(size, o, src, views, views, a))
  {
    hide Paired;
    hide PairAll;
    hide BetweenList;
    hide BetweenAttribute;
    AllEdges(size, o, src, views, views);
    hide Between;
    var out := BetweenList(size, o, src, views, views);
    forall a
      ensures a in out <==> Paired(size, src, views, views, CenterTypes(o), a)
      ensures a in out <==> Between(size, o, src, views, views, a)
    {
      PairMember(size, src, views, views, CenterTypes(o), a);
      PairedEdges(size, o, src, views, a);
    }
  }

  lemma Prefix<T>(s: seq<T>, i: nat)
    requires i < |s|
    ensures s[..i + 1] == s[..i] + [s[i]] && s[..i + 1][..i] == s[..i]
  {
  }

  /** The relational attributes with one target. */
  method RelationalTo(src: View, v: View, types: seq<ConstraintType>) returns (out: seq<Attribute>)
    requires forall t :: t in types ==> IsRelationalAnchor(t)
    ensures out == RelationalOf(src, v, types)
  {
    hide FixedRelational;
    out := [];
    for k := 0 to |types|
      invariant out == RelationalOf(src, v, types[..k])
    {
      Prefix(types, k);
      var a := FixedRelational(src, v, types[k]);
      if a.Some? {
        out := out + [a.value];
      }
    }
    assert types[..|types|] == types;
  }

  /** For every view the types in turn, and of these the attributes that there are. */
  method GenFixedSizeRelationalConstraints(o: Orientation, src: View, views: seq<View>) returns (out: seq<Attribute>)
    ensures out == EdgeList(o, src, views)
    ensures forall a :: a in out <==> OnEdges(o, src, views, a)
    ensures forall a :: a in out <==> Relational(src, views, RelationalTypes(o), a)
  {
    hide OnEdges;
    hide RelationalOf;
    hide Relational;
    out := [];
    var types := RelationalTypes(o);
    for i := 0 to |views|
      invariant out == RelationalAll(src, views[..i], types)
    {
      Prefix(views, i);
      var one := RelationalTo(src, views[i], types);
      out := out + one;
    }
    assert views[..|views|] == views;
    RelationalEdges(o, src, views);
    forall a ensures a in out <==> Relational(src, views, types, a) {
      RelationalMember(src, views, types, a);
    }
    forall a ensures Relational(src, views, types, a) <==> OnEdges(o, src, views, a) {
      RelationalByEdges(o, src, views, a);
    }
  }

  /** The centring attributes of one pair of views. */
  method CenterPair(src: View, l: View, r: View, types: seq<ConstraintType>) returns (out: seq<Attribute>)
    requires forall t :: t in types ==> IsCenterAnchor(t)
    ensures out == PairOf(Fixed, src, l, r, types)
  {
    hide FixedCentering;
    out := [];
    for k := 0 to |types|
      invariant out == PairOf(Fixed, src, l, r, types[..k])
    {
      Prefix(types, k);
      var a := FixedCentering(src, l, r, types[k]);
      if a.Some? {
        out := out + [a.value];
      }
    }
    assert types[..|types|] == types;
  }

  /** For every pair of views, in row order, the types in turn. */
  method GenFixedSizeCenteringConstraints(o: Orientation, src: View, views: seq<View>)
    returns (out: seq<Attribute>)
    ensures out == BetweenList(Fixed, o, src, views, views)
    ensures forall a :: a in out <==> Between(Fixed, o, src, views, views, a)
    ensures forall a :: a in out <==> Paired(Fixed, src, views, views, CenterTypes(o), a)
  {
    hide PairOf;
    hide Paired;
    hide BetweenAttribute;
    hide BetweenList;
    out := [];
    var types := CenterTypes(o);
    for i := 0 to |views|
      invariant out == PairAll(Fixed, src, views[..i], views, types)
    {
      Prefix(views, i);
      ghost var before := out;
      for j := 0 to |views|
        invariant out == before + PairRow(Fixed, src, views[i], views[..j], types)
      {
        Prefix(views, j);
        var pair := CenterPair(src, views[i], views[j], types);
        out := out + pair;
      }
      assert views[..|views|] == views;
    }
    assert views[..|views|] == views;
    AllEdges(Fixed, o, src, views, views);
    BetweenMembers(Fixed, o, src, views);
  }

  /** The match-constraint attributes of one pair of views. */
  method MatchPair(src: View, l: View, r: View, types: seq<ConstraintType>) returns (out: seq<Attribute>)
    requires forall t :: t in types ==> IsCenterAnchor(t)
    ensures out == PairOf(MatchConstraint, src, l, r, types)
  {
    hide MatchConstraintCentering;
    out := [];
    for k := 0 to |types|
      invariant out == PairOf(MatchConstraint, src, l, r, types[..k])
    {
      Prefix(types, k);
      var a := MatchConstraintCentering(src, l, r, types[k]);
      if a.Some? {
        out := out + [a.value];
      }
    }
    assert types[..|types|] == types;
  }

  /** For every pair of views, in row order, the types in turn. */
  method GenMatchConstraintCenteringConstraints(o: Orientation, src: View, views: seq<View>)
    returns (out: seq<Attribute>)
    ensures out == BetweenList(MatchConstraint, o, src, views, views)
    ensures forall a :: a in out <==> Between(MatchConstraint, o, src, views, views, a)
    ensures forall a :: a in out <==> Paired(MatchConstraint, src, views, views, CenterTypes(o), a)
  {
    hide PairOf;
    hide Paired;
    hide BetweenAttribute;
    hide BetweenList;
    out := [];
    var types := CenterTypes(o);
    for i := 0 to |views|
      invariant out == PairAll(MatchConstraint, src, views[..i], views, types)
    {
      Prefix(views, i);
      ghost var before := out;
      for j := 0 to |views|
        invariant out == before + PairRow(MatchConstraint, src, views[i], views[..j], types)
      {
        Prefix(views, j);
        var pair := MatchPair(src, views[i], views[j], types);
        out := out + pair;
      }
      assert views[..|views|] == views;
    }
    assert views[..|views|] == views;
    AllEdges(MatchConstraint, o, src, views, views);
    BetweenMembers(MatchConstraint, o, src, views);
  }

  /** One attribute, whose margins are the view's distances to the two ends of the content frame, and none
      if the view sticks out of the frame. */
  method GenMatchParentCenteringConstraints(o: Orientation, src: View, views: seq<View>) returns (out: seq<Attribute>)
    requires |views| > 0 && views[0].id == CONTENT_FRAME
    ensures var s, frame := SpanOf(src, o), SpanOf(views[0], o);
            if Inside(s, frame) then
              out == [Attribute(if o == Horizontal then L2LxR2R else T2TxB2B, MatchParent,
                                s.start - frame.start, frame.end - s.end, src.id, CONTENT_FRAME, Some(CONTENT_FRAME))]
            else out == []
    ensures forall a :: a in out <==> MatchParentCentering(o, src, views[0]) == Some(a)
  {
    var a := MatchParentCentering(o, src, views[0]);
    out := if a.Some? then [a.value] else [];
  }

  /** What the generators emit for a view. */
  ghost predicate Generated(o: Orientation, src: View, views: seq<View>, a: Attribute)
    requires |views| > 0
  {
    || Relational(src, views, RelationalTypes(o), a)
    || Paired(Fixed, src, views, views, CenterTypes(o), a)
    || Paired(MatchConstraint, src, views, views, CenterTypes(o), a)
    || MatchParentCentering(o, src, views[0]) == Some(a)
  }

  // ---- The solver's equations ----

  /** The side of the target that an anchor names. */
  function AnchorPoint(t: ConstraintType, target: Span): int
    requires IsRelationalAnchor(t)
  {
    match t
    case L2L | T2T | R2L | B2T => target.start
    case L2R | T2B | R2R | B2B => target.end
  }

  /** round_real2int. */
  function Round(x: real): int {
    (x + 0.5).Floor
  }

  /** Whether the middle of s, with a bias of one half, is the middle between two points after rounding. */
  predicate Centered(from: int, to: int, s: Span) {
    Round((from + to) as real / 2.0 - (s.start + s.end) as real / 2.0) == 0
  }

  predicate RelationalEquation(t: ConstraintType, a: Attribute, s: Span, target: Span)
    requires IsRelationalAnchor(t)
  {
    if IsTypeStart(t).value then s.start == AnchorPoint(t, target) + a.valuePrimary
    else s.end == AnchorPoint(t, target) - a.valueSecondary
  }

  predicate CenteringEquation(a: Attribute, s: Span, l: Span, r: Span)
    requires IsCenterAnchor(a.kind) && a.secondary.Some?
  {
    var (first, second) := SplitCenterAnchor(a.kind).value;
    var from, to := AnchorPoint(first, l), AnchorPoint(second, r);
    if SameAnchors(a.kind) && a.primary == a.secondary.value then
      a.valuePrimary == 0 && a.valueSecondary == 0 && Centered(from, to, s)
    else
      && Centered(from + a.valuePrimary, to - a.valueSecondary, s)
      && (OnFrame(a) ==> a.valuePrimary <= s.start - l.start && a.valueSecondary <= r.end - s.end)
  }

  /** Centred on both sides of the content frame, where the solver follows Android's own behaviour. */
  predicate OnFrame(a: Attribute) {
    (a.kind == L2LxR2R || a.kind == T2TxB2B) && a.primary == CONTENT_FRAME && a.secondary == Some(CONTENT_FRAME)
  }

  /** What an attribute says about a view of the given size.  A view that matches its parent keeps its margins
      to both ends of the content frame, as constraints.h:87-88 has it; the solver's source has no equation of
      its own for that. */
  predicate Equation(a: Attribute, size: int, s: Span, l: Span, r: Span)
    requires ValidAttribute(a)
  {
    if IsRelationalAnchor(a.kind) then RelationalEquation(a.kind, a, s, l) && s.end - s.start == size
    else if a.viewSize == Fixed then CenteringEquation(a, s, l, r) && s.end - s.start == size
    else
      var (first, second) := SplitCenterAnchor(a.kind).value;
      RelationalEquation(first, a, s, l) && RelationalEquation(second, a, s, r)
  }

  function Secondary(a: Attribute): nat {
    if a.secondary.Some? then a.secondary.value else a.primary
  }

  /** A layout, by view id. */
  type Layout = map<nat, Span>

  predicate UniqueIds(views: seq<View>) {
    forall v, w :: v in views && w in views && v.id == w.id ==> v == w
  }

  function Original(views: seq<View>, o: Orientation): Layout
    requires UniqueIds(views)
  {
    map v | v in views :: v.id := SpanOf(v, o)
  }

  /** A layout solves the system when it keeps the content frame and satisfies every other view's attribute. */
  ghost predicate Solves(x: Layout, g: Graph, views: seq<View>, o: Orientation)
    requires ValidGraph(g) && UniqueIds(views)
  {
    && (forall v :: v in views ==> v.id in x)
    && (forall v :: v in views && v.id == CONTENT_FRAME ==> x[v.id] == SpanOf(v, o))
    && (forall v :: v in views && v.id != CONTENT_FRAME && v.id in g ==>
          var a := g[v.id];
          && a.primary in x && Secondary(a) in x
          && Equation(a, Size(SpanOf(v, o)), x[v.id], x[a.primary], x[Secondary(a)]))
  }

  /** Every view's attribute comes from the generators. */
  ghost predicate FromGenerators(g: Graph, views: seq<View>, o: Orientation)
    requires |views| > 0
  {
    forall v :: v in views && v.id in g ==> Generated(o, v, views, g[v.id])
  }

  // ---- The original layout is the only solution ----

  lemma CenteredExactly(from: int, to: int, s: Span)
    ensures Centered(from, to, s) <==> -1 <= (from + to) - (s.start + s.end) <= 0
  {
    var d := (from + to) - (s.start + s.end);
    assert (from + to) as real / 2.0 - (s.start + s.end) as real / 2.0 == d as real / 2.0;
  }

  /** A relational attribute is true of the original positions, and of no other position of the view. */
  lemma RelationalExact(o: Orientation, src: View, v: View, t: ConstraintType, a: Attribute, s: Span)
    requires t in RelationalTypes(o) && FixedRelational(src, v, t) == Some(a)
    ensures ValidAttribute(a) && a.primary == v.id && Secondary(a) == v.id && !OnFrame(a)
    ensures Equation(a, Size(SpanOf(src, o)), s, SpanOf(v, o), SpanOf(v, o)) <==> s == SpanOf(src, o)
  {
  }

  /** So are match-parent and match-constraint attributes. */
  lemma MatchExact(o: Orientation, size: ViewSize, src: View, l: View, r: View, t: ConstraintType, a: Attribute,
                   s: Span)
    requires t in CenterTypes(o) && size != Fixed && MatchBetween(size, src, l, r, t) == Some(a)
    ensures ValidAttribute(a) && a.primary == l.id && Secondary(a) == r.id && a.viewSize == size
    ensures Equation(a, Size(SpanOf(src, o)), s, SpanOf(l, o), SpanOf(r, o)) <==> s == SpanOf(src, o)
  {
  }

  predicate Inside(s: Span, frame: Span) {
    frame.start <= s.start && s.end <= frame.end
  }

  /** Twice the margin is the distance between the doubled middles. */
  lemma CenterMarginExact(o: Orientation, src: View, l: View, r: View, t: ConstraintType)
    requires t in CenterTypes(o)
    ensures var (first, second) := SplitCenterAnchor(t).value;
            CenterMargin(t, src, l, r)
            == SpanOf(src, o).start + SpanOf(src, o).end
               - AnchorPoint(first, SpanOf(l, o)) - AnchorPoint(second, SpanOf(r, o))
  {
  }

  /** A centring attribute is true of no other position; of the original one it is, unless both targets are
      the content frame and the view sticks out of it. */
  lemma CenteringExact(o: Orientation, src: View, l: View, r: View, t: ConstraintType, a: Attribute, s: Span)
    requires t in CenterTypes(o) && FixedCentering(src, l, r, t) == Some(a)
    requires l.id == r.id ==> l == r
    ensures ValidAttribute(a) && a.primary == l.id && Secondary(a) == r.id && a.viewSize == Fixed
    ensures Equation(a, Size(SpanOf(src, o)), s, SpanOf(l, o), SpanOf(r, o)) <==>
            s == SpanOf(src, o) && (OnFrame(a) ==> Inside(s, SpanOf(l, o)))
  {
    var (first, second) := SplitCenterAnchor(t).value;
    var from, to := AnchorPoint(first, SpanOf(l, o)), AnchorPoint(second, SpanOf(r, o));
    var m := CenterMargin(t, src, l, r);
    var orig := SpanOf(src, o);
    CenterMarginExact(o, src, l, r, t);
    hide CenterMargin;
    hide AnchorPoint;
    hide SpanOf;
    CenteredExactly(from + a.valuePrimary, to - a.valueSecondary, s);
    CenteredExactly(from, to, s);
    assert a.valuePrimary - a.valueSecondary == m;
    hide Centered;
  }

  lemma FrameTargets(a: Attribute)
    ensures OnFrame(a) ==> a.primary == CONTENT_FRAME
  {
  }

  /** A pair of targets, whether for a fixed size or for match-constraint. */
  lemma PairedExact(o: Orientation, size: ViewSize, src: View, views: seq<View>, a: Attribute, s: Span)
    returns (l: View, r: View)
    requires |views| > 0 && views[0].id == CONTENT_FRAME && UniqueIds(views)
    requires size != MatchParent && Paired(size, src, views, views, CenterTypes(o), a)
    ensures ValidAttribute(a) && l in views && r in views && l.id == a.primary && r.id == Secondary(a)
    ensures Equation(a, Size(SpanOf(src, o)), s, SpanOf(l, o), SpanOf(r, o)) <==>
            s == SpanOf(src, o) && (a.viewSize == Fixed && OnFrame(a) ==> Inside(s, SpanOf(views[0], o)))
  {
    hide Equation;
    hide SpanOf;
    hide Inside;
    hide FixedCentering;
    hide MatchBetween;
    hide OnFrame;
    var t;
    l, r, t :| l in views && r in views && t in CenterTypes(o) && PairAttribute(size, src, l, r, t) == Some(a);
    if size == Fixed {
      CenteringExact(o, src, l, r, t, a, s);
      FrameTargets(a);
    } else {
      MatchExact(o, size, src, l, r, t, a, s);
    }
  }

  /** What the equation of a generated attribute says, once its targets are where they were. */
  lemma GeneratedExact(o: Orientation, src: View, views: seq<View>, a: Attribute, s: Span)
    returns (l: View, r: View)
    requires |views| > 0 && views[0].id == CONTENT_FRAME && UniqueIds(views)
    requires Generated(o, src, views, a)
    ensures ValidAttribute(a) && l in views && r in views && l.id == a.primary && r.id == Secondary(a)
    ensures Equation(a, Size(SpanOf(src, o)), s, SpanOf(l, o), SpanOf(r, o)) <==>
            s == SpanOf(src, o) && (a.viewSize == Fixed && OnFrame(a) ==> Inside(s, SpanOf(views[0], o)))
  {
    hide Equation;
    hide SpanOf;
    hide Inside;
    hide FixedRelational;
    hide Paired;
    hide MatchBetween;
    hide OnFrame;
    if Relational(src, views, RelationalTypes(o), a) {
      var t;
      l, t :| l in views && t in RelationalTypes(o) && IsRelationalAnchor(t) && FixedRelational(src, l, t) == Some(a);
      RelationalExact(o, src, l, t, a, s);
      r := l;
    } else if Paired(Fixed, src, views, views, CenterTypes(o), a) {
      l, r := PairedExact(o, Fixed, src, views, a, s);
    } else if Paired(MatchConstraint, src, views, views, CenterTypes(o), a) {
      l, r := PairedExact(o, MatchConstraint, src, views, a, s);
    } else {
      l, r := views[0], views[0];
      MatchExact(o, MatchParent, src, l, r, if o == Horizontal then L2LxR2R else T2TxB2B, a, s);
    }
  }

  /** Every solution has every view where it was. */
  lemma SolutionIsOriginal(g: Graph, views: seq<View>, o: Orientation, x: Layout, v: View)
    requires |views| > 0 && views[0].id == CONTENT_FRAME && UniqueIds(views)
    requires ValidGraph(g) && FromGenerators(g, views, o) && Acyclic(Cut(g))
    requires v in views && Anchored(g, v.id) && Solves(x, g, views, o)
    ensures x[v.id] == SpanOf(v, o)
    decreases ReachSet(Cut(g), v.id)
  {
    if v.id != CONTENT_FRAME {
      AnchoredStep(g, v.id);
      var a := g[v.id];
      var l, r := GeneratedExact(o, v, views, a, x[v.id]);
      assert Targets(Cut(g), v.id) == Ends(a);
      ReachSetShrinks(Cut(g), v.id, l.id);
      ReachSetShrinks(Cut(g), v.id, r.id);
      SolutionIsOriginal(g, views, o, x, l);
      SolutionIsOriginal(g, views, o, x, r);
    }
  }

  /** The original layout is a solution if and only if every view of fixed size that is centred on both
      sides of the content frame lies within it. */
  lemma OriginalSolves(g: Graph, views: seq<View>, o: Orientation)
    requires |views| > 0 && views[0].id == CONTENT_FRAME && UniqueIds(views)
    requires ValidGraph(g) && FromGenerators(g, views, o)
    ensures Solves(Original(views, o), g, views, o) <==> CentredInside(g, views, o)
  {
    hide Equation;
    hide Generated;
    hide Inside;
    hide SpanOf;
    var x := Original(views, o);
    forall v | v in views && v.id != CONTENT_FRAME && v.id in g
      ensures var a := g[v.id];
              && a.primary in x && Secondary(a) in x
              && (Equation(a, Size(SpanOf(v, o)), x[v.id], x[a.primary], x[Secondary(a)]) <==>
                  (a.viewSize == Fixed && OnFrame(a) ==> Inside(SpanOf(v, o), SpanOf(views[0], o))))
    {
      var l, r := GeneratedExact(o, v, views, g[v.id], x[v.id]);
    }
  }

  ghost predicate CentredInside(g: Graph, views: seq<View>, o: Orientation)
    requires |views| > 0
  {
    forall v :: v in views && v.id != CONTENT_FRAME && v.id in g && g[v.id].viewSize == Fixed && OnFrame(g[v.id]) ==>
      Inside(SpanOf(v, o), SpanOf(views[0], o))
  }

  /** An acyclic, anchored system has the original layout as its one solution, or none: it has one exactly
      when no view that is centred on both sides of the content frame sticks out of it. */
  lemma OneSolution(g: Graph, views: seq<View>, o: Orientation, x: Layout)
    requires |views| > 0 && views[0].id == CONTENT_FRAME && UniqueIds(views)
    requires ValidGraph(g) && FromGenerators(g, views, o) && Acyclic(Cut(g))
    requires forall v :: v in views ==> Anchored(g, v.id)
    requires x.Keys == set v | v in views :: v.id
    ensures Solves(x, g, views, o) <==> x == Original(views, o) && CentredInside(g, views, o)
  {
    hide Equation;
    hide Anchored;
    hide FromGenerators;
    hide CentredInside;
    hide SpanOf;
    OriginalSolves(g, views, o);
    if Solves(x, g, views, o) {
      forall v | v in views ensures x[v.id] == Original(views, o)[v.id] {
        SolutionIsOriginal(g, views, o, x, v);
      }
      assert x == Original(views, o);
    }
  }

  /** A view that is centred on the frame and sticks out of it: the generated system has no solution. */
  lemma CentredOutside()
    ensures var frame, v := View(0, 0, 10, 10, 0), View(2, 0, 14, 10, 1);
            var a := Attribute(L2LxR2R, Fixed, 6, 0, 1, 0, Some(0));
            && Generated(Horizontal, v, [frame, v], a)
            && forall x :: x == Original([frame, v], Horizontal) ==> !Solves(x, map[1 := a], [frame, v], Horizontal)
  {
    var frame, v := View(0, 0, 10, 10, 0), View(2, 0, 14, 10, 1);
    var a := Attribute(L2LxR2R, Fixed, 6, 0, 1, 0, Some(0));
    assert PairAttribute(Fixed, v, frame, frame, L2LxR2R) == Some(a);
    assert CenterTypes(Horizontal)[1] == L2LxR2R;
    assert frame in [frame, v] && v in [frame, v];
    assert Paired(Fixed, v, [frame, v], [frame, v], CenterTypes(Horizontal), a);
    forall x | x == Original([frame, v], Horizontal) ensures !Solves(x, map[1 := a], [frame, v], Horizontal) {
      assert x[0] == Span(0, 10) && x[1] == Span(2, 14);
    }
  }
}
