/** The constraint graph of one orientation: views by id, each with at most one attribute that refers to one
    or two target views. */
module LayoutGraph {
  import opened Wrappers

  // ---- Attributes ----

  datatype Orientation = Horizontal | Vertical

  datatype ConstraintType =
    | L2L | L2R | R2L | R2R
    | T2T | T2B | B2T | B2B
    | L2LxR2L | L2LxR2R | L2RxR2L | L2RxR2R
    | T2TxB2T | T2TxB2B | T2BxB2T | T2BxB2B

  datatype ViewSize = Fixed | MatchConstraint | MatchParent

  /** src is the id of the view that has the attribute; the targets are ids, too. */
  datatype Attribute = Attribute(kind: ConstraintType, viewSize: ViewSize, valuePrimary: int, valueSecondary: int,
                                 src: nat, primary: nat, secondary: Option<nat>)

  predicate IsRelationalAnchor(t: ConstraintType) {
    t.L2L? || t.L2R? || t.R2L? || t.R2R? || t.T2T? || t.T2B? || t.B2T? || t.B2B?
  }

  predicate IsCenterAnchor(t: ConstraintType) {
    !IsRelationalAnchor(t)
  }

  /** None where the original aborts. */
  function IsTypeStart(t: ConstraintType): Option<bool> {
    match t
    case L2L | L2R | T2T | T2B => Some(true)
    case R2L | R2R | B2T | B2B => Some(false)
    case _ => None
  }

  function ToOrientation(t: ConstraintType): Orientation {
    match t
    case L2L | L2R | R2L | R2R | L2LxR2L | L2LxR2R | L2RxR2L | L2RxR2R => Horizontal
    case _ => Vertical
  }

  function SplitCenterAnchor(t: ConstraintType): Option<(ConstraintType, ConstraintType)> {
    match t
    case L2LxR2L => Some((L2L, R2L))
    case L2LxR2R => Some((L2L, R2R))
    case L2RxR2L => Some((L2R, R2L))
    case L2RxR2R => Some((L2R, R2R))
    case T2TxB2T => Some((T2T, B2T))
    case T2TxB2B => Some((T2T, B2B))
    case T2BxB2T => Some((T2B, B2T))
    case T2BxB2B => Some((T2B, B2B))
    case _ => None
  }

  function GetCenterAnchor(start: ConstraintType, end: ConstraintType): Option<ConstraintType> {
    if start == L2L && end == R2L then Some(L2LxR2L)
    else if start == L2L && end == R2R then Some(L2LxR2R)
    else if start == L2R && end == R2L then Some(L2RxR2L)
    else if start == L2R && end == R2R then Some(L2RxR2R)
    else if start == T2T && end == B2T then Some(T2TxB2T)
    else if start == T2T && end == B2B then Some(T2TxB2B)
    else if start == T2B && end == B2T then Some(T2BxB2T)
    else if start == T2B && end == B2B then Some(T2BxB2B)
    else None
  }

  /** Splitting and joining are inverse: between the centre anchors, and the pairs of a start and an end
      anchor of one orientation. */
  lemma SplitThenJoin(t: ConstraintType)
    ensures SplitCenterAnchor(t).Some? <==> IsCenterAnchor(t)
    ensures IsCenterAnchor(t) ==>
              var (start, end) := SplitCenterAnchor(t).value;
              GetCenterAnchor(start, end) == Some(t) && ToOrientation(start) == ToOrientation(t)
  {
  }

  lemma JoinThenSplit(start: ConstraintType, end: ConstraintType)
    ensures GetCenterAnchor(start, end).Some? <==>
            && IsTypeStart(start) == Some(true) && IsTypeStart(end) == Some(false)
            && ToOrientation(start) == ToOrientation(end)
    ensures GetCenterAnchor(start, end).Some? ==>
              SplitCenterAnchor(GetCenterAnchor(start, end).value) == Some((start, end))
  {
  }

  // ---- Graphs and paths ----

  /** The attributes of one orientation, by view id. */
  type Graph = map<nat, Attribute>

  /** A centre anchor has a secondary target, as the constructor of Attribute checks. */
  predicate ValidAttribute(a: Attribute) {
    IsCenterAnchor(a.kind) <==> a.secondary.Some?
  }

  predicate ValidGraph(g: Graph) {
    forall v :: v in g ==> ValidAttribute(g[v]) && g[v].src == v
  }

  function Ends(a: Attribute): set<nat> {
    {a.primary} + if a.secondary.Some? then {a.secondary.value} else {}
  }

  function Targets(g: Graph, v: nat): set<nat> {
    if v in g then Ends(g[v]) else {}
  }

  predicate Path(g: Graph, p: seq<nat>) {
    |p| > 0 && forall i :: 0 <= i < |p| - 1 ==> p[i + 1] in Targets(g, p[i])
  }

  ghost predicate Reaches(g: Graph, v: nat, w: nat) {
    exists p :: Path(g, p) && p[0] == v && p[|p| - 1] == w
  }

  ghost predicate Acyclic(g: Graph) {
    forall v, t :: t in Targets(g, v) ==> !Reaches(g, t, v)
  }

  lemma ReachesSelf(g: Graph, v: nat)
    ensures Reaches(g, v, v)
  {
    assert Path(g, [v]);
  }

  lemma ReachesTrans(g: Graph, u: nat, v: nat, w: nat)
    requires Reaches(g, u, v) && Reaches(g, v, w)
    ensures Reaches(g, u, w)
  {
    var p :| Path(g, p) && p[0] == u && p[|p| - 1] == v;
    var q :| Path(g, q) && q[0] == v && q[|q| - 1] == w;
    var r := p + q[1..];
    assert forall i :: |p| - 1 <= i < |r| ==> r[i] == q[i - (|p| - 1)];
    assert Path(g, r);
  }

  lemma ReachesTarget(g: Graph, v: nat, t: nat)
    requires t in Targets(g, v)
    ensures Reaches(g, v, t)
  {
    assert Path(g, [v, t]);
  }

  /** A view reaches itself, and what its targets reach. */
  lemma ReachesStep(g: Graph, v: nat, w: nat)
    ensures Reaches(g, v, w) <==> v == w || exists t :: t in Targets(g, v) && Reaches(g, t, w)
  {
    if Reaches(g, v, w) && v != w {
      var p :| Path(g, p) && p[0] == v && p[|p| - 1] == w;
      var q := p[1..];
      assert Path(g, q) && q[0] == p[1] && q[|q| - 1] == w;
      assert p[1] in Targets(g, v) && Reaches(g, p[1], w);
    }
    if v == w {
      ReachesSelf(g, v);
    }
    if t :| t in Targets(g, v) && Reaches(g, t, w) {
      ReachesTarget(g, v, t);
      ReachesTrans(g, v, t, w);
    }
  }

  /** A set closed under targets holds what its members reach. */
  lemma {:induction false} ClosedHolds(g: Graph, s: set<nat>, p: seq<nat>)
    requires Path(g, p) && p[0] in s && forall v :: v in s ==> Targets(g, v) <= s
    ensures p[|p| - 1] in s
    decreases |p|
  {
    if |p| > 1 {
      assert p[1] in Targets(g, p[0]);
      assert Path(g, p[1..]);
      ClosedHolds(g, s, p[1..]);
    }
  }

  // ---- ReferencedNodes ----

  function Mentioned(g: Graph): set<nat> {
    set v, t | v in g && t in Ends(g[v]) :: t
  }

  /** Depth-first search over a set of visited ids that every call extends. */
  method ReferencedNodesInner(g: Graph, v: nat, visited: set<nat>) returns (r: set<nat>)
    requires ValidGraph(g) && v !in visited
    ensures visited + {v} <= r
    ensures forall w :: w in r && w !in visited ==> Reaches(g, v, w) && Targets(g, w) <= r
    decreases Mentioned(g) + {v} - visited
  {
    r := visited + {v};
    ReachesSelf(g, v);
    if v !in g {
      return;
    }
    var attr := g[v];
    assert attr.primary in Targets(g, v) && attr.primary in Mentioned(g);
    if IsRelationalAnchor(attr.kind) {
      if attr.primary !in r {
        r := ReferencedNodesInner(g, attr.primary, r);
      }
    } else {
      assert attr.secondary.value in Targets(g, v) && attr.secondary.value in Mentioned(g);
      if attr.primary !in r {
        r := ReferencedNodesInner(g, attr.primary, r);
      }
      if attr.secondary.value !in r {
        r := ReferencedNodesInner(g, attr.secondary.value, r);
      }
    }
    forall w | w in r && w !in visited ensures Reaches(g, v, w) {
      ReachesStep(g, v, w);
    }
  }

  /** Exactly the ids that the view reaches, itself among them, on every graph. */
  method ReferencedNodes(g: Graph, v: nat) returns (r: set<nat>)
    requires ValidGraph(g)
    ensures forall w :: w in r <==> Reaches(g, v, w)
  {
    r := ReferencedNodesInner(g, v, {});
    forall w | Reaches(g, v, w) ensures w in r {
      var p :| Path(g, p) && p[0] == v && p[|p| - 1] == w;
      ClosedHolds(g, r, p);
    }
  }

  // ---- Circular relations ----

  ghost predicate Circular(g: Graph, v: nat, attr: Attribute) {
    exists t :: t in Ends(attr) && Reaches(g, t, v)
  }

  method IsCircularRelation(g: Graph, v: nat, attr: Attribute) returns (circular: bool)
    requires ValidGraph(g) && ValidAttribute(attr)
    ensures circular <==> Circular(g, v, attr)
  {
    var s := ReferencedNodes(g, attr.primary);
    if IsRelationalAnchor(attr.kind) {
      return v in s;
    }
    if v in s {
      return true;
    }
    s := ReferencedNodes(g, attr.secondary.value);
    return v in s;
  }

  /** A path to v never needs the attribute of v. */
  lemma {:induction false} FirstVisit(g: Graph, g': Graph, v: nat, p: seq<nat>)
    requires Path(g', p) && p[|p| - 1] == v
    requires forall w :: w != v ==> Targets(g', w) == Targets(g, w)
    ensures Reaches(g, p[0], v)
    decreases |p|
  {
    if p[0] == v {
      ReachesSelf(g, v);
    } else {
      assert p[1] in Targets(g', p[0]);
      assert Path(g', p[1..]);
      FirstVisit(g, g', v, p[1..]);
      ReachesTarget(g, p[0], p[1]);
      ReachesTrans(g, p[0], p[1], v);
    }
  }

  /** On an acyclic graph, the check tells exactly whether the attribute keeps the graph acyclic. */
  lemma AssignKeepsAcyclic(g: Graph, v: nat, attr: Attribute)
    requires Acyclic(g)
    ensures Acyclic(g[v := attr]) <==> !Circular(g, v, attr)
  {
    var g' := g[v := attr];
    if Circular(g, v, attr) {
      var t :| t in Ends(attr) && Reaches(g, t, v);
      var p :| Path(g, p) && p[0] == t && p[|p| - 1] == v;
      FirstVisit(g', g, v, p);
      assert t in Targets(g', v);
    } else {
      forall w, t | t in Targets(g', w) ensures !Reaches(g', t, w) {
        if Reaches(g', t, w) {
          CycleThrough(g, v, attr, w, t);
        }
      }
    }
  }

  /** A new cycle goes through the new attribute, so the attribute was circular. */
  lemma CycleThrough(g: Graph, v: nat, attr: Attribute, w: nat, t: nat)
    requires Acyclic(g) && t in Targets(g[v := attr], w) && Reaches(g[v := attr], t, w)
    ensures Circular(g, v, attr)
  {
    var g' := g[v := attr];
    var p :| Path(g', p) && p[0] == t && p[|p| - 1] == w;
    if w == v {
      FirstVisit(g, g', v, p);
    } else if i :| 0 <= i < |p| && p[i] == v {
      var t' := p[i + 1];
      assert t' in Targets(g', v);
      assert Path(g', p[..i + 1]) && Path(g', p[i + 1..]);
      assert Reaches(g', t', w) by {
        assert p[i + 1..][0] == t' && p[i + 1..][|p| - i - 2] == w;
      }
      assert Reaches(g', t, v) by {
        assert p[..i + 1][0] == t && p[..i + 1][i] == v;
      }
      ReachesTarget(g', w, t);
      ReachesTrans(g', t', w, t);
      ReachesTrans(g', t', t, v);
      var q :| Path(g', q) && q[0] == t' && q[|q| - 1] == v;
      FirstVisit(g, g', v, q);
    } else {
      assert Path(g, p);
      assert t in Targets(g, w);
      assert Reaches(g, t, w);
      assert false;
    }
  }

  /** What a sequence of assignments leaves, when the circular ones are refused. */
  ghost function Assigned(g: Graph, attrs: seq<Attribute>): Graph {
    if attrs == [] then g
    else
      var h, a := Assigned(g, attrs[..|attrs| - 1]), attrs[|attrs| - 1];
      if Circular(h, a.src, a) then h else h[a.src := a]
  }

  /** ApplyAttribute behind the check, over any sequence of assignments. */
  method AssignAll(g: Graph, attrs: seq<Attribute>) returns (r: Graph)
    requires ValidGraph(g) && Acyclic(g) && forall a :: a in attrs ==> ValidAttribute(a)
    ensures ValidGraph(r) && Acyclic(r) && r == Assigned(g, attrs)
  {
    r := g;
    for i := 0 to |attrs|
      invariant ValidGraph(r) && Acyclic(r) && r == Assigned(g, attrs[..i])
    {
      assert attrs[..i + 1][..i] == attrs[..i];
      var circular := IsCircularRelation(r, attrs[i].src, attrs[i]);
      if !circular {
        AssignKeepsAcyclic(r, attrs[i].src, attrs[i]);
        r := r[attrs[i].src := attrs[i]];
      }
    }
    assert attrs[..|attrs|] == attrs;
  }

  // ---- Anchored views ----

  const CONTENT_FRAME: nat := 0

  /** The content frame's own attribute is never looked at. */
  function Cut(g: Graph): Graph {
    g - {CONTENT_FRAME}
  }

  /** Every view that v reaches is the content frame, or has an attribute. */
  ghost predicate Anchored(g: Graph, v: nat) {
    forall w :: Reaches(Cut(g), v, w) ==> w == CONTENT_FRAME || w in g
  }

  lemma AnchoredStep(g: Graph, v: nat)
    ensures Anchored(g, v) <==>
            v == CONTENT_FRAME || (v in g && forall t :: t in Ends(g[v]) ==> Anchored(g, t))
  {
    ReachesSelf(Cut(g), v);
    if v == CONTENT_FRAME || v !in g {
      forall w ensures Reaches(Cut(g), v, w) ==> w == v {
        ReachesStep(Cut(g), v, w);
      }
    } else {
      assert Targets(Cut(g), v) == Ends(g[v]);
      forall w ensures Reaches(Cut(g), v, w) <==> w == v || exists t :: t in Ends(g[v]) && Reaches(Cut(g), t, w) {
        ReachesStep(Cut(g), v, w);
      }
    }
  }

  /** What v reaches, as a set that gets smaller along every edge of an acyclic graph. */
  ghost function ReachSet(g: Graph, v: nat): set<nat> {
    set w | w in Mentioned(g) + {v} && Reaches(g, v, w)
  }

  lemma ReachSetShrinks(g: Graph, v: nat, t: nat)
    requires Acyclic(g) && t in Targets(g, v)
    ensures ReachSet(g, t) < ReachSet(g, v)
  {
    ReachesSelf(g, v);
    assert v in ReachSet(g, v) && v !in ReachSet(g, t);
    forall w | w in ReachSet(g, t) ensures w in ReachSet(g, v) {
      ReachesStep(g, v, w);
    }
  }

  /** The visited set is shared with the primary target and starts again for the secondary one. */
  method IsAnchoredInner(g: Graph, v: nat, visited: set<nat>) returns (anchored: bool, r: set<nat>)
    requires ValidGraph(g) && Acyclic(Cut(g)) && forall w :: w in visited ==> Reaches(Cut(g), w, v)
    ensures anchored <==> Anchored(g, v)
    decreases ReachSet(Cut(g), v)
  {
    AnchoredStep(g, v);
    r := visited;
    if v == CONTENT_FRAME {
      return true, r;
    }
    if v !in g {
      return false, r;
    }
    r := r + {v};
    var attr := g[v];
    assert Targets(Cut(g), v) == Ends(attr);
    VisitedReach(g, v, visited);
    if IsRelationalAnchor(attr.kind) {
      assert Ends(attr) == {attr.primary};
      if attr.primary in r {
        return false, r;
      }
      ReachSetShrinks(Cut(g), v, attr.primary);
      anchored, r := IsAnchoredInner(g, attr.primary, r);
    } else {
      var secondary := attr.secondary.value;
      assert Ends(attr) == {attr.primary, secondary};
      if attr.primary in r || secondary in r {
        return false, r;
      }
      var innerVisited := {v};
      ReachSetShrinks(Cut(g), v, attr.primary);
      ReachSetShrinks(Cut(g), v, secondary);
      anchored, r := IsAnchoredInner(g, attr.primary, r);
      if anchored {
        anchored, innerVisited := IsAnchoredInner(g, secondary, innerVisited);
      }
    }
  }

  /** The views visited on the way reach every target of v, so no target is among them. */
  lemma VisitedReach(g: Graph, v: nat, visited: set<nat>)
    requires Acyclic(Cut(g)) && forall w :: w in visited ==> Reaches(Cut(g), w, v)
    ensures forall w, t :: w in visited + {v} && t in Targets(Cut(g), v) ==> Reaches(Cut(g), w, t) && w != t
  {
    forall w, t | w in visited + {v} && t in Targets(Cut(g), v) ensures Reaches(Cut(g), w, t) && w != t {
      ReachesSelf(Cut(g), v);
      ReachesTarget(Cut(g), v, t);
      ReachesTrans(Cut(g), w, v, t);
    }
  }

  method IsAnchored(g: Graph, v: nat) returns (anchored: bool)
    requires ValidGraph(g) && Acyclic(Cut(g))
    ensures anchored <==> Anchored(g, v)
  {
    var visited := {};
    anchored, visited := IsAnchoredInner(g, v, visited);
  }

  /** Whether the view will be anchored once it has the attribute. */
  method IsAnchoredWithAttr(g: Graph, v: nat, attr: Attribute) returns (anchored: bool)
    requires ValidGraph(g) && Acyclic(Cut(g)) && ValidAttribute(attr)
    ensures anchored <==> forall t :: t in Ends(attr) ==> Anchored(g, t)
    ensures v != CONTENT_FRAME && !Circular(g, v, attr) ==> (anchored <==> Anchored(g[v := attr], v))
  {
    anchored := IsAnchored(g, attr.primary);
    if !IsRelationalAnchor(attr.kind) && anchored {
      anchored := IsAnchored(g, attr.secondary.value);
    }
    if v != CONTENT_FRAME && !Circular(g, v, attr) {
      AnchoredStep(g[v := attr], v);
      forall t | t in Ends(attr) ensures Anchored(g, t) <==> Anchored(g[v := attr], t) {
        NotReached(g, v, attr, t);
      }
    }
  }

  /** What does not reach v does not depend on the attribute of v. */
  lemma NotReached(g: Graph, v: nat, attr: Attribute, t: nat)
    requires !Reaches(g, t, v)
    ensures Anchored(g, t) <==> Anchored(g[v := attr], t)
  {
    var g' := g[v := attr];
    if Reaches(g', t, v) {
      var p :| Path(g', p) && p[0] == t && p[|p| - 1] == v;
      FirstVisit(g, g', v, p);
    }
    forall w ensures Reaches(Cut(g), t, w) ==> Reaches(Cut(g'), t, w) && w != v {
      if Reaches(Cut(g), t, w) {
        var p :| Path(Cut(g), p) && p[0] == t && p[|p| - 1] == w;
        SamePath(g, g', v, p);
      }
    }
    forall w ensures Reaches(Cut(g'), t, w) ==> Reaches(Cut(g), t, w) && w != v {
      if Reaches(Cut(g'), t, w) {
        var p :| Path(Cut(g'), p) && p[0] == t && p[|p| - 1] == w;
        SamePath(g', g, v, p);
      }
    }
  }

  lemma SamePath(g: Graph, g': Graph, v: nat, p: seq<nat>)
    requires Path(Cut(g), p) && !Reaches(g, p[0], v)
    requires forall w :: w != v ==> Targets(g', w) == Targets(g, w)
    ensures Path(Cut(g'), p) && p[|p| - 1] != v
  {
    forall i | 0 <= i < |p| ensures p[i] != v {
      var q := p[..i + 1];
      assert Path(g, q) && q[0] == p[0] && q[|q| - 1] == p[i];
    }
    forall i | 0 <= i < |p| - 1 ensures p[i + 1] in Targets(Cut(g'), p[i]) {
      assert p[i + 1] in Targets(g', p[i]);
    }
  }
}
