/** Normalization of one-pixel margins against a renderer. */
module NormalizeMargins {
  import opened LayoutGraph
  import opened LayoutConstraints

  datatype App = App(views: seq<View>, horizontal: Graph, vertical: Graph)

  function GraphOf(app: App, o: Orientation): Graph {
    if o == Horizontal then app.horizontal else app.vertical
  }

  function WithGraph(app: App, o: Orientation, g: Graph): App {
    if o == Horizontal then app.(horizontal := g) else app.(vertical := g)
  }

  predicate Ascending(s: seq<nat>) {
    forall i, j :: 0 <= i < j < |s| ==> s[i] < s[j]
  }

  function Ids(views: seq<View>): (ids: seq<nat>)
    ensures |ids| == |views| && forall i :: 0 <= i < |ids| ==> ids[i] == views[i].id
  {
    seq(|views|, i requires 0 <= i < |views| => views[i].id)
  }

  /** The views are in ascending order of their ids, and all but the content frame have both attributes. */
  predicate ValidApp(app: App) {
    && Ascending(Ids(app.views))
    && (forall o :: ValidGraph(GraphOf(app, o)))
    && (forall o, v :: v in app.views && v.id != CONTENT_FRAME ==> v.id in GraphOf(app, o))
  }

  // ---- AppMatch ----

  /** The same extent in both orientations. */
  predicate SamePlace(a: View, b: View) {
    forall o: Orientation :: SpanOf(a, o) == SpanOf(b, o)
  }

  predicate ViewMatch(a: View, b: View): (same: bool)
    ensures same <==> SamePlace(a, b)
  {
    assert SpanOf(a, Horizontal) == SpanOf(b, Horizontal) && SpanOf(a, Vertical) == SpanOf(b, Vertical)
           <==> SamePlace(a, b);
    a.xleft == b.xleft && a.xright == b.xright && a.ytop == b.ytop && a.ybottom == b.ybottom
  }

  ghost predicate Match(a: seq<View>, b: seq<View>) {
    |a| == |b| && forall i :: 0 <= i < |a| ==> SamePlace(a[i], b[i])
  }

  method AppMatch(a: seq<View>, b: seq<View>) returns (same: bool)
    ensures same <==> Match(a, b)
  {
    if |a| != |b| {
      return false;
    }
    for i := 0 to |a|
      invariant forall j :: 0 <= j < i ==> ViewMatch(a[j], b[j])
    {
      if !ViewMatch(a[i], b[i]) {
        return false;
      }
    }
    same := true;
  }

  // ---- Unnormalized attributes ----

  predicate OnePixel(a: Attribute) {
    (a.valuePrimary == 0 && a.valueSecondary == 1) || (a.valuePrimary == 1 && a.valueSecondary == 0)
  }

  /** One of the two margins is a pixel, the other is none. */
  lemma OnePixelExact(a: Attribute)
    ensures OnePixel(a) <==> {a.valuePrimary, a.valueSecondary} == {0, 1}
  {
    if {a.valuePrimary, a.valueSecondary} == {0, 1} {
      assert 0 in {a.valuePrimary, a.valueSecondary} && 1 in {a.valuePrimary, a.valueSecondary};
    }
  }

  predicate Unnormalized(g: Graph, resolved: set<nat>, id: nat) {
    id !in resolved && id != CONTENT_FRAME && id in g && OnePixel(g[id])
  }

  method FindUnnormalizedAttributes(app: App, o: Orientation, resolved: set<nat>) returns (ids: seq<nat>)
    requires ValidApp(app)
    ensures Ascending(ids)
    ensures forall id :: id in ids <==> id in Ids(app.views) && Unnormalized(GraphOf(app, o), resolved, id)
    ensures forall id :: id in ids ==>
              id !in resolved && id != 0 && id in GraphOf(app, o)
              && var a := GraphOf(app, o)[id];
                 {a.valuePrimary, a.valueSecondary} == {0, 1}
  {
    ids := [];
    var all := Ids(app.views);
    for i := 0 to |app.views|
      invariant Ascending(ids) && forall k, j :: 0 <= k < |ids| && i <= j < |all| ==> ids[k] < all[j]
      invariant forall id :: id in ids <==> id in all[..i] && Unnormalized(GraphOf(app, o), resolved, id)
    {
      var view := app.views[i];
      assert all[..i + 1] == all[..i] + [view.id];
      if view.id !in resolved && view.id != CONTENT_FRAME {
        if OnePixel(GraphOf(app, o)[view.id]) {
          ids := ids + [view.id];
        }
      }
    }
    assert all[..|all|] == all;
  }

  // ---- Independence ----

  /** The ids of a set, sorted. */
  method Sorted(s: set<nat>) returns (r: seq<nat>)
    ensures Ascending(r) && forall x :: x in r <==> x in s
  {
    r := [];
    var rest := s;
    while rest != {}
      invariant rest <= s && Ascending(r) && forall x :: x in r <==> x in s && x !in rest
      decreases rest
    {
      var x :| x in rest;
      var i := 0;
      while i < |r| && r[i] < x
        invariant i <= |r| && forall j :: 0 <= j < i ==> r[j] < x
      {
        i := i + 1;
      }
      assert i < |r| ==> r[i] != x;
      ghost var before := r;
      r := r[..i] + [x] + r[i..];
      assert before == before[..i] + before[i..];
      rest := rest - {x};
    }
  }

  /** std::set_intersection. */
  method SetIntersection(a: seq<nat>, b: seq<nat>) returns (r: seq<nat>)
    requires Ascending(a) && Ascending(b)
    ensures Ascending(r) && forall x :: x in r <==> x in a && x in b
  {
    var i, j := 0, 0;
    r := [];
    NothingMerged(a, b);
    while i < |a| && j < |b|
      invariant i <= |a| && j <= |b| && Merged(a, b, i, j, r)
    {
      MergeStep(a, b, i, j, r);
      if a[i] < b[j] {
        i := i + 1;
      } else if b[j] < a[i] {
        j := j + 1;
      } else {
        r := r + [a[i]];
        i, j := i + 1, j + 1;
      }
    }
    AllMerged(a, b, i, j, r);
  }

  /** The common elements of a[..i] and b[..j], all of them below what remains of either. */
  ghost predicate Merged(a: seq<nat>, b: seq<nat>, i: nat, j: nat, r: seq<nat>) {
    && i <= |a| && j <= |b| && Ascending(r)
    && (forall x :: x in r <==> x in a[..i] && x in b[..j])
    && (forall x, k :: x in b[..j] && i <= k < |a| ==> x < a[k])
    && (forall x, k :: x in a[..i] && j <= k < |b| ==> x < b[k])
  }

  lemma NothingMerged(a: seq<nat>, b: seq<nat>)
    ensures Merged(a, b, 0, 0, [])
  {
  }

  lemma MergeStep(a: seq<nat>, b: seq<nat>, i: nat, j: nat, r: seq<nat>)
    requires Ascending(a) && Ascending(b) && i < |a| && j < |b| && Merged(a, b, i, j, r)
    ensures a[i] < b[j] ==> Merged(a, b, i + 1, j, r)
    ensures b[j] < a[i] ==> Merged(a, b, i, j + 1, r)
    ensures a[i] == b[j] ==> Merged(a, b, i + 1, j + 1, r + [a[i]])
  {
    assert a[..i + 1] == a[..i] + [a[i]] && b[..j + 1] == b[..j] + [b[j]];
    forall k | 0 <= k < |r| ensures r[k] < a[i] && r[k] < b[j] {
      assert r[k] in r;
    }
  }

  lemma AllMerged(a: seq<nat>, b: seq<nat>, i: nat, j: nat, r: seq<nat>)
    requires Merged(a, b, i, j, r) && (i == |a| || j == |b|)
    ensures Ascending(r) && forall x :: x in r <==> x in a && x in b
  {
    assert a[..|a|] == a && b[..|b|] == b;
    assert a == a[..i] + a[i..] && b == b[..j] + b[j..];
  }

  /** A view refers to no other view of the list. */
  ghost predicate Independent(g: Graph, id: nat, ids: seq<nat>) {
    forall w :: w in ids && Reaches(g, id, w) ==> w == id
  }

  method IsIndependent(g: Graph, id: nat, ids: seq<nat>) returns (independent: bool)
    requires ValidGraph(g) && Ascending(ids) && id in ids
    ensures independent <==> Independent(g, id, ids)
  {
    var nodes := ReferencedNodes(g, id);
    var referenced := Sorted(nodes);
    var common := SetIntersection(ids, referenced);
    ReachesSelf(g, id);
    independent := |common| == 1;
    if |common| > 1 {
      assert common[0] in common && common[1] in common && common[0] != common[1];
    }
  }

  /** On an acyclic graph, a view is reached by none that it reaches. */
  lemma NoWayBack(g: Graph, v: nat, w: nat)
    requires Acyclic(g) && Reaches(g, v, w) && v != w
    ensures !Reaches(g, w, v)
  {
    if Reaches(g, w, v) {
      ReachesStep(g, v, w);
      var t :| t in Targets(g, v) && Reaches(g, t, w);
      ReachesTrans(g, t, w, v);
    }
  }

  /** Every non-empty list of views of an acyclic graph has an independent one. */
  lemma SomeIndependent(g: Graph, ids: seq<nat>, v: nat) returns (w: nat)
    requires Acyclic(g) && v in ids
    ensures w in ids && Independent(g, w, ids)
    decreases ReachSet(g, v)
  {
    if Independent(g, v, ids) {
      w := v;
    } else {
      var u :| u in ids && Reaches(g, v, u) && u != v;
      NoWayBack(g, v, u);
      ReachesSelf(g, v);
      InMentioned(g, v, u);
      forall x | x in ReachSet(g, u) ensures x in ReachSet(g, v) {
        ReachesTrans(g, v, u, x);
      }
      assert v in ReachSet(g, v) && v !in ReachSet(g, u);
      w := SomeIndependent(g, ids, u);
    }
  }

  lemma InMentioned(g: Graph, v: nat, u: nat)
    requires Reaches(g, v, u) && u != v
    ensures u in Mentioned(g)
  {
    var p :| Path(g, p) && p[0] == v && p[|p| - 1] == u;
    assert p[|p| - 2 + 1] in Targets(g, p[|p| - 2]);
  }

  // ---- Normalization ----

  /** A graph that differs only in margins of one pixel that became zero. */
  predicate Normalizes(g: Graph, h: Graph) {
    && g.Keys == h.Keys
    && forall v :: v in g ==>
         h[v] == g[v] || (OnePixel(g[v]) && h[v] == g[v].(valuePrimary := 0, valueSecondary := 0))
  }

  lemma NormalizesTrans(f: Graph, g: Graph, h: Graph)
    requires Normalizes(f, g) && Normalizes(g, h)
    ensures Normalizes(f, h)
  {
  }

  /** Margins are no edges. */
  lemma SameReach(g: Graph, h: Graph, v: nat, w: nat)
    requires Normalizes(g, h) && Reaches(h, v, w)
    ensures Reaches(g, v, w)
  {
    var p :| Path(h, p) && p[0] == v && p[|p| - 1] == w;
    forall i | 0 <= i < |p| - 1 ensures p[i + 1] in Targets(g, p[i]) {
      assert p[i + 1] in Targets(h, p[i]);
    }
    assert Path(g, p);
  }

  lemma NormalizesAcyclic(g: Graph, h: Graph)
    requires Normalizes(g, h) && Acyclic(g)
    ensures Acyclic(h)
  {
    forall v, t | t in Targets(h, v) ensures !Reaches(h, t, v) {
      assert t in Targets(g, v);
      if Reaches(h, t, v) {
        SameReach(g, h, t, v);
      }
    }
  }

  function Zeroed(g: Graph, id: nat): Graph
    requires id in g
  {
    g[id := g[id].(valuePrimary := 0, valueSecondary := 0)]
  }

  lemma ZeroedValid(app: App, o: Orientation, id: nat)
    requires ValidApp(app) && id in GraphOf(app, o)
    ensures ValidApp(WithGraph(app, o, Zeroed(GraphOf(app, o), id)))
  {
    var changed := WithGraph(app, o, Zeroed(GraphOf(app, o), id));
    forall p: Orientation ensures ValidGraph(GraphOf(changed, p)) && GraphOf(changed, p).Keys == GraphOf(app, p).Keys {
      assert ValidGraph(GraphOf(app, p));
    }
    assert Ids(changed.views) == Ids(app.views);
  }

  /** On the way from ref to result, the renderer did not bear with a zero margin for the view. */
  ghost predicate Rejected(ref: App, o: Orientation, render: App -> seq<View>, result: App, id: nat) {
    exists g :: RejectedAt(ref, o, render, result, id, g)
  }

  ghost predicate RejectedAt(ref: App, o: Orientation, render: App -> seq<View>, result: App, id: nat, g: Graph) {
    && Normalizes(GraphOf(ref, o), g) && Normalizes(g, GraphOf(result, o)) && id in g
    && !Match(ref.views, render(WithGraph(ref, o, Zeroed(g, id))))
  }

  lemma StillRejected(ref: App, o: Orientation, render: App -> seq<View>, app: App, result: App, id: nat)
    requires Rejected(ref, o, render, app, id) && Normalizes(GraphOf(app, o), GraphOf(result, o))
    ensures Rejected(ref, o, render, result, id)
  {
    var g :| RejectedAt(ref, o, render, app, id, g);
    NormalizesTrans(g, GraphOf(app, o), GraphOf(result, o));
    assert RejectedAt(ref, o, render, result, id, g);
  }

  /** Sets the margins of the first independent view of the list to zero. */
  method ChangeOne(app: App, o: Orientation, ids: seq<nat>) returns (changed: App, id: nat)
    requires ValidApp(app) && Acyclic(GraphOf(app, o)) && Ascending(ids) && ids != []
    requires forall i :: i in ids ==> Unnormalized(GraphOf(app, o), {}, i)
    ensures id in ids && Independent(GraphOf(app, o), id, ids)
    ensures id in GraphOf(app, o) && changed == WithGraph(app, o, Zeroed(GraphOf(app, o), id))
    ensures ValidApp(changed) && Normalizes(GraphOf(app, o), GraphOf(changed, o))
  {
    hide Acyclic;
    hide Independent;
    ghost var some := SomeIndependent(GraphOf(app, o), ids, ids[0]);
    for k := 0 to |ids|
      invariant forall j :: 0 <= j < k ==> !Independent(GraphOf(app, o), ids[j], ids)
    {
      id := ids[k];
      var independent := IsIndependent(GraphOf(app, o), id, ids);
      if independent {
        assert Unnormalized(GraphOf(app, o), {}, id);
        changed := app;
        if OnePixel(GraphOf(app, o)[id]) {
          changed := WithGraph(app, o, Zeroed(GraphOf(app, o), id));
          ZeroedValid(app, o, id);
        }
        return;
      }
    }
    assert false;
  }

  /** One orientation: independent views first, each tried once, and kept when the rendering still matches. */
  method NormalizeOrientation(ref: App, o: Orientation, render: App -> seq<View>) returns (result: App)
    requires ValidApp(ref) && Acyclic(GraphOf(ref, o)) && Match(ref.views, render(ref))
    ensures ValidApp(result) && Match(result.views, render(result))
    ensures result == WithGraph(ref, o, GraphOf(result, o)) && Normalizes(GraphOf(ref, o), GraphOf(result, o))
    ensures forall id :: id in Ids(ref.views) && Unnormalized(GraphOf(result, o), {}, id) ==>
              Rejected(ref, o, render, result, id)
  {
    hide Acyclic;
    hide Match;
    hide Rejected;
    result := ref;
    var app := ref;
    var resolved: set<nat> := {};
    var ids := FindUnnormalizedAttributes(app, o, resolved);
    ghost var all := set id | id in Ids(ref.views);
    while ids != []
      invariant app == result && ValidApp(app) && Match(app.views, render(app))
      invariant app == WithGraph(ref, o, GraphOf(app, o)) && Normalizes(GraphOf(ref, o), GraphOf(app, o))
      invariant Ascending(ids)
      invariant forall id :: id in ids <==> id in Ids(app.views) && Unnormalized(GraphOf(app, o), resolved, id)
      invariant forall id :: id in resolved && Unnormalized(GraphOf(app, o), {}, id) ==>
                  Rejected(ref, o, render, app, id)
      decreases all - resolved
    {
      NormalizesAcyclic(GraphOf(ref, o), GraphOf(app, o));
      var id;
      app, id := ChangeOne(app, o, ids);
      assert id in all && id !in resolved;
      resolved := resolved + {id};
      var matches := AppMatch(app.views, render(app));
      if !matches {
        assert RejectedAt(ref, o, render, result, id, GraphOf(result, o));
        FirstRejected(ref, o, render, result, id, GraphOf(result, o));
        app := result;
      } else {
        forall i | Rejected(ref, o, render, result, i) ensures Rejected(ref, o, render, app, i) {
          StillRejected(ref, o, render, result, app, i);
        }
        NormalizesTrans(GraphOf(ref, o), GraphOf(result, o), GraphOf(app, o));
        result := app;
      }
      ids := FindUnnormalizedAttributes(app, o, resolved);
    }
    assert forall id :: id in Ids(ref.views) && Unnormalized(GraphOf(app, o), resolved, id) ==> id in ids;
  }

  lemma FirstRejected(ref: App, o: Orientation, render: App -> seq<View>, result: App, id: nat, g: Graph)
    requires RejectedAt(ref, o, render, result, id, g)
    ensures Rejected(ref, o, render, result, id)
  {
  }

  /** Both orientations in turn.  Where a margin of one pixel is left, the renderer rejected its change on the
      way: from the input in the horizontal pass, from that pass's result in the vertical one. */
  method NormalizeMargins(ref: App, render: App -> seq<View>) returns (result: App)
    requires ValidApp(ref) && Acyclic(ref.horizontal) && Acyclic(ref.vertical)
    ensures result == ref || Match(result.views, render(result))
    ensures result.views == ref.views
    ensures Normalizes(ref.horizontal, result.horizontal) && Normalizes(ref.vertical, result.vertical)
    ensures !Match(ref.views, render(ref)) ==> result == ref
    ensures Match(ref.views, render(ref)) ==>
              forall id :: id in Ids(ref.views) && Unnormalized(result.horizontal, {}, id) ==>
                Rejected(ref, Horizontal, render, result, id)
    ensures Match(ref.views, render(ref)) ==>
              forall id :: id in Ids(ref.views) && Unnormalized(result.vertical, {}, id) ==>
                Rejected(WithGraph(ref, Horizontal, result.horizontal), Vertical, render, result, id)
  {
    hide Acyclic;
    hide Match;
    result := ref;
    var horizontal := FindUnnormalizedAttributes(ref, Horizontal, {});
    var vertical := FindUnnormalizedAttributes(ref, Vertical, {});
    if horizontal == [] && vertical == [] {
      return;
    }
    var matches := AppMatch(ref.views, render(ref));
    if !matches {
      return;
    }
    var middle := NormalizeOrientation(ref, Horizontal, render);
    result := NormalizeOrientation(middle, Vertical, render);
    forall id | Rejected(ref, Horizontal, render, middle, id) ensures Rejected(ref, Horizontal, render, result, id) {
      StillRejected(ref, Horizontal, render, middle, result, id);
    }
  }
}
