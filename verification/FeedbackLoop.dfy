/** Synthesis with simulated user feedback: views that the synthesizer misplaces are pinned one by one. */
module FeedbackLoop {
  import opened Wrappers
  import opened LayoutConstraints
  import opened NormalizeMargins
  import opened LayoutGraph

  datatype Status = Success | Unsat | Invalid | Timeout | Unknown
  datatype SynResult<A> = SynResult(app: A, status: Status)

  /** The synthesizers, the repair passes and the renderer. A synthesizer may answer the same question
      differently at another call; the renderer depends on the application and the device alone. */
  datatype Oracles<!A> = Oracles(
    base: (nat, seq<seq<View>>) -> SynResult<A>,
    fallback: Option<(nat, seq<seq<View>>) -> SynResult<A>>,
    repair: A -> A,
    resize: (A, nat) -> seq<View>)

  // ---- Specifications ----

  predicate HasFixedPosition(v: View) {
    v.xleft != -1 && v.xright != -1 && v.ytop != -1 && v.ybottom != -1
  }

  lemma FixedPositionExact(v: View)
    ensures HasFixedPosition(v) <==> -1 !in {v.xleft, v.xright, v.ytop, v.ybottom}
  {
  }

  function EmptyView(v: View): View {
    if v.id == CONTENT_FRAME then v else View(-1, -1, -1, -1, v.id)
  }

  /** An unpinned view tells nothing but its id; the content frame, whose id is 0, is always told. */
  lemma EmptyViewExact(v: View, w: View)
    ensures EmptyView(v).id == v.id && (v.id == 0 ==> EmptyView(v) == v)
    ensures v.id != 0 ==> !HasFixedPosition(EmptyView(v)) && (v.id == w.id <==> EmptyView(v) == EmptyView(w))
  {
  }

  function EmptyApp(app: seq<View>): (e: seq<View>)
    ensures |e| == |app| && forall i :: 0 <= i < |app| ==> e[i] == EmptyView(app[i])
  {
    seq(|app|, i requires 0 <= i < |app| => EmptyView(app[i]))
  }

  /** setPosition. */
  function SetPosition(v: View, other: View): View {
    View(other.xleft, other.ytop, other.xright, other.ybottom, v.id)
  }

  /** The pinned views have the ground truth's positions, the others none. */
  ghost predicate Pinned(truth: seq<View>, gen: seq<View>, fixed: set<nat>) {
    && |gen| == |truth|
    && forall j :: 0 <= j < |gen| ==> gen[j] == if j in fixed then truth[j] else EmptyView(truth[j])
  }

  /** n views in every application, on as many devices or more than there are. */
  ghost predicate AllPinned(apps: seq<seq<View>>, n: nat, gen: seq<seq<View>>, fixed: seq<set<nat>>) {
    && |gen| == |fixed| == |apps|
    && forall d :: 0 <= d < |apps| ==>
         |apps[d]| == n && Pinned(apps[d], gen[d], fixed[d]) && forall j :: j in fixed[d] ==> 1 <= j < n
  }

  /** The number of pinned views of the first d applications. */
  ghost function Pins(fixed: seq<set<nat>>, d: nat): nat
    requires d <= |fixed|
  {
    if d == 0 then 0 else Pins(fixed, d - 1) + |fixed[d - 1]|
  }

  lemma {:induction false} PinsUpdate(fixed: seq<set<nat>>, i: nat, j: nat, d: nat)
    requires i < |fixed| && d <= |fixed| && j !in fixed[i]
    ensures Pins(fixed[i := fixed[i] + {j}], d) == Pins(fixed, d) + if i < d then 1 else 0
  {
    if d > 0 {
      PinsUpdate(fixed, i, j, d - 1);
    }
  }

  /** The views of an application, the content frame apart. */
  function Places(n: nat): (s: set<nat>)
    ensures forall j :: j in s <==> 1 <= j < n
    ensures |s| == if n == 0 then 0 else n - 1
  {
    if n <= 1 then {} else Places(n - 1) + {n - 1}
  }

  lemma SubsetSize(s: set<nat>, t: set<nat>)
    requires s <= t
    ensures |s| <= |t|
  {
    assert t == s + (t - s);
  }

  /** Views in the wrong place that have not been pinned. */
  function Wrong(truth: seq<View>, rendered: seq<View>, fixed: set<nat>): set<nat>
    requires |truth| <= |rendered|
  {
    set j: nat | 1 <= j < |truth| && !SamePlace(truth[j], rendered[j]) && j !in fixed
  }

  // ---- The loop's parts ----

  method FindNonEqualViews(truth: seq<View>, app: seq<View>) returns (res: seq<nat>)
    requires |truth| <= |app|
    ensures Ascending(res)
    ensures forall j :: j in res <==> 1 <= j < |truth| && !SamePlace(truth[j], app[j])
  {
    res := [];
    var j := 1;
    while j < |truth|
      invariant Ascending(res) && forall k :: 0 <= k < |res| ==> res[k] < j
      invariant forall k :: k in res <==> 1 <= k < j && k < |truth| && !SamePlace(truth[k], app[k])
    {
      if !ViewMatch(truth[j], app[j]) {
        res := res + [j];
      }
      j := j + 1;
    }
  }

  /** The renderer keeps the number of views. */
  ghost predicate Renders<A(!new)>(o: Oracles<A>, n: nat) {
    forall app, d :: |o.resize(app, d)| == n
  }

  ghost predicate NoneWrong<A(!new)>(o: Oracles<A>, apps: seq<seq<View>>, n: nat, app: A, fixed: seq<set<nat>>,
                                     devices: nat)
    requires Renders(o, n) && devices <= |apps| == |fixed| && forall d :: 0 <= d < |apps| ==> |apps[d]| == n
  {
    forall d :: 0 <= d < devices ==> Wrong(apps[d], o.resize(app, d), fixed[d]) == {}
  }

  /** View j of device d was the first one that was wrong and not pinned, and now it is pinned. */
  ghost predicate PinnedOne<A(!new)>(o: Oracles<A>, apps: seq<seq<View>>, n: nat, app: A, fixed: seq<set<nat>>,
                                     d: nat, j: nat, fixed': seq<set<nat>>)
    requires Renders(o, n) && d < |apps| == |fixed| && forall e :: 0 <= e < |apps| ==> |apps[e]| == n
  {
    && j in Wrong(apps[d], o.resize(app, d), fixed[d]) && fixed' == fixed[d := fixed[d] + {j}]
    && (forall i :: i in Wrong(apps[d], o.resize(app, d), fixed[d]) ==> j <= i)
    && (forall e :: 0 <= e < d ==> Wrong(apps[e], o.resize(app, e), fixed[e]) == {})
  }

  /** Pins the first misplaced view that is not pinned yet. */
  method AddInconsistentViewToSpec<A(!new)>(o: Oracles<A>, apps: seq<seq<View>>, n: nat, devices: nat, app: A,
                                            fixed: seq<set<nat>>, gen: seq<seq<View>>)
    returns (added: bool, fixed': seq<set<nat>>, gen': seq<seq<View>>)
    requires devices <= |apps| && AllPinned(apps, n, gen, fixed) && Renders(o, n)
    ensures AllPinned(apps, n, gen', fixed')
    ensures !added ==> fixed' == fixed && gen' == gen && NoneWrong(o, apps, n, app, fixed, devices)
    ensures added ==> exists d, j :: 0 <= d < devices && PinnedOne(o, apps, n, app, fixed, d, j, fixed')
  {
    fixed', gen' := fixed, gen;
    for d := 0 to devices
      invariant fixed' == fixed && gen' == gen
      invariant forall e :: 0 <= e < d ==> Wrong(apps[e], o.resize(app, e), fixed[e]) == {}
    {
      var rendered := o.resize(app, d);
      var ids := FindNonEqualViews(apps[d], rendered);
      for k := 0 to |ids|
        invariant fixed' == fixed && gen' == gen
        invariant forall i :: 0 <= i < k ==> ids[i] in fixed[d]
      {
        var j := ids[k];
        if j !in fixed[d] {
          assert j in ids;
          gen' := gen[d := gen[d][j := SetPosition(gen[d][j], apps[d][j])]];
          fixed' := fixed[d := fixed[d] + {j}];
          assert PinnedOne(o, apps, n, app, fixed, d, j, fixed');
          return true, fixed', gen';
        }
      }
      assert forall j :: j in ids ==> j in fixed[d];
    }
    added := false;
  }

  /** The number of misplaced views that are not pinned, on the first d devices. */
  ghost function WrongViews<A>(o: Oracles<A>, apps: seq<seq<View>>, app: A, fixed: seq<set<nat>>, d: nat): nat
    requires d <= |apps| && d <= |fixed|
    requires forall e :: 0 <= e < d ==> |apps[e]| <= |o.resize(app, e)|
  {
    if d == 0 then 0
    else WrongViews(o, apps, app, fixed, d - 1) + |Wrong(apps[d - 1], o.resize(app, d - 1), fixed[d - 1])|
  }

  /** Everything that is still wrong has been pinned. */
  ghost predicate Settled<A>(o: Oracles<A>, apps: seq<seq<View>>, app: A, fixed: seq<set<nat>>, devices: nat) {
    && devices <= |apps| && devices <= |fixed| && (forall e :: 0 <= e < devices ==> |apps[e]| <= |o.resize(app, e)|)
    && WrongViews(o, apps, app, fixed, devices) == 0
  }

  method NumInconsistentViewsNotInSpec<A(!new)>(o: Oracles<A>, apps: seq<seq<View>>, n: nat, devices: nat, app: A,
                                                fixed: seq<set<nat>>)
    returns (num: nat)
    requires devices <= |apps| == |fixed| && Renders(o, n) && forall d :: 0 <= d < |apps| ==> |apps[d]| == n
    ensures num == WrongViews(o, apps, app, fixed, devices)
  {
    num := 0;
    for d := 0 to devices
      invariant num == WrongViews(o, apps, app, fixed, d)
    {
      var rendered := o.resize(app, d);
      var ids := FindNonEqualViews(apps[d], rendered);
      ghost var before := num;
      ghost var counted: set<nat> := {};
      for k := 0 to |ids|
        invariant num == before + |counted|
        invariant forall j :: j in counted <==> j in ids[..k] && j !in fixed[d]
      {
        assert ids[..k + 1] == ids[..k] + [ids[k]];
        if ids[k] !in fixed[d] {
          num := num + 1;
          counted := counted + {ids[k]};
        }
      }
      assert ids[..|ids|] == ids;
      assert counted == Wrong(apps[d], rendered, fixed[d]);
    }
  }

  /** What is pinned and what is wrong and not pinned are different views. */
  lemma DeviceBound(truth: seq<View>, rendered: seq<View>, fixed: set<nat>)
    requires 0 < |truth| <= |rendered| && forall j :: j in fixed ==> 1 <= j < |truth|
    ensures |fixed| + |Wrong(truth, rendered, fixed)| <= |truth| - 1
  {
    var wrong := Wrong(truth, rendered, fixed);
    SubsetSize(wrong + fixed, Places(|truth|));
    assert wrong !! fixed;
    assert |wrong + fixed| == |wrong| + |fixed|;
  }

  lemma {:induction false} ReportedBound<A(!new)>(o: Oracles<A>, apps: seq<seq<View>>, n: nat, gen: seq<seq<View>>,
                                                  app: A, fixed: seq<set<nat>>, d: nat)
    requires n > 0 && d <= |apps| && AllPinned(apps, n, gen, fixed) && Renders(o, n)
    ensures Pins(fixed, d) + WrongViews(o, apps, app, fixed, d) <= d * (n - 1)
  {
    hide Wrong;
    hide Places;
    if d > 0 {
      ReportedBound(o, apps, n, gen, app, fixed, d - 1);
      DeviceBound(apps[d - 1], o.resize(app, d - 1), fixed[d - 1]);
      OneLess(d, n - 1);
    }
  }

  lemma OneLess(d: nat, m: nat)
    requires d > 0
    ensures d * m == (d - 1) * m + m
  {
  }

  lemma Times(a: nat, b: nat, m: nat)
    requires a <= b
    ensures a * m <= b * m
  {
  }

  lemma {:induction false} PinsMonotone(fixed: seq<set<nat>>, a: nat, b: nat)
    requires a <= b <= |fixed|
    ensures Pins(fixed, a) <= Pins(fixed, b)
    ensures (forall d :: a <= d < b ==> fixed[d] == {}) ==> Pins(fixed, a) == Pins(fixed, b)
    decreases b
  {
    if a < b {
      PinsMonotone(fixed, a, b - 1);
    }
  }

  // ---- The loop ----

  /** What a round gets for its specification: the base synthesizer's result, or the fallback's when the base
      fails and falling back is on. */
  ghost function Answer<A>(o: Oracles<A>, fall: bool, k: nat, gen: seq<seq<View>>): SynResult<A> {
    var r := o.base(k, gen);
    if r.status != Success && fall && o.fallback.Some? then o.fallback.value(k, gen) else r
  }

  /** What the round makes of its answer. */
  ghost function Candidate<A>(o: Oracles<A>, fall: bool, fix: bool, k: nat, gen: seq<seq<View>>): A {
    var app := Answer(o, fall, k, gen).app;
    if fix then o.repair(app) else app
  }

  /** From one specification to the next, one view is pinned that this application misplaces and that was not
      pinned before. */
  ghost predicate NextQuery<A(!new)>(o: Oracles<A>, apps: seq<seq<View>>, n: nat, devices: nat, app: A,
                                     gen: seq<seq<View>>, gen': seq<seq<View>>, k: nat)
    requires Renders(o, n) && forall d :: 0 <= d < |apps| ==> |apps[d]| == n
  {
    exists fixed, d, j, fixed' ::
      && Specified(apps, n, devices, gen, fixed, k) && Specified(apps, n, devices, gen', fixed', k + 1)
      && 0 <= d < devices && d < |apps| == |fixed| && PinnedOne(o, apps, n, app, fixed, d, j, fixed')
  }

  /** The first rounds: every answer is a success, and every next specification answers to it. */
  ghost predicate Succeeded<A(!new)>(o: Oracles<A>, apps: seq<seq<View>>, n: nat, devices: nat, fall: bool, fix: bool,
                                     queries: seq<seq<seq<View>>>, rounds: nat)
    requires Renders(o, n) && forall d :: 0 <= d < |apps| ==> |apps[d]| == n
  {
    && rounds <= |queries|
    && (forall k :: 0 <= k < rounds ==> Answer(o, fall, k, queries[k]).status == Success)
    && (forall k :: 0 <= k < |queries| - 1 ==>
          NextQuery(o, apps, n, devices, Candidate(o, fall, fix, k, queries[k]), queries[k], queries[k + 1], k))
  }

  /** A specification with exactly k views pinned, all on the devices. */
  ghost predicate Specified(apps: seq<seq<View>>, n: nat, devices: nat, gen: seq<seq<View>>, fixed: seq<set<nat>>,
                            k: nat)
  {
    && AllPinned(apps, n, gen, fixed) && devices <= |fixed|
    && Pins(fixed, devices) == k && Pins(fixed, |fixed|) == k
  }

  ghost predicate Query(apps: seq<seq<View>>, n: nat, devices: nat, gen: seq<seq<View>>, k: nat) {
    exists fixed :: Specified(apps, n, devices, gen, fixed, k)
  }

  lemma IsQuery(apps: seq<seq<View>>, n: nat, devices: nat, gen: seq<seq<View>>, fixed: seq<set<nat>>, k: nat)
    requires Specified(apps, n, devices, gen, fixed, k)
    ensures Query(apps, n, devices, gen, k)
  {
  }

  lemma Unspecified(apps: seq<seq<View>>, n: nat, devices: nat, gen: seq<seq<View>>, fixed: seq<set<nat>>)
    requires |gen| == |fixed| == |apps| && devices <= |apps|
    requires forall d :: 0 <= d < |apps| ==> |apps[d]| == n && gen[d] == EmptyApp(apps[d]) && fixed[d] == {}
    ensures Specified(apps, n, devices, gen, fixed, 0)
  {
    PinsMonotone(fixed, 0, |fixed|);
    PinsMonotone(fixed, 0, devices);
  }

  lemma PinsBound<A(!new)>(o: Oracles<A>, app: A, apps: seq<seq<View>>, n: nat, devices: nat, gen: seq<seq<View>>,
                           fixed: seq<set<nat>>, k: nat)
    requires n > 0 && Specified(apps, n, devices, gen, fixed, k) && Renders(o, n)
    ensures k + WrongViews(o, apps, app, fixed, devices) <= devices * (n - 1) <= |apps| * (n - 1)
  {
    ReportedBound(o, apps, n, gen, app, fixed, devices);
    Times(devices, |apps|, n - 1);
  }

  /** The same after one more view, or at the end. */
  method Extend<A(!new)>(o: Oracles<A>, apps: seq<seq<View>>, n: nat, devices: nat, app: A, fixed: seq<set<nat>>,
                         gen: seq<seq<View>>, ghost k: nat)
    returns (added: bool, fixed': seq<set<nat>>, gen': seq<seq<View>>)
    requires devices <= |apps| && Specified(apps, n, devices, gen, fixed, k) && Renders(o, n)
    ensures Specified(apps, n, devices, gen', fixed', if added then k + 1 else k)
    ensures !added ==> gen' == gen && fixed' == fixed && Settled(o, apps, app, fixed', devices)
    ensures added ==> NextQuery(o, apps, n, devices, app, gen, gen', k)
  {
    added, fixed', gen' := AddInconsistentViewToSpec(o, apps, n, devices, app, fixed, gen);
    if added {
      ghost var d, j :| 0 <= d < devices && PinnedOne(o, apps, n, app, fixed, d, j, fixed');
      PinsUpdate(fixed, d, j, devices);
      PinsUpdate(fixed, d, j, |fixed|);
    } else {
      NoneWrongViews(o, apps, n, app, fixed, devices);
    }
  }

  lemma {:induction false} NoneWrongViews<A(!new)>(o: Oracles<A>, apps: seq<seq<View>>, n: nat, app: A,
                                                   fixed: seq<set<nat>>, d: nat)
    requires Renders(o, n) && d <= |apps| == |fixed| && forall e :: 0 <= e < |apps| ==> |apps[e]| == n
    requires NoneWrong(o, apps, n, app, fixed, d)
    ensures WrongViews(o, apps, app, fixed, d) == 0
  {
    if d > 0 {
      NoneWrongViews(o, apps, n, app, fixed, d - 1);
    }
  }

  lemma SpecifiedSize(apps: seq<seq<View>>, n: nat, devices: nat, gen: seq<seq<View>>, fixed: seq<set<nat>>, k: nat)
    requires Specified(apps, n, devices, gen, fixed, k)
    ensures devices <= |fixed| == |apps| && Pins(fixed, |fixed|) == k
  {
  }

  /** Every round but the last one succeeded, so only the first can be without a success before it. */
  lemma SucceededFirst<A(!new)>(o: Oracles<A>, apps: seq<seq<View>>, n: nat, devices: nat, fall: bool, fix: bool,
                                queries: seq<seq<seq<View>>>, rounds: nat)
    requires Renders(o, n) && forall d :: 0 <= d < |apps| ==> |apps[d]| == n
    requires Succeeded(o, apps, n, devices, fall, fix, queries, rounds)
    ensures rounds > 0 ==> Answer(o, fall, rounds - 1, queries[rounds - 1]).status == Success
  {
  }

  lemma NextSpecification<A(!new)>(o: Oracles<A>, apps: seq<seq<View>>, n: nat, devices: nat, fall: bool, fix: bool,
                                   queries: seq<seq<seq<View>>>, gen: seq<seq<View>>)
    requires Renders(o, n) && forall d :: 0 <= d < |apps| ==> |apps[d]| == n
    requires Succeeded(o, apps, n, devices, fall, fix, queries, |queries|)
    requires |queries| > 0 ==>
               var k := |queries| - 1;
               NextQuery(o, apps, n, devices, Candidate(o, fall, fix, k, queries[k]), queries[k], gen, k)
    ensures Succeeded(o, apps, n, devices, fall, fix, queries + [gen], |queries|)
  {
    hide NextQuery;
    hide Candidate;
    hide Answer;
    hide Renders;
  }

  lemma NextSuccess<A(!new)>(o: Oracles<A>, apps: seq<seq<View>>, n: nat, devices: nat, fall: bool, fix: bool,
                             queries: seq<seq<seq<View>>>, k: nat)
    requires Renders(o, n) && forall d :: 0 <= d < |apps| ==> |apps[d]| == n
    requires Succeeded(o, apps, n, devices, fall, fix, queries, k) && |queries| == k + 1
    requires Answer(o, fall, k, queries[k]).status == Success
    ensures Succeeded(o, apps, n, devices, fall, fix, queries, k + 1)
  {
    hide NextQuery;
    hide Candidate;
    hide Answer;
    hide Renders;
  }

  lemma SettledNone<A>(o: Oracles<A>, apps: seq<seq<View>>, app: A, fixed: seq<set<nat>>, devices: nat)
    requires Settled(o, apps, app, fixed, devices)
    ensures WrongViews(o, apps, app, fixed, devices) == 0
  {
  }

  method AllFixed(apps: seq<seq<View>>) returns (all: bool)
    ensures all <==> forall d, j :: 0 <= d < |apps| && 0 <= j < |apps[d]| ==> HasFixedPosition(apps[d][j])
  {
    for d := 0 to |apps|
      invariant forall e, j :: 0 <= e < d && 0 <= j < |apps[e]| ==> HasFixedPosition(apps[e][j])
    {
      for j := 0 to |apps[d]|
        invariant forall i :: 0 <= i < j ==> HasFixedPosition(apps[d][i])
      {
        if !HasFixedPosition(apps[d][j]) {
          return false;
        }
      }
    }
    all := true;
  }

  class UserFeedbackSynthesis {
    var fixedViews: nat
    var totalViews: nat
    const baseSynFallback: bool
    const fixInconsistencies: bool

    constructor (baseSynFallback: bool, fixInconsistencies: bool)
      ensures fixedViews == 0 && totalViews == 0
      ensures this.baseSynFallback == baseSynFallback && this.fixInconsistencies == fixInconsistencies
    {
      this.baseSynFallback, this.fixInconsistencies := baseSynFallback, fixInconsistencies;
      fixedViews, totalViews := 0, 0;
    }

    /** The rounds: ask, remember a success, repair it, and pin a view that it misplaces. ok is false where
        the original's checks abort; queries are the specifications that the base synthesizer got. */
    method Rounds<A(!new)>(o: Oracles<A>, blank: A, n: nat, apps: seq<seq<View>>, devices: nat)
      returns (ok: bool, res: SynResult<A>, lastSuccess: SynResult<A>, fixed: seq<set<nat>>, gen: seq<seq<View>>,
               round: nat, ghost queries: seq<seq<seq<View>>>)
      requires n > 0 && (forall d :: 0 <= d < |apps| ==> |apps[d]| == n) && devices <= |apps| && Renders(o, n)
      ensures |queries| <= devices * (n - 1) + 1
      ensures |queries| == if ok && res.status == Success then round else round + 1
      ensures |queries| >= 1 && gen == queries[|queries| - 1]
      ensures forall k :: 0 <= k < |queries| ==> Query(apps, n, devices, queries[k], k)
      ensures Specified(apps, n, devices, gen, fixed, |queries| - 1)
      ensures Succeeded(o, apps, n, devices, baseSynFallback, fixInconsistencies, queries, round)
      // the last success, and what has become of it
      ensures if round == 0 then lastSuccess.status != Success
              else lastSuccess == Answer(o, baseSynFallback, round - 1, queries[round - 1])
      ensures ok && res.status == Success ==>
                && round > 0 && Settled(o, apps, res.app, fixed, devices)
                && res.app == Candidate(o, baseSynFallback, fixInconsistencies, round - 1, queries[round - 1])
      // otherwise the last answer is no success
      ensures ok && res.status != Success ==> res == Answer(o, baseSynFallback, round, gen)
      ensures !ok ==> baseSynFallback && o.fallback.None? && o.base(round, gen).status != Success
    {
      hide Specified;
      hide Settled;
      hide WrongViews;
      hide Renders;
      hide Query;
      hide NextQuery;
      queries := [];
      ok := true;
      res := SynResult(blank, Invalid);
      lastSuccess := res;
      gen := seq(|apps|, d requires 0 <= d < |apps| => EmptyApp(apps[d]));
      fixed := seq(|apps|, _ => {});
      Unspecified(apps, n, devices, gen, fixed);
      round := 0;
      var viewAdded := true;
      assert Succeeded(o, apps, n, devices, baseSynFallback, fixInconsistencies, queries, 0);
      hide Succeeded;
      while viewAdded
        invariant ok && |queries| == round && (round > 0 || viewAdded)
        invariant forall k :: 0 <= k < |queries| ==> Query(apps, n, devices, queries[k], k)
        invariant Specified(apps, n, devices, gen, fixed, if viewAdded then round else round - 1)
        invariant Succeeded(o, apps, n, devices, baseSynFallback, fixInconsistencies, queries, round)
        invariant if round == 0 then lastSuccess.status != Success
                  else lastSuccess == Answer(o, baseSynFallback, round - 1, queries[round - 1])
        invariant viewAdded && round > 0 ==>
                    NextQuery(o, apps, n, devices,
                              Candidate(o, baseSynFallback, fixInconsistencies, round - 1, queries[round - 1]),
                              queries[round - 1], gen, round - 1)
        invariant round <= devices * (n - 1) + 1
        invariant !viewAdded ==>
                    && res.status == Success && Settled(o, apps, res.app, fixed, devices) && gen == queries[round - 1]
                    && res.app == Candidate(o, baseSynFallback, fixInconsistencies, round - 1, queries[round - 1])
        decreases viewAdded, devices * (n - 1) - round
      {
        PinsBound(o, blank, apps, n, devices, gen, fixed, round);
        IsQuery(apps, n, devices, gen, fixed, round);
        NextSpecification(o, apps, n, devices, baseSynFallback, fixInconsistencies, queries, gen);
        queries := queries + [gen];
        res := o.base(round, gen);
        if res.status != Success {
          if baseSynFallback {
            if o.fallback.None? {
              ok := false;
              return;
            }
            res := o.fallback.value(round, gen);
          }
          if res.status != Success {
            return;
          }
        }
        NextSuccess(o, apps, n, devices, baseSynFallback, fixInconsistencies, queries, round);
        lastSuccess := res;
        if fixInconsistencies {
          res := SynResult(o.repair(res.app), res.status);
        }
        viewAdded, fixed, gen := Extend(o, apps, n, devices, res.app, fixed, gen, round);
        round := round + 1;
      }
    }

    /** ok is false where the original's checks abort.  The loop converges when a repaired answer leaves nothing
        wrong but what is pinned; otherwise some round has no answer. */
    method Synthesize<A(!new)>(o: Oracles<A>, blank: A, n: nat, apps: seq<seq<View>>, devices: nat)
      returns (ok: bool, res: SynResult<A>, ghost queries: seq<seq<seq<View>>>, ghost converged: bool,
               ghost fixed: seq<set<nat>>)
      requires n > 0 && (forall d :: 0 <= d < |apps| ==> |apps[d]| == n) && devices <= |apps| && Renders(o, n)
      modifies this
      ensures |queries| <= devices * (n - 1) + 1
      ensures forall k :: 0 <= k < |queries| ==> Query(apps, n, devices, queries[k], k)
      ensures ok ==>
                && |queries| >= 1 && Specified(apps, n, devices, queries[|queries| - 1], fixed, |queries| - 1)
                && Succeeded(o, apps, n, devices, baseSynFallback, fixInconsistencies, queries,
                             if converged then |queries| else |queries| - 1)
      // the application: the last answer, repaired; or the last success before a round without an answer, as it
      // was; or the fallback's answer when there was no success at all
      ensures ok ==> res.status == Success
      ensures ok && converged ==>
                var last := |queries| - 1;
                && res.app == Candidate(o, baseSynFallback, fixInconsistencies, last, queries[last])
                && Settled(o, apps, res.app, fixed, devices)
      ensures ok && !converged ==>
                var last := |queries| - 1;
                && Answer(o, baseSynFallback, last, queries[last]).status != Success
                && if last > 0 then res == Answer(o, baseSynFallback, last - 1, queries[last - 1])
                   else o.fallback.Some? && res == o.fallback.value(0, queries[0])
      // the statistics: one pin a round, and what is wrong and not pinned
      ensures ok ==> devices <= |fixed|
                     && fixedViews == old(fixedViews) + |queries| - 1 + WrongViews(o, apps, res.app, fixed, devices)
      ensures ok && converged ==> fixedViews == old(fixedViews) + |queries| - 1
      ensures totalViews == old(totalViews) + if ok then (n - 1) * |apps| else 0
      ensures fixedViews - old(fixedViews) <= totalViews - old(totalViews)
      // the checks that abort: a view without a position, or no fallback, or no answer of its own, where one is
      // needed
      ensures ok ==> forall d, j :: 0 <= d < |apps| && 0 <= j < |apps[d]| ==> HasFixedPosition(apps[d][j])
      ensures !ok ==>
                || (exists d, j :: 0 <= d < |apps| && 0 <= j < |apps[d]| && !HasFixedPosition(apps[d][j]))
                || (|queries| >= 1
                    && var last := |queries| - 1;
                       && o.base(last, queries[last]).status != Success
                       && if o.fallback.None? then baseSynFallback || last == 0
                          else last == 0 && o.fallback.value(0, queries[0]).status != Success)
    {
      hide Specified;
      hide Settled;
      hide WrongViews;
      hide Renders;
      hide Query;
      hide Succeeded;
      queries, converged, fixed, res := [], false, [], SynResult(blank, Invalid);
      ok := AllFixed(apps);
      if !ok {
        return;
      }
      var lastSuccess, pinned, gen, round;
      ok, res, lastSuccess, pinned, gen, round, queries := Rounds(o, blank, n, apps, devices);
      fixed := pinned;
      SpecifiedSize(apps, n, devices, gen, pinned, |queries| - 1);
      if !ok {
        SucceededFirst(o, apps, n, devices, baseSynFallback, fixInconsistencies, queries, round);
        return;
      }
      if lastSuccess.status != Success {
        SucceededFirst(o, apps, n, devices, baseSynFallback, fixInconsistencies, queries, round);
        if o.fallback.None? {
          return false, res, queries, converged, fixed;
        }
        lastSuccess := o.fallback.value(round, gen);
      }
      if lastSuccess.status != Success {
        return false, res, queries, converged, fixed;
      }
      converged := res.status == Success;
      if res.status != Success {
        res := lastSuccess;
      }
      var num := NumInconsistentViewsNotInSpec(o, apps, n, devices, res.app, pinned);
      PinsBound(o, res.app, apps, n, devices, gen, pinned, |queries| - 1);
      if converged {
        SettledNone(o, apps, res.app, pinned, devices);
      }
      fixedViews := fixedViews + num;
      totalViews := totalViews + (n - 1) * |apps|;
      var pins := 0;
      for d := 0 to |pinned|
        invariant pins == Pins(pinned, d)
      {
        pins := pins + |pinned[d]|;
      }
      fixedViews := fixedViews + pins;
    }
  }
}
