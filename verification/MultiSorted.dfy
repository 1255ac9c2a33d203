/** MultiSortedIterator: one descending walk over several descending lists. */
module MultiSorted {

  /** The operator > of the elements compares their keys. */
  ghost predicate Descending<T>(s: seq<T>, key: T -> real) {
    forall i, j :: 0 <= i < j < |s| ==> key(s[i]) >= key(s[j])
  }

  ghost predicate Tops<T>(values: seq<seq<T>>, top: seq<nat>) {
    |top| == |values| && forall i :: 0 <= i < |values| ==> top[i] <= |values[i]|
  }

  predicate Open<T>(values: seq<seq<T>>, top: seq<nat>, i: nat)
    requires i < |values| && i < |top|
  {
    top[i] < |values[i]|
  }

  ghost predicate Exhausted<T>(values: seq<seq<T>>, top: seq<nat>)
    requires Tops(values, top)
  {
    forall i :: 0 <= i < |values| ==> !Open(values, top, i)
  }

  /** List c is the first of those with the greatest head, or 0 when all are exhausted. */
  ghost predicate IsNext<T>(values: seq<seq<T>>, key: T -> real, top: seq<nat>, c: nat)
    requires Tops(values, top)
  {
    && c < |values|
    && (Exhausted(values, top) ==> c == 0)
    && (!Exhausted(values, top) ==>
          && Open(values, top, c)
          && forall i :: 0 <= i < |values| && Open(values, top, i) ==>
               && key(values[c][top[c]]) >= key(values[i][top[i]])
               && (i < c ==> key(values[c][top[c]]) > key(values[i][top[i]])))
  }

  class MultiSortedIterator<T> {
    const values: seq<seq<T>>
    const key: T -> real
    var top: seq<nat>
    var current: nat

    ghost predicate Valid()
      reads this
    {
      Tops(values, top) && |values| > 0 && IsNext(values, key, top, current)
    }

    constructor Begin(values: seq<seq<T>>, key: T -> real)
      requires |values| > 0
      ensures this.values == values && this.key == key && Valid()
      ensures forall i :: 0 <= i < |values| ==> top[i] == 0
    {
      this.values, this.key := values, key;
      top, current := seq(|values|, _ => 0), 0;
      new;
      SetNext();
    }

    /** The end iterator knows the first list's size, and nothing of the others. */
    constructor End(values: seq<seq<T>>, key: T -> real)
      requires |values| > 0
      ensures this.values == values && this.key == key && current == 0 && top == [|values[0]|]
    {
      this.values, this.key := values, key;
      top, current := [|values[0]|], 0;
    }

    method SetNext()
      requires Tops(values, top) && |values| > 0
      modifies this`current
      ensures Valid()
    {
      current := 0;
      var first := true;
      for i := 0 to |values|
        invariant current < |values|
        invariant first ==> current == 0 && forall j :: 0 <= j < i ==> !Open(values, top, j)
        invariant !first ==> current < i && Open(values, top, current)
        invariant !first ==> forall j :: 0 <= j < i && Open(values, top, j) ==>
                    && key(values[current][top[current]]) >= key(values[j][top[j]])
                    && (j < current ==> key(values[current][top[current]]) > key(values[j][top[j]]))
      {
        if top[i] != |values[i]| {
          assert Open(values, top, i);
          if first || key(values[i][top[i]]) > key(values[current][top[current]]) {
            current := i;
            first := false;
          }
        }
      }
    }

    method Value() returns (v: T)
      requires Valid() && !Exhausted(values, top)
      ensures v == values[current][top[current]]
    {
      v := values[current][top[current]];
    }

    method Increment()
      requires Valid() && !Exhausted(values, top)
      modifies this
      ensures Valid() && top == old(top[current := top[current] + 1])
    {
      top := top[current := top[current] + 1];
      SetNext();
    }

    method Reset()
      requires Valid()
      modifies this
      ensures Valid() && forall i :: 0 <= i < |values| ==> top[i] == 0
    {
      top := seq(|values|, _ => 0);
      SetNext();
    }

    /** operator==. */
    method Equals(other: MultiSortedIterator<T>) returns (same: bool)
      requires current < |top| && other.current < |other.top|
      ensures same <==> current == other.current && top[current] == other.top[other.current]
    {
      same := current == other.current && top[current] == other.top[other.current];
    }

    /** The end iterator is met exactly when all lists are exhausted. */
    method AtEnd() returns (atEnd: bool)
      requires Valid()
      ensures atEnd <==> Exhausted(values, top)
    {
      var end := new MultiSortedIterator<T>.End(values, key);
      atEnd := Equals(end);
      assert Exhausted(values, top) ==> !Open(values, top, 0);
    }
  }

  // ---- A whole walk ----

  /** A place: a list, and an index in it. */
  datatype Place = Place(list: nat, index: nat)

  predicate InLists<T>(values: seq<seq<T>>, p: Place) {
    p.list < |values| && p.index < |values[p.list]|
  }

  /** Descending keys; equal keys in the order of the lists, and of the places in a list. */
  ghost predicate Ahead<T>(values: seq<seq<T>>, key: T -> real, p: Place, q: Place)
    requires InLists(values, p) && InLists(values, q)
  {
    var k, l := key(values[p.list][p.index]), key(values[q.list][q.index]);
    k > l || (k == l && (p.list < q.list || (p.list == q.list && p.index < q.index)))
  }

  /** Everything that the lists hold from their tops on. */
  ghost function Remaining<T>(values: seq<seq<T>>, top: seq<nat>): multiset<T>
    requires Tops(values, top)
    decreases |values|
  {
    if values == [] then multiset{}
    else
      var n := |values| - 1;
      Remaining(values[..n], top[..n]) + multiset(values[n][top[n]..])
  }

  lemma {:induction false} RemainingStep<T>(values: seq<seq<T>>, top: seq<nat>, c: nat)
    requires Tops(values, top) && c < |values| && Open(values, top, c)
    ensures Remaining(values, top) == Remaining(values, top[c := top[c] + 1]) + multiset{values[c][top[c]]}
    decreases |values|
  {
    var n := |values| - 1;
    var top' := top[c := top[c] + 1];
    if c == n {
      assert top'[..n] == top[..n];
      assert values[n][top[n]..] == [values[n][top[n]]] + values[n][top[n] + 1..];
    } else {
      RemainingStep(values[..n], top[..n], c);
      assert top'[..n] == top[..n][c := top[c] + 1];
    }
  }

  lemma {:induction false} NoneRemaining<T>(values: seq<seq<T>>, top: seq<nat>)
    requires Tops(values, top) && Exhausted(values, top)
    ensures Remaining(values, top) == multiset{}
    decreases |values|
  {
    if values != [] {
      var n := |values| - 1;
      assert !Open(values, top, n);
      forall i | 0 <= i < n ensures !Open(values[..n], top[..n], i) {
        assert !Open(values, top, i);
      }
      NoneRemaining(values[..n], top[..n]);
    }
  }

  /** All the elements of all the lists. */
  ghost function Combined<T>(values: seq<seq<T>>): multiset<T> {
    Remaining(values, seq(|values|, _ => 0))
  }

  /** The next place is behind none that remains. */
  lemma NextAhead<T>(values: seq<seq<T>>, key: T -> real, top: seq<nat>, c: nat, q: Place)
    requires Tops(values, top) && IsNext(values, key, top, c) && !Exhausted(values, top)
    requires forall i :: 0 <= i < |values| ==> Descending(values[i], key)
    requires InLists(values, q) && top[q.list] <= q.index && q != Place(c, top[c])
    ensures Ahead(values, key, Place(c, top[c]), q)
  {
    assert Open(values, top, q.list);
    if top[q.list] < q.index {
      assert key(values[q.list][top[q.list]]) >= key(values[q.list][q.index]);
    }
  }

  /** The places visited so far: those before the tops, in order, and ahead of all others. */
  ghost predicate Walked<T>(values: seq<seq<T>>, key: T -> real, top: seq<nat>, places: seq<Place>)
    requires Tops(values, top)
  {
    && (forall i :: 0 <= i < |places| ==> InLists(values, places[i]) && places[i].index < top[places[i].list])
    && (forall i, j :: 0 <= i < j < |places| ==> Ahead(values, key, places[i], places[j]))
    && (forall p :: InLists(values, p) && p.index < top[p.list] ==> p in places)
    && (forall i, q :: 0 <= i < |places| && InLists(values, q) && top[q.list] <= q.index ==>
          Ahead(values, key, places[i], q))
  }

  lemma WalkedStep<T>(values: seq<seq<T>>, key: T -> real, top: seq<nat>, c: nat, places: seq<Place>)
    requires Tops(values, top) && IsNext(values, key, top, c) && !Exhausted(values, top)
    requires forall i :: 0 <= i < |values| ==> Descending(values[i], key)
    requires Walked(values, key, top, places)
    ensures Walked(values, key, top[c := top[c] + 1], places + [Place(c, top[c])])
  {
    var p := Place(c, top[c]);
    hide Descending;
    forall q | InLists(values, q) && top[q.list] <= q.index && q != p ensures Ahead(values, key, p, q) {
      NextAhead(values, key, top, c, q);
    }
    hide Ahead;
  }

  /** Once the lists are exhausted, every place has been visited. */
  lemma WalkedAll<T>(values: seq<seq<T>>, key: T -> real, top: seq<nat>, places: seq<Place>)
    requires Tops(values, top) && Exhausted(values, top) && Walked(values, key, top, places)
    ensures forall p :: InLists(values, p) ==> p in places
  {
    forall p | InLists(values, p) ensures p in places {
      assert !Open(values, top, p.list);
    }
  }

  /** The elements at the places. */
  ghost predicate Read<T>(values: seq<seq<T>>, places: seq<Place>, out: seq<T>) {
    && |places| == |out|
    && forall i :: 0 <= i < |places| ==> InLists(values, places[i]) && out[i] == values[places[i].list][places[i].index]
  }

  lemma ReadDescending<T>(values: seq<seq<T>>, key: T -> real, top: seq<nat>, places: seq<Place>, out: seq<T>)
    requires Tops(values, top) && Walked(values, key, top, places) && Read(values, places, out)
    ensures Descending(out, key)
  {
    forall i, j | 0 <= i < j < |out| ensures key(out[i]) >= key(out[j]) {
      assert Ahead(values, key, places[i], places[j]);
    }
  }

  lemma OneMore<T>(out: seq<T>, v: T, rest: multiset<T>)
    ensures multiset(out + [v]) + rest == multiset(out) + (rest + multiset{v})
    ensures |rest + multiset{v}| == |rest| + 1
  {
  }

  lemma NextOpen<T>(values: seq<seq<T>>, key: T -> real, top: seq<nat>, c: nat)
    requires Tops(values, top) && IsNext(values, key, top, c) && !Exhausted(values, top)
    ensures c < |values| && Open(values, top, c)
  {
  }

  /** What a walk has done before it comes to the tops. */
  ghost predicate Progress<T>(values: seq<seq<T>>, key: T -> real, top: seq<nat>, places: seq<Place>, out: seq<T>)
    requires Tops(values, top)
  {
    && Walked(values, key, top, places) && Read(values, places, out)
    && multiset(out) + Remaining(values, top) == Combined(values)
  }

  lemma NoProgress<T>(values: seq<seq<T>>, key: T -> real)
    ensures Progress(values, key, seq(|values|, _ => 0), [], [])
  {
  }

  lemma ProgressStep<T>(values: seq<seq<T>>, key: T -> real, top: seq<nat>, c: nat, places: seq<Place>, out: seq<T>)
    requires Tops(values, top) && IsNext(values, key, top, c) && !Exhausted(values, top)
    requires forall i :: 0 <= i < |values| ==> Descending(values[i], key)
    requires Progress(values, key, top, places, out)
    ensures Progress(values, key, top[c := top[c] + 1], places + [Place(c, top[c])], out + [values[c][top[c]]])
    ensures |Remaining(values, top[c := top[c] + 1])| < |Remaining(values, top)|
  {
    hide Remaining;
    hide Combined;
    hide Walked;
    RemainingStep(values, top, c);
    OneMore(out, values[c][top[c]], Remaining(values, top[c := top[c] + 1]));
    WalkedStep(values, key, top, c, places);
  }

  lemma AllProgress<T>(values: seq<seq<T>>, key: T -> real, top: seq<nat>, places: seq<Place>, out: seq<T>)
    requires Tops(values, top) && Exhausted(values, top) && Progress(values, key, top, places, out)
    ensures Read(values, places, out) && Descending(out, key) && multiset(out) == Combined(values)
    ensures forall i, j :: 0 <= i < j < |places| ==> Ahead(values, key, places[i], places[j])
    ensures forall p :: InLists(values, p) ==> p in places
  {
    NoneRemaining(values, top);
    WalkedAll(values, key, top, places);
    ReadDescending(values, key, top, places, out);
  }

  /** One step of a walk: the element, and the iterator moved on. */
  method Step<T>(it: MultiSortedIterator<T>, ghost places: seq<Place>, ghost out: seq<T>) returns (v: T, ghost p: Place)
    requires it.Valid() && !Exhausted(it.values, it.top) && Progress(it.values, it.key, it.top, places, out)
    requires forall i :: 0 <= i < |it.values| ==> Descending(it.values[i], it.key)
    modifies it
    ensures it.Valid() && Progress(it.values, it.key, it.top, places + [p], out + [v])
    ensures |Remaining(it.values, it.top)| < |Remaining(it.values, old(it.top))|
  {
    hide Progress;
    hide Remaining;
    NextOpen(it.values, it.key, it.top, it.current);
    ProgressStep(it.values, it.key, it.top, it.current, places, out);
    v := it.Value();
    p := Place(it.current, it.top[it.current]);
    it.Increment();
  }

  /** A walk from begin to end visits every place of every list once, in descending order, with ties in the
      order of the lists. */
  method Walk<T>(values: seq<seq<T>>, key: T -> real) returns (out: seq<T>, ghost places: seq<Place>)
    requires |values| > 0 && forall i :: 0 <= i < |values| ==> Descending(values[i], key)
    ensures Read(values, places, out)
    ensures forall i, j :: 0 <= i < j < |places| ==> Ahead(values, key, places[i], places[j])
    ensures forall p :: InLists(values, p) ==> p in places
    ensures Descending(out, key) && multiset(out) == Combined(values)
  {
    out, places := [], [];
    var it := new MultiSortedIterator<T>.Begin(values, key);
    assert it.top == seq(|values|, _ => 0);
    NoProgress(values, key);
    var done := it.AtEnd();
    while !done
      invariant fresh(it) && it.values == values && it.key == key && it.Valid()
      invariant (done <==> Exhausted(values, it.top)) && Progress(values, key, it.top, places, out)
      decreases |Remaining(values, it.top)|
    {
      hide Progress;
      hide Remaining;
      hide Exhausted;
      hide IsNext;
      var v;
      ghost var p;
      v, p := Step(it, places, out);
      out, places := out + [v], places + [p];
      done := it.AtEnd();
    }
    AllProgress(values, key, it.top, places, out);
  }
}
