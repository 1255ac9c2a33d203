/** sparsetable: an array of optional values in groups of GROUP_SIZE, with a count of assigned indices. */
module SparseTable {
  import opened Wrappers
  import opened SparseBits
  import opened SparseGroup

  // ---- Windows: the part of the table that a group holds ----

  function At<T>(c: seq<Option<T>>, i: nat): Option<T> {
    if i < |c| then c[i] else None
  }

  /** group_num and pos_in_group, and the index they stand for. */
  function GroupNum(i: nat, size: nat): nat
    requires size > 0
  {
    i / size
  }

  function PosInGroup(i: nat, size: nat): (r: nat)
    requires size > 0
    ensures r < size
  {
    i % size
  }

  function Index(k: nat, r: nat, size: nat): nat {
    k * size + r
  }

  lemma MulMonotone(a: int, b: int, size: nat)
    requires a <= b
    ensures a * size <= b * size
  {
  }

  lemma IndexSplit(i: nat, size: nat)
    requires size > 0
    ensures Index(GroupNum(i, size), PosInGroup(i, size), size) == i
  {
  }

  lemma IndexUnique(k: nat, r: nat, size: nat)
    requires r < size
    ensures GroupNum(Index(k, r, size), size) == k && PosInGroup(Index(k, r, size), size) == r
  {
    var i := Index(k, r, size);
    var q := i / size;
    assert q * size + i % size == k * size + r;
    if q > k {
      MulMonotone(k + 1, q, size);
    } else if q < k {
      MulMonotone(q + 1, k, size);
    }
  }

  /** Indices ascend with the group, then with the place in it. */
  lemma IndexOrder(k: nat, r: nat, k': nat, r': nat, size: nat)
    requires r < size && r' < size
    ensures Index(k, r, size) < Index(k', r', size) <==> k < k' || (k == k' && r < r')
  {
    if k < k' {
      MulMonotone(k + 1, k', size);
    } else if k' < k {
      MulMonotone(k' + 1, k, size);
    }
  }

  function Window<T>(c: seq<Option<T>>, size: nat, k: nat): (w: seq<Option<T>>)
    ensures |w| == size && forall r :: 0 <= r < size ==> w[r] == At(c, Index(k, r, size))
  {
    seq(size, r requires 0 <= r < size => At(c, Index(k, r, size)))
  }

  lemma WindowUpdate<T>(c: seq<Option<T>>, size: nat, i: nat, v: Option<T>, k: nat)
    requires size > 0 && i < |c|
    ensures Window(c[i := v], size, k)
            == if k == GroupNum(i, size) then Window(c, size, k)[PosInGroup(i, size) := v] else Window(c, size, k)
  {
    hide Index;
    hide GroupNum;
    hide PosInGroup;
    forall r | 0 <= r < size
      ensures Index(k, r, size) == i <==> k == GroupNum(i, size) && r == PosInGroup(i, size)
    {
      IndexUnique(k, r, size);
      IndexSplit(i, size);
    }
  }

  /** num_groups. */
  function NumGroups(num: nat, size: nat): nat
    requires size > 0
  {
    if num == 0 then 0 else (num - 1) / size + 1
  }

  /** An index below num lies in one of the groups for num, and an index in a group before the last one
      lies below num. */
  lemma GroupsCover(num: nat, size: nat, k: nat, r: nat)
    requires r < size
    ensures Index(k, r, size) < num ==> k < NumGroups(num, size)
    ensures k + 1 < NumGroups(num, size) ==> Index(k, r, size) < num
  {
    if num > 0 {
      hide Index;
      hide GroupNum;
      var q, m := GroupNum(num - 1, size), PosInGroup(num - 1, size);
      LastGroup(num, size);
      IndexSplit(num - 1, size);
      IndexOrder(k, r, q, m, size);
      IndexOrder(q, m, k, r, size);
    }
  }

  lemma LastGroup(num: nat, size: nat)
    requires size > 0 && num > 0
    ensures NumGroups(num, size) == GroupNum(num - 1, size) + 1
  {
  }

  /** What the table finds under an index: the group, and the place in its window. */
  lemma Locate<T>(c: seq<Option<T>>, size: nat, i: nat)
    requires size > 0 && i < |c|
    ensures GroupNum(i, size) < NumGroups(|c|, size)
    ensures Window(c, size, GroupNum(i, size))[PosInGroup(i, size)] == c[i]
  {
    IndexSplit(i, size);
    GroupsCover(|c|, size, GroupNum(i, size), PosInGroup(i, size));
  }

  /** The table's contents when it gets a new size: cut off, or filled up with unassigned indices. */
  function Resized<T>(c: seq<Option<T>>, n: nat): (r: seq<Option<T>>)
    ensures |r| == n && forall i :: 0 <= i < n ==> r[i] == At(c, i)
  {
    if n <= |c| then c[..n] else c + Empty(n - |c|)
  }

  /** Indices cut off by a shrink are unassigned after a later grow. */
  lemma ShrinkThenGrow<T>(c: seq<Option<T>>, m: nat, n: nat, i: nat)
    requires m <= i < n
    ensures Resized(Resized(c, m), n)[i] == None
  {
  }

  lemma NumGroupsMonotone(m: nat, n: nat, size: nat)
    requires size > 0 && m <= n
    ensures NumGroups(m, size) <= NumGroups(n, size)
  {
    if m > 0 {
      GroupsCover(n, size, GroupNum(m - 1, size), PosInGroup(m - 1, size));
    }
  }

  lemma WindowGrown<T>(c: seq<Option<T>>, size: nat, n: nat, k: nat)
    requires |c| <= n
    ensures Window(Resized(c, n), size, k) == Window(c, size, k)
  {
    hide Index;
    hide Resized;
  }

  lemma WindowBeyond<T>(c: seq<Option<T>>, size: nat, k: nat)
    requires size > 0 && NumGroups(|c|, size) <= k
    ensures Window(c, size, k) == Empty(size)
  {
    hide Index;
    hide NumGroups;
    forall r | 0 <= r < size ensures At(c, Index(k, r, size)) == None {
      GroupsCover(|c|, size, k, r);
    }
  }

  lemma WindowCut<T>(c: seq<Option<T>>, size: nat, n: nat, k: nat)
    requires size > 0 && n <= |c| && k < NumGroups(n, size)
    ensures var r := PosInGroup(n, size);
            Window(Resized(c, n), size, k)
            == if k + 1 < NumGroups(n, size) || r == 0 then Window(c, size, k)
               else Window(c, size, k)[..r] + Empty(size - r)
  {
    hide Index;
    hide NumGroups;
    hide PosInGroup;
    hide GroupNum;
    hide Resized;
    forall r | 0 <= r < size
      ensures Index(k, r, size) < n <==>
              k + 1 < NumGroups(n, size) || PosInGroup(n, size) == 0 || r < PosInGroup(n, size)
    {
      InCut(size, n, k, r);
    }
  }

  /** Which places of the groups for n stand for indices below n. */
  lemma InCut(size: nat, n: nat, k: nat, r: nat)
    requires r < size && k < NumGroups(n, size)
    ensures Index(k, r, size) < n <==>
            k + 1 < NumGroups(n, size) || PosInGroup(n, size) == 0 || r < PosInGroup(n, size)
  {
    hide Index;
    hide NumGroups;
    hide PosInGroup;
    hide GroupNum;
    GroupsCover(n, size, k, r);
    var q, m := GroupNum(n, size), PosInGroup(n, size);
    LastGroup'(n, size);
    IndexSplit(n, size);
    IndexOrder(k, r, q, m, size);
  }

  lemma LastGroup'(n: nat, size: nat)
    requires size > 0
    ensures NumGroups(n, size) == if PosInGroup(n, size) == 0 then GroupNum(n, size) else GroupNum(n, size) + 1
  {
    var q, m := n / size, n % size;
    if n > 0 {
      var q', m' := (n - 1) / size, (n - 1) % size;
      assert q * size + m == q' * size + m' + 1;
      if m == 0 {
        if q' >= q {
          MulMonotone(q, q', size);
        } else if q' + 1 < q {
          MulMonotone(q' + 2, q, size);
        }
      } else {
        if q' > q {
          MulMonotone(q + 1, q', size);
        } else if q' < q {
          MulMonotone(q' + 1, q, size);
        }
      }
    }
  }

  // ---- Counting ----

  function Take<T>(c: seq<Option<T>>, n: nat): seq<Option<T>> {
    if n <= |c| then c[..n] else c
  }

  lemma TakeWindow<T>(c: seq<Option<T>>, size: nat, k: nat)
    ensures Packed(Take(c, (k + 1) * size)) == Packed(Take(c, k * size)) + Packed(Window(c, size, k))
  {
    hide Packed;
    var from, to := k * size, (k + 1) * size;
    assert to == from + size;
    WindowAt(c, size, k);
    var w := Window(c, size, k);
    hide Window;
    if to <= |c| {
      assert c[..to] == c[..from] + w;
      PackedConcat(c[..from], w);
    } else if from <= |c| {
      assert w == c[from..] + Empty<T>(to - |c|);
      assert c == c[..from] + c[from..];
      PackedConcat(c[from..], Empty<T>(to - |c|));
      PackedConcat(c[..from], c[from..]);
      PackedEmpty<T>(to - |c|);
    } else {
      assert w == Empty<T>(size);
      PackedEmpty<T>(size);
    }
  }

  lemma WindowAt<T>(c: seq<Option<T>>, size: nat, k: nat)
    ensures forall r :: 0 <= r < size ==> Window(c, size, k)[r] == At(c, k * size + r)
  {
    assert forall r :: 0 <= r < size ==> Index(k, r, size) == k * size + r;
  }

  lemma TakePrefix<T>(c: seq<Option<T>>, n: nat)
    ensures Packed(Take(c, n)) <= Packed(c)
  {
    if n <= |c| {
      assert c == c[..n] + c[n..];
      PackedConcat(c[..n], c[n..]);
    }
  }

  lemma TakeWhole<T>(c: seq<Option<T>>, size: nat)
    requires size > 0
    ensures Take(c, 0) == [] && Take(c, NumGroups(|c|, size) * size) == c
  {
    if c != [] {
      LastGroup(|c|, size);
      IndexSplit(|c| - 1, size);
    }
  }

  lemma CountUpdate<T>(c: seq<Option<T>>, i: nat, v: Option<T>)
    requires i < |c|
    ensures |Packed(c[i := v])| == |Packed(c)| - One(c[i].Some?) + One(v.Some?)
  {
    PackedSplit(c, i);
    PackedUpdate(c, i, v);
  }

  class SparseTable<T(==, 0)> {
    const size: nat
    const defaultValue: T
    var groups: seq<SparseGroup<T>>
    var tableSize: nat
    var numBuckets: nat
    ghost var Contents: seq<Option<T>>
    ghost var Repr: set<object>

    /** The groups share no state. */
    ghost predicate GroupsShaped()
      reads this, Repr
    {
      && this in Repr && 0 < size <= 0xFFFF
      && (forall k :: 0 <= k < |groups| ==> groups[k] in Repr && groups[k].Repr <= Repr)
      && (forall k :: 0 <= k < |groups| ==>
            && this !in groups[k].Repr && groups[k].Shaped()
            && groups[k].size == size && groups[k].defaultValue == defaultValue)
      && (forall j, k :: 0 <= j < k < |groups| ==> groups[j].Repr !! groups[k].Repr)
    }

    ghost predicate GroupsValid()
      reads this, Repr
    {
      GroupsShaped() && forall k :: 0 <= k < |groups| ==> groups[k].Valid()
    }

    ghost predicate Holds(c: seq<Option<T>>)
      reads this, groups
    {
      forall k :: 0 <= k < |groups| ==> groups[k].Contents == Window(c, size, k)
    }

    ghost predicate Valid()
      reads this, Repr
      ensures Valid() ==> this in Repr
    {
      && GroupsValid() && |groups| == NumGroups(tableSize, size)
      && |Contents| == tableSize && Holds(Contents) && numBuckets == |Packed(Contents)|
    }

    /** What an operation on index i needs to know about the group that holds it. */
    lemma GroupOf(i: nat)
      requires Valid() && i < |Contents|
      ensures this in Repr && size > 0 && GroupNum(i, size) < |groups|
      ensures var g := groups[GroupNum(i, size)];
              && g.Valid() && g in Repr && g.Repr <= Repr && this !in g.Repr
              && g.size == size && g.defaultValue == defaultValue
              && g.numBuckets <= numBuckets
              && |g.Contents| == size && g.Contents[PosInGroup(i, size)] == Contents[i]
    {
      hide Index;
      hide GroupNum;
      hide PosInGroup;
      hide NumGroups;
      Locate(Contents, size, i);
      TakePrefix(Contents, GroupNum(i, size) * size);
      TakePrefix(Contents, (GroupNum(i, size) + 1) * size);
      TakeWindow(Contents, size, GroupNum(i, size));
    }

    /** Group k is what it was. */
    twostate predicate SameGroup(k: nat)
      requires old(GroupsShaped()) && GroupsShaped() && k < |groups| && groups == old(groups)
      reads this, Repr
    {
      var g := groups[k];
      && g.Repr == old(g.Repr) && g.Contents == old(g.Contents)
      && g.numBuckets == old(g.numBuckets) && g.bitmap[..] == old(g.bitmap[..])
      && (old(g.Valid()) ==> g.Valid())
    }

    /** An operation on one group keeps the others. */
    twostate lemma OneShaped(j: nat)
      requires old(GroupsShaped()) && groups == old(groups) && j < |groups|
      requires forall o: object :: o in old(Repr) && o !in old(groups[j].Repr) && o != this ==> unchanged(o)
      requires groups[j].Shaped() && fresh(groups[j].Repr - old(groups[j].Repr)) && Repr == old(Repr) + groups[j].Repr
      ensures GroupsShaped() && fresh(Repr - old(Repr))
      ensures forall k :: 0 <= k < |groups| && k != j ==> SameGroup(k)
    {
      hide SparseGroup<T>.Valid;
      forall k | 0 <= k < |groups| && k != j
        ensures groups[k].Repr == old(groups[k].Repr) && groups[k].Shaped() && SameGroup(k)
      {
        assert groups[k].Repr !! old(groups[j].Repr);
      }
    }

    twostate lemma OneGroup(j: nat)
      requires old(GroupsValid()) && groups == old(groups) && j < |groups|
      requires forall o: object :: o in old(Repr) && o !in old(groups[j].Repr) && o != this ==> unchanged(o)
      requires groups[j].Valid() && fresh(groups[j].Repr - old(groups[j].Repr)) && Repr == old(Repr) + groups[j].Repr
      ensures GroupsValid() && fresh(Repr - old(Repr))
      ensures forall k :: 0 <= k < |groups| && k != j ==> groups[k].Contents == old(groups[k].Contents)
    {
      hide GroupsShaped;
      OneShaped(j);
      forall k | 0 <= k < |groups| && k != j
        ensures groups[k].Valid() && groups[k].Contents == old(groups[k].Contents)
      {
        assert SameGroup(k);
      }
    }

    constructor (tableSize: nat, size: nat, defaultValue: T)
      requires 0 < size <= 0xFFFF
      ensures Valid() && fresh(Repr) && this.size == size && this.defaultValue == defaultValue
      ensures Contents == Empty(tableSize)
    {
      hide Window;
      this.size, this.defaultValue := size, defaultValue;
      groups, this.tableSize, numBuckets := [], 0, 0;
      Contents := [];
      new;
      Repr := {this};
      assert GroupsValid();
      hide GroupsValid;
      ResizeGroups(NumGroups(tableSize, size));
      label M:
      this.tableSize := tableSize;
      Contents := Empty(tableSize);
      NoGroup@M();
      AllEmpty(tableSize);
    }

    /** With every group empty, the table holds nothing. */
    lemma AllEmpty(n: nat)
      requires forall k :: 0 <= k < |groups| ==> groups[k].Contents == Empty(size)
      ensures Holds(Empty(n)) && Packed(Empty<T>(n)) == []
    {
      PackedEmpty<T>(n);
      forall k | 0 <= k < |groups| ensures groups[k].Contents == Window(Empty(n), size, k) {
        assert Window(Empty<T>(n), size, k) == Empty<T>(size);
      }
    }

    /** vector::resize: groups dropped from the end, or empty ones added. */
    method ResizeGroups(n: nat)
      requires GroupsValid()
      modifies this`groups, this`Repr
      ensures GroupsValid() && fresh(Repr - old(Repr)) && old(Repr) <= Repr && |groups| == n
      ensures forall k :: 0 <= k < n && k < |old(groups)| ==> groups[k] == old(groups)[k]
      ensures forall k :: |old(groups)| <= k < n ==> groups[k].Contents == Empty(size)
    {
      hide GroupsValid;
      if n < |groups| {
        DropGroups(n);
      }
      while |groups| < n
        invariant GroupsValid() && fresh(Repr - old(Repr)) && old(Repr) <= Repr && |groups| <= n
        invariant n <= |old(groups)| ==> |groups| == n
        invariant forall k :: 0 <= k < |groups| && k < |old(groups)| ==> groups[k] == old(groups)[k]
        invariant forall k :: |old(groups)| <= k < |groups| ==> groups[k].Contents == Empty(size)
      {
        AddGroup();
      }
    }

    method DropGroups(n: nat)
      requires GroupsValid() && n <= |groups|
      modifies this`groups
      ensures GroupsValid() && groups == old(groups[..n])
    {
      groups := groups[..n];
    }

    method AddGroup()
      requires GroupsValid()
      modifies this`groups, this`Repr
      ensures GroupsValid() && fresh(Repr - old(Repr)) && old(Repr) <= Repr
      ensures |groups| == |old(groups)| + 1 && groups[..|old(groups)|] == old(groups)
      ensures groups[|old(groups)|].Contents == Empty(size)
    {
      var g := new SparseGroup<T>(size, defaultValue);
      groups := groups + [g];
      Repr := Repr + g.Repr;
    }

    method Test(i: nat) returns (found: bool)
      requires Valid() && i < tableSize
      ensures found == Contents[i].Some?
    {
      hide Index;
      hide GroupNum;
      hide PosInGroup;
      hide NumGroups;
      hide Packed;
      Locate(Contents, size, i);
      found := groups[GroupNum(i, size)].BmTest(PosInGroup(i, size));
    }

    method Get(i: nat) returns (v: T)
      requires Valid() && i < tableSize
      ensures v == if Contents[i].Some? then Contents[i].value else defaultValue
    {
      hide Index;
      hide GroupNum;
      hide PosInGroup;
      hide NumGroups;
      hide Packed;
      Locate(Contents, size, i);
      v := groups[GroupNum(i, size)].Get(PosInGroup(i, size));
    }

    /** An operation that changes index i, and its place in its group alike, keeps the table valid once the
        sum of the counts follows the group's. */
    twostate lemma OneIndex(i: nat)
      requires old(Valid()) && i < tableSize == old(tableSize) && groups == old(groups)
      requires size > 0 && GroupNum(i, size) < |groups|
      requires forall o: object :: o in old(Repr) && o !in old(groups[GroupNum(i, size)].Repr) && o != this ==>
                 unchanged(o)
      requires var g := groups[GroupNum(i, size)];
               && g.Valid() && fresh(g.Repr - old(g.Repr)) && Repr == old(Repr) + g.Repr
               && numBuckets == old(numBuckets) + g.numBuckets - old(g.numBuckets)
               && |Contents| == tableSize && Contents == old(Contents)[i := Contents[i]]
               && |old(g.Contents)| == size && g.Contents == old(g.Contents)[PosInGroup(i, size) := Contents[i]]
      ensures Valid() && fresh(Repr - old(Repr))
    {
      var j := GroupNum(i, size);
      hide Index;
      hide GroupNum;
      hide PosInGroup;
      hide NumGroups;
      hide Packed;
      hide GroupsValid;
      GroupCounts(j);
      Locate(old(Contents), size, i);
      CountUpdate(old(groups[j].Contents), PosInGroup(i, size), Contents[i]);
      CountUpdate(old(Contents), i, Contents[i]);
      OneGroup(j);
      forall k | 0 <= k < |groups| ensures groups[k].Contents == Window(Contents, size, k) {
        WindowUpdate(old(Contents), size, i, Contents[i], k);
      }
    }

    twostate lemma GroupCounts(k: nat)
      requires old(GroupsValid()) && groups == old(groups) && k < |groups| && groups[k].Valid()
      ensures groups[k].numBuckets == |Packed(groups[k].Contents)| && size > 0
      ensures old(groups[k].numBuckets) == |Packed(old(groups[k].Contents))|
    {
    }

    method Set(i: nat, val: T) returns (r: T)
      requires Valid() && i < tableSize
      modifies Repr
      ensures Valid() && fresh(Repr - old(Repr)) && tableSize == old(tableSize)
      ensures Contents == old(Contents)[i := Some(val)] && r == val
    {
      hide Window;
      hide GroupNum;
      hide PosInGroup;
      hide NumGroups;
      hide Packed;
      hide GroupsValid;
      hide SparseGroup<T>.Valid;
      GroupOf(i);
      var g := groups[GroupNum(i, size)];
      var oldNumBuckets := g.numBuckets;
      r := g.Set(PosInGroup(i, size), val);
      numBuckets := numBuckets + g.numBuckets - oldNumBuckets;
      Repr := Repr + g.Repr;
      Contents := Contents[i := Some(val)];
      OneIndex(i);
    }

    method Erase(i: nat)
      requires Valid() && i < tableSize
      modifies Repr
      ensures Valid() && fresh(Repr - old(Repr)) && tableSize == old(tableSize)
      ensures Contents == old(Contents)[i := None]
    {
      hide Window;
      hide GroupNum;
      hide PosInGroup;
      hide NumGroups;
      hide Packed;
      hide GroupsValid;
      hide SparseGroup<T>.Valid;
      GroupOf(i);
      var g := groups[GroupNum(i, size)];
      var oldNumBuckets := g.numBuckets;
      g.Erase(PosInGroup(i, size));
      numBuckets := numBuckets + g.numBuckets - oldNumBuckets;
      Repr := Repr + g.Repr;
      Contents := Contents[i := None];
      OneIndex(i);
    }

    method MutatingGet(i: nat) returns (r: T)
      requires Valid() && i < tableSize
      modifies Repr
      ensures Valid() && fresh(Repr - old(Repr)) && tableSize == old(tableSize)
      ensures Contents == old(if Contents[i].Some? then Contents else Contents[i := Some(defaultValue)])
      ensures Contents[i] == Some(r)
    {
      hide Window;
      hide GroupNum;
      hide PosInGroup;
      hide NumGroups;
      hide Packed;
      hide GroupsValid;
      hide SparseGroup<T>.Valid;
      GroupOf(i);
      var g := groups[GroupNum(i, size)];
      var oldNumBuckets := g.numBuckets;
      r := g.MutatingGet(PosInGroup(i, size));
      numBuckets := numBuckets + g.numBuckets - oldNumBuckets;
      Repr := Repr + g.Repr;
      Contents := Contents[i := Some(r)];
      OneIndex(i);
    }

    method Clear()
      requires Valid()
      modifies Repr
      ensures Valid() && fresh(Repr - old(Repr)) && Contents == Empty(tableSize) && tableSize == old(tableSize)
    {
      hide Window;
      hide NumGroups;
      hide Packed;
      hide GroupsShaped;
      for i := 0 to |groups|
        invariant GroupsValid() && fresh(Repr - old(Repr)) && groups == old(groups)
        invariant tableSize == old(tableSize)
        invariant forall k :: 0 <= k < i ==> groups[k].Contents == Empty(size)
      {
        GroupParts(i);
        label L:
        groups[i].Clear();
        Repr := Repr + groups[i].Repr;
        OneGroup@L(i);
      }
      label M:
      numBuckets := 0;
      Contents := Empty(tableSize);
      NoGroup@M();
      AllEmpty(tableSize);
    }

    /** Counts and sizes do not matter to the groups. */
    twostate lemma NoGroup()
      requires old(GroupsValid()) && groups == old(groups) && Repr == old(Repr)
      requires forall o: object :: o in Repr && o != this ==> unchanged(o)
      ensures GroupsValid() && forall k :: 0 <= k < |groups| ==> groups[k].Contents == old(groups[k].Contents)
    {
    }

    lemma GroupParts(k: nat)
      requires GroupsShaped() && k < |groups|
      ensures this in Repr && 0 < size
      ensures var g := groups[k];
              g.Shaped() && g in Repr && g.Repr <= Repr && this !in g.Repr && g.size == size
      ensures GroupsValid() ==> groups[k].Valid()
    {
    }

    /** Dropping the groups behind n and clearing the last group's places behind it leaves the contents
        cut off at n. */
    lemma Shrunk(c: seq<Option<T>>, n: nat)
      requires n < |c| && size > 0 && |groups| == NumGroups(n, size)
      requires forall k :: 0 <= k < |groups| ==>
                 groups[k].Contents == if k + 1 < |groups| || PosInGroup(n, size) == 0 then Window(c, size, k)
                 else Window(c, size, k)[..PosInGroup(n, size)] + Empty(size - PosInGroup(n, size))
      ensures Holds(Resized(c, n))
    {
      hide Window;
      hide Resized;
      hide NumGroups;
      hide PosInGroup;
      forall k | 0 <= k < |groups| ensures groups[k].Contents == Window(Resized(c, n), size, k) {
        WindowCut(c, size, n, k);
      }
    }

    /** Adding empty groups adds unassigned indices. */
    twostate lemma Grown(n: nat)
      requires old(Valid()) && old(tableSize) <= n && size > 0 && |groups| == NumGroups(n, size)
      requires forall k :: 0 <= k < |groups| ==>
                 groups[k].Contents == if k < |old(groups)| then old(groups[k].Contents) else Empty(size)
      ensures Holds(Resized(old(Contents), n)) && Packed(Resized(old(Contents), n)) == old(Packed(Contents))
    {
      hide Window;
      hide NumGroups;
      hide Packed;
      var c := old(Contents);
      PackedConcat(c, Empty<T>(n - |c|));
      PackedEmpty<T>(n - |c|);
      assert Resized(c, n) == c + Empty<T>(n - |c|);
      forall k | 0 <= k < |groups| ensures groups[k].Contents == Window(Resized(c, n), size, k) {
        WindowGrown(c, size, n, k);
        if |old(groups)| <= k {
          WindowBeyond(c, size, k);
        }
      }
    }

    method Resize(newSize: nat)
      requires Valid()
      modifies Repr
      ensures Valid() && fresh(Repr - old(Repr)) && tableSize == newSize
      ensures Contents == Resized(old(Contents), newSize)
    {
      hide Window;
      hide NumGroups;
      hide Packed;
      hide GroupNum;
      hide PosInGroup;
      hide Resized;
      hide GroupsShaped;
      SizePositive();
      ResizeGroups(NumGroups(newSize, size));
      if newSize < tableSize {
        NumGroupsMonotone(newSize, tableSize, size);
        LastGroup'(newSize, size);
        if PosInGroup(newSize, size) > 0 {
          var last := |groups| - 1;
          GroupParts(last);
          label L:
          groups[last].EraseRange(PosInGroup(newSize, size), size);
          Repr := Repr + groups[last].Repr;
          OneGroup@L(last);
        }
        Shrunk(Contents, newSize);
        Recount(Resized(Contents, newSize));
      } else {
        Grown(newSize);
      }
      label M:
      Contents := Resized(Contents, newSize);
      tableSize := newSize;
      NoGroup@M();
    }

    lemma SizePositive()
      requires Valid()
      ensures size > 0 && this in Repr
    {
    }

    /** The sum of the groups' counts. */
    method Recount(ghost c: seq<Option<T>>)
      requires GroupsValid() && Holds(c) && |groups| == NumGroups(|c|, size)
      modifies this`numBuckets
      ensures GroupsValid() && Holds(c) && numBuckets == |Packed(c)|
    {
      hide Packed;
      hide Take;
      hide NumGroups;
      TakeWhole(c, size);
      numBuckets := 0;
      for k := 0 to |groups|
        invariant numBuckets == |Packed(Take(c, k * size))|
      {
        TakeWindow(c, size, k);
        numBuckets := numBuckets + groups[k].numBuckets;
      }
    }

    /** operator==: the sizes, the counts, and the groups. */
    method Equals(other: SparseTable<T>) returns (same: bool)
      requires Valid() && other.Valid() && size == other.size && defaultValue == other.defaultValue
      ensures same <==> Contents == other.Contents
    {
      hide Window;
      hide NumGroups;
      hide Packed;
      if tableSize != other.tableSize || numBuckets != other.numBuckets {
        return false;
      }
      for k := 0 to |groups|
        invariant forall j :: 0 <= j < k ==> Window(Contents, size, j) == Window(other.Contents, size, j)
      {
        var equal := groups[k].Equals(other.groups[k]);
        if !equal {
          return false;
        }
      }
      SameWindows(Contents, other.Contents, size);
      same := true;
    }
  }

  lemma SameWindows<T>(c: seq<Option<T>>, d: seq<Option<T>>, size: nat)
    requires size > 0 && |c| == |d|
    requires forall k :: 0 <= k < NumGroups(|c|, size) ==> Window(c, size, k) == Window(d, size, k)
    ensures c == d
  {
    hide Window;
    hide NumGroups;
    hide GroupNum;
    hide PosInGroup;
    forall i | 0 <= i < |c| ensures c[i] == d[i] {
      Locate(c, size, i);
      Locate(d, size, i);
    }
  }

  // ---- Whole runs ----

  datatype Op<T> = SetOp(i: nat, val: T) | MutatingGetOp(i: nat) | EraseOp(i: nat) | ClearOp | ResizeOp(n: nat)

  /** What one operation makes of an array of optional values. */
  function Apply<T>(c: seq<Option<T>>, op: Op<T>, default_: T): seq<Option<T>>
    requires Allowed(c, op)
  {
    match op
    case SetOp(i, val) => c[i := Some(val)]
    case MutatingGetOp(i) => if c[i].Some? then c else c[i := Some(default_)]
    case EraseOp(i) => c[i := None]
    case ClearOp => Empty(|c|)
    case ResizeOp(n) => Resized(c, n)
  }

  /** set, erase and mutating_get assert that their index lies in the table. */
  predicate Allowed<T>(c: seq<Option<T>>, op: Op<T>) {
    (op.SetOp? || op.MutatingGetOp? || op.EraseOp?) ==> op.i < |c|
  }

  ghost predicate AllAllowed<T>(c: seq<Option<T>>, ops: seq<Op<T>>, default_: T)
    decreases |ops|
  {
    ops == [] || (Allowed(c, ops[0]) && AllAllowed(Apply(c, ops[0], default_), ops[1..], default_))
  }

  ghost function Run<T>(c: seq<Option<T>>, ops: seq<Op<T>>, default_: T): seq<Option<T>>
    requires AllAllowed(c, ops, default_)
    decreases |ops|
  {
    if ops == [] then c else Run(Apply(c, ops[0], default_), ops[1..], default_)
  }

  method Perform<T(==, 0)>(table: SparseTable<T>, op: Op<T>)
    requires table.Valid() && Allowed(table.Contents, op)
    modifies table.Repr
    ensures table.Valid() && fresh(table.Repr - old(table.Repr))
    ensures table.Contents == Apply(old(table.Contents), op, table.defaultValue)
  {
    match op {
      case SetOp(i, val) => var _ := table.Set(i, val);
      case MutatingGetOp(i) => var _ := table.MutatingGet(i);
      case EraseOp(i) => table.Erase(i);
      case ClearOp => table.Clear();
      case ResizeOp(n) => table.Resize(n);
    }
  }

  /** The table after any run holds what the array of optional values holds, and counts its assigned indices. */
  method PerformAll<T(==, 0)>(table: SparseTable<T>, ops: seq<Op<T>>)
    requires table.Valid() && AllAllowed(table.Contents, ops, table.defaultValue)
    modifies table.Repr
    ensures table.Valid() && fresh(table.Repr - old(table.Repr))
    ensures table.Contents == Run(old(table.Contents), ops, table.defaultValue)
    ensures table.numBuckets == |AssignedIndices(table.Contents)|
    ensures forall k :: 0 <= k < |table.groups| ==>
              table.groups[k].numBuckets == |AssignedIndices(Window(table.Contents, table.size, k))|
  {
    var i := 0;
    while i < |ops|
      invariant i <= |ops| && table.Valid() && fresh(table.Repr - old(table.Repr))
      invariant AllAllowed(table.Contents, ops[i..], table.defaultValue)
      invariant Run(old(table.Contents), ops, table.defaultValue) == Run(table.Contents, ops[i..], table.defaultValue)
    {
      assert ops[i..][1..] == ops[i + 1..];
      Perform(table, ops[i]);
      i := i + 1;
    }
    CountAssigned(table.Contents);
    forall k | 0 <= k < |table.groups|
      ensures table.groups[k].numBuckets == |AssignedIndices(Window(table.Contents, table.size, k))|
    {
      CountAssigned(Window(table.Contents, table.size, k));
    }
  }

  function AssignedIndices<T>(c: seq<Option<T>>): set<nat> {
    set i: nat | i < |c| && c[i].Some?
  }

  lemma {:induction false} CountAssigned<T>(c: seq<Option<T>>)
    ensures |Packed(c)| == |AssignedIndices(c)|
  {
    if c != [] {
      var n := |c| - 1;
      CountAssigned(c[..n]);
      assert AssignedIndices(c) == AssignedIndices(c[..n]) + if c[n].Some? then {n} else {};
    }
  }

  /** What a run makes of one index, by itself. */
  ghost function RunAt<T>(v: Option<T>, size: nat, i: nat, ops: seq<Op<T>>, default_: T): Option<T>
    decreases |ops|
  {
    if ops == [] then v
    else
      var op, n := ops[0], if ops[0].ResizeOp? then ops[0].n else size;
      var w := if op.SetOp? && op.i == i then Some(op.val)
               else if op.MutatingGetOp? && op.i == i && v.None? then Some(default_)
               else if (op.EraseOp? && op.i == i) || op.ClearOp? || (op.ResizeOp? && op.n <= i) then None
               else v;
      RunAt(w, n, i, ops[1..], default_)
  }

  /** Over a whole run, no index is touched by the operations on another one. */
  lemma {:induction false} IndicesIndependent<T>(c: seq<Option<T>>, ops: seq<Op<T>>, default_: T, i: nat)
    requires AllAllowed(c, ops, default_)
    ensures At(Run(c, ops, default_), i) == RunAt(At(c, i), |c|, i, ops, default_)
    decreases |ops|
  {
    if ops != [] {
      IndicesIndependent(Apply(c, ops[0], default_), ops[1..], default_, i);
    }
  }
}
