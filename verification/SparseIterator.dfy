/** two_d_iterator: a walk over the assigned values, row by row, that skips the empty groups. */
module SparseIterator {
  import opened Wrappers
  import opened SparseGroup
  import opened SparseTable

  /** The number of assigned indices in the groups before a row. */
  function Before<T>(c: seq<Option<T>>, size: nat, row: nat): nat {
    |Packed(Take(c, row * size))|
  }

  lemma {:induction false} BeforeMonotone<T>(c: seq<Option<T>>, size: nat, row: nat, row': nat)
    requires row <= row'
    ensures Before(c, size, row) <= Before(c, size, row')
    decreases row'
  {
    hide Take;
    hide Window;
    hide Packed;
    if row < row' {
      BeforeMonotone(c, size, row, row' - 1);
      TakeWindow(c, size, row' - 1);
    }
  }

  lemma BeforeAll<T>(c: seq<Option<T>>, size: nat)
    requires size > 0
    ensures Before(c, size, 0) == 0 && Before(c, size, NumGroups(|c|, size)) == |Packed(c)|
  {
    TakeWhole(c, size);
  }

  /** An index is ranked by the groups before its own and the assigned places before its own. */
  lemma RankOfIndex<T>(c: seq<Option<T>>, size: nat, row: nat, r: nat)
    requires r < size && Index(row, r, size) < |c|
    ensures |Packed(c[..Index(row, r, size)])| == Before(c, size, row) + |Packed(Window(c, size, row)[..r])|
    ensures c[Index(row, r, size)] == Window(c, size, row)[r]
  {
    var from := row * size;
    assert forall k :: 0 <= k < size ==> Index(row, k, size) == from + k;
    assert c[..from + r] == c[..from] + Window(c, size, row)[..r];
    PackedConcat(c[..from], Window(c, size, row)[..r]);
  }

  /** An assigned index is ranked strictly below every later one. */
  lemma RankGrows<T>(c: seq<Option<T>>, i: nat, j: nat)
    requires i < j <= |c| && c[i].Some?
    ensures |Packed(c[..i])| < |Packed(c[..j])|
  {
    PackedSplit(c[..j], i);
    assert c[..j][..i] == c[..i];
  }

  lemma RankUnique<T>(c: seq<Option<T>>, i: nat, j: nat)
    requires i < |c| && j < |c| && c[i].Some? && c[j].Some? && |Packed(c[..i])| == |Packed(c[..j])|
    ensures i == j
  {
    if i < j {
      RankGrows(c, i, j);
    } else if j < i {
      RankGrows(c, j, i);
    }
  }

  class Iterator<T(==, 0)> {
    const table: SparseTable<T>
    var row: nat
    var col: nat

    ghost predicate InRow()
      reads this, table, table.Repr
    {
      && table.Valid() && this !in table.Repr
      && row <= |table.groups| && (row < |table.groups| ==> col <= table.groups[row].numBuckets)
    }

    /** The place is the end, or holds a value. */
    ghost predicate Valid()
      reads this, table, table.Repr
    {
      InRow() && (row < |table.groups| ==> col < table.groups[row].numBuckets)
    }

    /** How many assigned indices lie before the place. */
    ghost function Rank(): nat
      requires InRow()
      reads this, table, table.Repr
    {
      if row < |table.groups| then Before(table.Contents, table.size, row) + col else |Packed(table.Contents)|
    }

    lemma Ends()
      requires table.Valid()
      ensures table.size > 0 && table.numBuckets == |Packed(table.Contents)|
      ensures Before(table.Contents, table.size, 0) == 0
      ensures Before(table.Contents, table.size, |table.groups|) == |Packed(table.Contents)|
    {
      BeforeAll(table.Contents, table.size);
    }

    /** The count of a row, and how the ranks go on behind it. */
    lemma Row(r: nat)
      requires table.Valid() && r < |table.groups|
      ensures table.groups[r].numBuckets == |Packed(Window(table.Contents, table.size, r))|
      ensures Before(table.Contents, table.size, r + 1)
              == Before(table.Contents, table.size, r) + table.groups[r].numBuckets
    {
      TakeWindow(table.Contents, table.size, r);
    }

    /** nonempty_begin. */
    constructor Begin(table: SparseTable<T>)
      requires table.Valid()
      ensures this.table == table && Valid() && Rank() == 0
    {
      this.table := table;
      row, col := 0, 0;
      new;
      Ends();
      if row != |table.groups| {
        AdvancePastEnd();
      }
    }

    /** nonempty_end. */
    constructor End(table: SparseTable<T>)
      requires table.Valid()
      ensures this.table == table && Valid() && Rank() == table.numBuckets && row == |table.groups|
    {
      this.table := table;
      row, col := |table.groups|, 0;
    }

    method AdvancePastEnd()
      requires InRow() && row < |table.groups|
      modifies this
      ensures Valid() && Rank() == old(Rank())
    {
      hide Before;
      hide SparseTable<T>.Valid;
      Ends();
      while col == table.groups[row].numBuckets
        invariant InRow() && row < |table.groups| && Rank() == old(Rank())
        decreases |table.groups| - row
      {
        Row(row);
        row := row + 1;
        if row != |table.groups| {
          col := 0;
        } else {
          break;
        }
      }
    }

    method Increment()
      requires Valid() && row != |table.groups|
      modifies this
      ensures Valid() && Rank() == old(Rank()) + 1
    {
      col := col + 1;
      AdvancePastEnd();
    }

    method Decrement()
      requires Valid() && Rank() > 0
      modifies this
      ensures Valid() && row != |table.groups| && Rank() == old(Rank()) - 1
    {
      hide Before;
      hide SparseTable<T>.Valid;
      Ends();
      while row == |table.groups| || col == 0
        invariant InRow() && Rank() == old(Rank())
        decreases row
      {
        assert row != 0;
        row := row - 1;
        col := table.groups[row].numBuckets;
        Row(row);
      }
      col := col - 1;
    }

    /** operator==, for iterators over one table. */
    method Equals(other: Iterator<T>) returns (same: bool)
      requires Valid() && other.Valid() && table == other.table
      ensures same <==> Rank() == other.Rank()
    {
      same := row == other.row && (row == |table.groups| || col == other.col);
      if row < other.row {
        InOrder(other);
      } else if other.row < row {
        other.InOrder(this);
      }
    }

    /** it == nonempty_end(). */
    method AtEnd() returns (atEnd: bool)
      requires Valid()
      ensures atEnd <==> row == |table.groups|
      ensures Rank() <= |Packed(table.Contents)| && (atEnd <==> Rank() == |Packed(table.Contents)|)
    {
      hide Before;
      hide SparseTable<T>.Valid;
      Ends();
      var end := new Iterator<T>.End(table);
      atEnd := Equals(end);
      if row < |table.groups| {
        InOrder(end);
      }
    }

    lemma InOrder(other: Iterator<T>)
      requires Valid() && other.Valid() && table == other.table && row < other.row
      ensures Rank() < other.Rank()
    {
      hide Before;
      Row(row);
      BeforeMonotone(table.Contents, table.size, row + 1, other.row);
      Ends();
    }

    /** The value that the place holds. */
    method Value() returns (v: T)
      requires Valid() && row != |table.groups|
      ensures Rank() < |Packed(table.Contents)| && v == Packed(table.Contents)[Rank()]
    {
      hide Before;
      v := table.groups[row].group[col];
      Row(row);
      BeforeMonotone(table.Contents, table.size, row + 1, |table.groups|);
      Ends();
      PackedWindow(table.Contents, table.size, row);
    }

    /** get_iter. */
    constructor GetIter(table: SparseTable<T>, i: nat)
      requires table.Valid() && i < |table.Contents| && table.Contents[i].Some?
      ensures this.table == table && Valid() && row != |table.groups| && Rank() == |Packed(table.Contents[..i])|
    {
      hide Before;
      hide Packed;
      hide GroupNum;
      hide PosInGroup;
      hide SparseTable<T>.Valid;
      table.GroupOf(i);
      PlaceOf(table, i);
      RankGrows(table.Contents, i, |table.Contents|);
      assert table.Contents[..|table.Contents|] == table.Contents;
      var offset := table.groups[GroupNum(i, table.size)].Offset(PosInGroup(i, table.size));
      this.table := table;
      row, col := GroupNum(i, table.size), offset;
      new;
      AdvancePastEnd();
    }

    /** get_pos. */
    method GetPos() returns (i: nat)
      requires Valid() && row != |table.groups|
      ensures i < |table.Contents| && table.Contents[i].Some? && Rank() == |Packed(table.Contents[..i])|
    {
      var r := table.groups[row].OffsetToPos(col);
      i := row * table.size + r;
      assert i == Index(row, r, table.size);
      RankOfIndex(table.Contents, table.size, row, r);
    }
  }

  /** The place where get_iter looks for an assigned index. */
  lemma PlaceOf<T(0)>(table: SparseTable<T>, i: nat)
    requires table.Valid() && i < |table.Contents| && table.Contents[i].Some? && table.size > 0
    requires GroupNum(i, table.size) < |table.groups|
    requires PosInGroup(i, table.size) < |table.groups[GroupNum(i, table.size)].Contents|
    ensures var g, r := table.groups[GroupNum(i, table.size)], PosInGroup(i, table.size);
            && |Packed(g.Contents[..r])| < g.numBuckets
            && |Packed(table.Contents[..i])|
               == Before(table.Contents, table.size, GroupNum(i, table.size)) + |Packed(g.Contents[..r])|
  {
    hide Before;
    hide Packed;
    hide GroupNum;
    hide PosInGroup;
    hide Index;
    var row, r := GroupNum(i, table.size), PosInGroup(i, table.size);
    IndexSplit(i, table.size);
    RankOfIndex(table.Contents, table.size, row, r);
    RankGrows(table.groups[row].Contents, r, table.size);
    assert table.groups[row].Contents[..table.size] == table.groups[row].Contents;
  }

  /** The packed array of a group is the part of the table's that starts at the group's rank. */
  lemma PackedWindow<T>(c: seq<Option<T>>, size: nat, row: nat)
    ensures Before(c, size, row + 1) == Before(c, size, row) + |Packed(Window(c, size, row))|
    ensures Before(c, size, row) <= |Packed(c)|
    ensures Packed(c)[..Before(c, size, row)] + Packed(Window(c, size, row)) <= Packed(c)
  {
    hide Window;
    hide Packed;
    hide Take;
    TakePrefix(c, (row + 1) * size);
    TakeWindow(c, size, row);
  }

  /** Different places hold values of different ranks. */
  lemma PlaceUnique<T>(c: seq<Option<T>>, size: nat, row: nat, col: nat, row': nat, col': nat)
    requires col < |Packed(Window(c, size, row))| && col' < |Packed(Window(c, size, row'))|
    ensures row < row' ==> Before(c, size, row) + col < Before(c, size, row') + col'
    ensures Before(c, size, row) + col == Before(c, size, row') + col' ==> row == row' && col == col'
  {
    hide Window;
    hide Packed;
    hide Take;
    TakeWindow(c, size, row);
    TakeWindow(c, size, row');
    if row < row' {
      BeforeMonotone(c, size, row + 1, row');
    } else if row' < row {
      BeforeMonotone(c, size, row' + 1, row);
    }
  }

  /** Decrement undoes increment. */
  method IncrementThenDecrement<T(==, 0)>(it: Iterator<T>)
    requires it.Valid() && it.row != |it.table.groups|
    modifies it
    ensures it.Valid() && it.row == old(it.row) && it.col == old(it.col)
  {
    it.Increment();
    it.Decrement();
    PlaceUnique(it.table.Contents, it.table.size, it.row, it.col, old(it.row), old(it.col));
  }

  /** get_pos undoes get_iter. */
  method IterThenPos<T(==, 0)>(table: SparseTable<T>, i: nat) returns (pos: nat)
    requires table.Valid() && i < |table.Contents| && table.Contents[i].Some?
    ensures pos == i
  {
    var it := new Iterator.GetIter(table, i);
    pos := it.GetPos();
    RankUnique(table.Contents, i, pos);
  }

  /** Index i is assigned, and the k-th such one. */
  ghost predicate Ranked<T>(c: seq<Option<T>>, i: nat, k: nat) {
    i < |c| && c[i].Some? && |Packed(c[..i])| == k
  }

  /** A list that holds the k-th assigned index under every k holds them all, in ascending order. */
  lemma AllRanked<T>(c: seq<Option<T>>, positions: seq<nat>)
    requires |positions| == |Packed(c)| && forall k :: 0 <= k < |positions| ==> Ranked(c, positions[k], k)
    ensures forall i, j :: 0 <= i < j < |positions| ==> positions[i] < positions[j]
    ensures forall i :: i in positions <==> i in AssignedIndices(c)
    ensures forall k :: 0 <= k < |positions| ==> positions[k] < |c| && c[positions[k]] == Some(Packed(c)[k])
  {
    hide Packed;
    forall i, j | 0 <= i < j < |positions| ensures positions[i] < positions[j] {
      assert Ranked(c, positions[i], i) && Ranked(c, positions[j], j);
      if positions[j] < positions[i] {
        RankGrows(c, positions[j], positions[i]);
      }
    }
    forall i | i in AssignedIndices(c) ensures i in positions {
      RankGrows(c, i, |c|);
      assert c[..|c|] == c;
      var k := |Packed(c[..i])|;
      assert Ranked(c, positions[k], k);
      RankUnique(c, i, positions[k]);
    }
    forall k | 0 <= k < |positions| ensures positions[k] < |c| && c[positions[k]] == Some(Packed(c)[k]) {
      assert Ranked(c, positions[k], k);
      PackedSplit(c, positions[k]);
    }
  }

  /** A walk from begin to end meets every assigned index once, in ascending order, and its value. */
  method Traverse<T(==, 0)>(table: SparseTable<T>) returns (positions: seq<nat>, values: seq<T>)
    requires table.Valid()
    ensures forall i, j :: 0 <= i < j < |positions| ==> positions[i] < positions[j]
    ensures forall i :: i in positions <==> i in AssignedIndices(table.Contents)
    ensures values == Packed(table.Contents) && |positions| == |values|
    ensures forall k :: 0 <= k < |positions| ==>
              positions[k] < |table.Contents| && table.Contents[positions[k]] == Some(values[k])
  {
    hide Packed;
    hide Iterator<T>.Rank;
    hide SparseTable<T>.Valid;
    positions, values := [], [];
    var it := new Iterator<T>.Begin(table);
    var done := it.AtEnd();
    while !done
      invariant it.table == table && fresh(it) && it.Valid() && it.Rank() == |positions|
      invariant |positions| <= |Packed(table.Contents)| && (done <==> |positions| == |Packed(table.Contents)|)
      invariant done <==> it.row == |table.groups|
      invariant values == Packed(table.Contents)[..|positions|]
      invariant forall k :: 0 <= k < |positions| ==> Ranked(table.Contents, positions[k], k)
      decreases |Packed(table.Contents)| - |positions|
    {
      var pos := it.GetPos();
      var v := it.Value();
      assert Ranked(table.Contents, pos, |positions|);
      positions, values := positions + [pos], values + [v];
      it.Increment();
      done := it.AtEnd();
    }
    AllRanked(table.Contents, positions);
  }
}
