/** serialize and unserialize: a sparse table as bytes, and back. */
module SparseFile {
  import opened Wrappers
  import opened SparseBytes
  import opened SparseGroup
  import opened SparseTable
  import opened SparseIterator

  const MAGIC_NUMBER: nat := 0x24687531
  const SIZE_LIMIT: nat := 0x1_0000_0000_0000_0000

  /** What the groups from the k-th on write. */
  function GroupsMetadata<T>(c: seq<Option<T>>, size: nat, k: nat): bytes
    requires size > 0
    decreases NumGroups(|c|, size) - k
  {
    if k >= NumGroups(|c|, size) then [] else Metadata(Window(c, size, k)) + GroupsMetadata(c, size, k + 1)
  }

  function TableMetadata<T>(c: seq<Option<T>>, size: nat): bytes
    requires size > 0
  {
    SizeBytes(MAGIC_NUMBER) + SizeBytes(|c|) + SizeBytes(|Packed(c)|) + GroupsMetadata(c, size, 0)
  }

  /** The file of a table. */
  function Saved<T>(c: seq<Option<T>>, size: nat, ser: T -> bytes): bytes
    requires size > 0
  {
    TableMetadata(c, size) + Values(ser, Packed(c))
  }

  // ---- The metadata by position ----

  /** Bytes per group: a count of two bytes, and a bit for every index of the group. */
  function GroupWidth(size: nat): nat {
    2 + (size + 7) / 8
  }

  /** Where k groups end. */
  function GroupsWidth(size: nat, k: nat): nat {
    k * GroupWidth(size)
  }

  lemma WidthStep(size: nat, k: nat)
    ensures GroupsWidth(size, k + 1) == GroupWidth(size) + GroupsWidth(size, k)
  {
  }

  lemma NoWidth(size: nat)
    ensures GroupsWidth(size, 0) == 0
  {
  }

  /** The k-th group's bytes lie at their place behind the three sizes. */
  ghost predicate GroupPlaced<T>(c: seq<Option<T>>, size: nat, s: bytes, header: nat, k: nat) {
    var from := header + GroupsWidth(size, k);
    from + GroupWidth(size) <= |s| && GroupForm(Window(c, size, k), s[from..from + GroupWidth(size)])
  }

  function HeaderLength(num: nat, values: nat): nat {
    4 + (if num < 4294967295 then 4 else 12) + if values < 4294967295 then 4 else 12
  }

  /** The magic number, the size of the table and the number of values. */
  ghost predicate HeaderForm(num: nat, values: nat, s: bytes) {
    var first, header := if num < 4294967295 then 8 else 16, HeaderLength(num, values);
    && |s| >= header && s[..4] == [0x24, 0x68, 0x75, 0x31]
    && SizeForm(num, s[4..first]) && SizeForm(values, s[first..header])
  }

  /** The header, and n groups, just enough for the size. */
  ghost predicate MetadataForm<T>(c: seq<Option<T>>, size: nat, n: nat, s: bytes) {
    var header := HeaderLength(|c|, |Packed(c)|);
    && HeaderForm(|c|, |Packed(c)|, s) && |s| == header + GroupsWidth(size, n)
    && |c| <= n * size && (n > 0 ==> (n - 1) * size < |c|)
    && forall k :: 0 <= k < n ==> GroupPlaced(c, size, s, header, k)
  }

  lemma JustEnough(num: nat, size: nat)
    requires size > 0
    ensures var n := NumGroups(num, size); num <= n * size && (n > 0 ==> (n - 1) * size < num)
  {
    if num > 0 {
      var q := (num - 1) / size;
      assert num - 1 == q * size + (num - 1) % size;
      assert (q + 1) * size == q * size + size;
    }
  }

  lemma {:induction false} GroupsLength<T>(c: seq<Option<T>>, size: nat, k: nat)
    requires size > 0 && k <= NumGroups(|c|, size)
    ensures |GroupsMetadata(c, size, k)| == GroupsWidth(size, NumGroups(|c|, size) - k)
    decreases NumGroups(|c|, size) - k
  {
    hide NumGroups;
    hide GroupForm;
    hide Window;
    hide Metadata;
    hide GroupsWidth;
    hide GroupWidth;
    var n := NumGroups(|c|, size);
    if k < n {
      GroupsLength(c, size, k + 1);
      GroupLength(Window(c, size, k));
      WidthStep(size, n - (k + 1));
      assert n - k == n - (k + 1) + 1;
    } else {
      NoWidth(size);
    }
  }

  lemma GroupLength<T>(w: seq<Option<T>>)
    requires |w| > 0
    ensures |Metadata(w)| == GroupWidth(|w|) && GroupForm(w, Metadata(w))
  {
    GroupExact(w);
  }

  /** Group j among what the groups from the k-th on write. */
  lemma {:induction false} GroupAt<T>(c: seq<Option<T>>, size: nat, k: nat, j: nat)
    requires size > 0 && k <= j < NumGroups(|c|, size)
    ensures var from := GroupsWidth(size, j - k);
            && from + GroupWidth(size) <= |GroupsMetadata(c, size, k)|
            && GroupForm(Window(c, size, j), GroupsMetadata(c, size, k)[from..from + GroupWidth(size)])
    decreases j - k
  {
    hide NumGroups;
    hide GroupForm;
    hide Metadata;
    hide GroupWidth;
    hide Window;
    var w := GroupWidth(size);
    var s, one, rest := GroupsMetadata(c, size, k), Metadata(Window(c, size, k)), GroupsMetadata(c, size, k + 1);
    assert s == one + rest && |Window(c, size, k)| == size;
    GroupLength(Window(c, size, k));
    if j == k {
      NoWidth(size);
      assert s[0..w] == one;
    } else {
      GroupAt(c, size, k + 1, j);
      var from := GroupsWidth(size, j - (k + 1));
      WidthStep(size, j - (k + 1));
      Behind(one, rest, from, from + w);
    }
    hide GroupsWidth;
  }

  lemma Behind(a: bytes, b: bytes, from: nat, to: nat)
    requires from <= to <= |b|
    ensures (a + b)[|a| + from..|a| + to] == b[from..to]
  {
  }

  lemma HeaderExact(num: nat, values: nat, rest: bytes)
    ensures var s := SizeBytes(MAGIC_NUMBER) + SizeBytes(num) + SizeBytes(values) + rest;
            && HeaderForm(num, values, s) && |s| == HeaderLength(num, values) + |rest|
            && s[HeaderLength(num, values)..] == rest
  {
    SizeExact(MAGIC_NUMBER);
    SizeExact(num);
    SizeExact(values);
    hide SizeBytes;
    Sections(SizeBytes(MAGIC_NUMBER), SizeBytes(num), SizeBytes(values), rest);
  }

  lemma Sections(m: bytes, a: bytes, b: bytes, d: bytes)
    ensures var s := m + a + b + d;
            && s[..|m|] == m && s[|m|..|m| + |a|] == a && s[|m| + |a|..|m| + |a| + |b|] == b
            && s[|m| + |a| + |b|..] == d
  {
  }

  lemma Slice(s: bytes, header: nat, from: nat, to: nat)
    requires header <= |s| && from <= to <= |s| - header
    ensures s[header + from..header + to] == s[header..][from..to]
  {
  }

  lemma Placed<T>(c: seq<Option<T>>, size: nat, s: bytes, header: nat, k: nat)
    requires size > 0 && k < NumGroups(|c|, size) && header <= |s| && s[header..] == GroupsMetadata(c, size, 0)
    ensures GroupPlaced(c, size, s, header, k)
  {
    hide GroupForm;
    hide NumGroups;
    hide Window;
    hide GroupsMetadata;
    GroupAt(c, size, 0, k);
    hide GroupWidth;
    hide GroupsWidth;
    var from, w := GroupsWidth(size, k), GroupWidth(size);
    Slice(s, header, from, from + w);
  }

  lemma MetadataExact<T>(c: seq<Option<T>>, size: nat)
    requires size > 0
    ensures MetadataForm(c, size, NumGroups(|c|, size), TableMetadata(c, size))
  {
    hide Packed;
    hide NumGroups;
    hide HeaderForm;
    hide HeaderLength;
    hide GroupsWidth;
    hide GroupsMetadata;
    hide GroupPlaced;
    var s, header := TableMetadata(c, size), HeaderLength(|c|, |Packed(c)|);
    HeaderExact(|c|, |Packed(c)|, GroupsMetadata(c, size, 0));
    JustEnough(|c|, size);
    GroupsLength(c, size, 0);
    hide TableMetadata;
    hide SizeBytes;
    forall k | 0 <= k < NumGroups(|c|, size) ensures GroupPlaced(c, size, s, header, k) {
      Placed(c, size, s, header, k);
    }
  }

  // ---- Writing ----

  method WriteMetadata<T(==, 0)>(table: SparseTable<T>) returns (out: bytes)
    requires table.Valid()
    ensures table.size > 0 && out == TableMetadata(table.Contents, table.size)
    ensures MetadataForm(table.Contents, table.size, |table.groups|, out)
  {
    hide SizeBytes;
    hide Metadata;
    hide Packed;
    hide Window;
    hide NumGroups;
    var c, size := table.Contents, table.size;
    MetadataExact(c, size);
    hide MetadataForm;
    out := WriteSize(MAGIC_NUMBER);
    var s := WriteSize(table.tableSize);
    out := out + s;
    s := WriteSize(table.numBuckets);
    out := out + s;
    for k := 0 to |table.groups|
      invariant out + GroupsMetadata(c, size, k) == TableMetadata(c, size)
    {
      s := table.groups[k].WriteMetadata();
      Associate(out, s, GroupsMetadata(c, size, k + 1));
      out := out + s;
    }
  }

  lemma Associate(a: bytes, b: bytes, d: bytes)
    ensures a + (b + d) == (a + b) + d
  {
  }

  method Serialize<T(==, 0)>(table: SparseTable<T>, ser: T -> bytes) returns (out: bytes)
    requires table.Valid()
    ensures table.size > 0 && out == Saved(table.Contents, table.size, ser)
  {
    hide TableMetadata;
    hide Packed;
    hide Iterator<T>.Rank;
    hide SparseTable<T>.Valid;
    out := WriteMetadata(table);
    ghost var p, metadata := Packed(table.Contents), out;
    assert Values(ser, p[..0]) == [];
    hide Values;
    var it := new Iterator<T>.Begin(table);
    var done := it.AtEnd();
    while !done
      invariant it.table == table && fresh(it) && it.Valid() && it.Rank() <= |p|
      invariant (done <==> it.Rank() == |p|) && (done <==> it.row == |table.groups|)
      invariant out == metadata + Values(ser, p[..it.Rank()])
      decreases |p| - it.Rank()
    {
      var v := it.Value();
      OneMore(ser, p, it.Rank());
      out := out + ser(v);
      it.Increment();
      done := it.AtEnd();
    }
    assert p[..|p|] == p;
  }

  lemma OneMore<T>(ser: T -> bytes, p: seq<T>, k: nat)
    requires k < |p|
    ensures Values(ser, p[..k + 1]) == Values(ser, p[..k]) + ser(p[k])
  {
    assert p[..k + 1] == p[..k] + [p[k]];
    ValuesConcat(ser, p[..k], [p[k]]);
    assert Values(ser, [p[k]]) == ser(p[k]) + [];
  }

  // ---- Reading ----

  /** The table has the sizes, counts and bitmaps of c. */
  ghost predicate Announces<T(0)>(table: SparseTable<T>, c: seq<Option<T>>)
    requires table.GroupsShaped()
    reads table, table.Repr
  {
    && table.tableSize == |c| && table.numBuckets == |Packed(c)| && |table.groups| == NumGroups(|c|, table.size)
    && forall k :: 0 <= k < |table.groups| ==> Announced(table, c, k)
  }

  ghost predicate Announced<T(0)>(table: SparseTable<T>, c: seq<Option<T>>, k: nat)
    requires table.GroupsShaped() && k < |table.groups|
    reads table, table.Repr
  {
    Announcement(table.groups[k].numBuckets, table.groups[k].bitmap[..], Window(c, table.size, k))
  }

  ghost predicate Announcement<T>(numBuckets: nat, bm: seq<bv8>, w: seq<Option<T>>) {
    |w| > 0 && numBuckets == |Packed(w)| && bm == BitmapOf(w)
  }

  method ReadMetadata<T(==, 0)>(table: SparseTable<T>, input: bytes, ghost c: seq<Option<T>>, ghost tail: bytes)
    returns (ok: bool, rest: bytes)
    requires table.Valid()
    modifies table.Repr
    ensures table.GroupsShaped() && fresh(table.Repr - old(table.Repr))
    ensures |c| < SIZE_LIMIT && input == TableMetadata(c, table.size) + tail ==>
              ok && rest == tail && Announces(table, c)
  {
    hide SizeBytes;
    hide GroupsMetadata;
    hide Packed;
    hide NumGroups;
    hide Announced;
    table.SizePositive();
    ghost var r3 := GroupsMetadata(c, table.size, 0) + tail;
    ghost var r2 := SizeBytes(|Packed(c)|) + r3;
    ghost var r1 := SizeBytes(|c|) + r2;
    assert TableMetadata(c, table.size) + tail == SizeBytes(MAGIC_NUMBER) + r1;
    var magic, n, num;
    ok, magic, rest := ReadSize(input, MAGIC_NUMBER, r1);
    if !ok {
      return;
    }
    if magic != MAGIC_NUMBER {
      table.Clear();
      return false, rest;
    }
    ok, n, rest := ReadSize(rest, |c|, r2);
    if !ok {
      return;
    }
    ok, num, rest := ReadNumBuckets(table, n, rest, |Packed(c)|, r3);
    if !ok {
      return;
    }
    table.ResizeGroups(NumGroups(n, table.size));
    ok, rest := ReadGroups(table, rest, c, tail);
  }

  /** Stores the size, and the count behind it. */
  method ReadNumBuckets<T(==, 0)>(table: SparseTable<T>, n: nat, input: bytes, ghost v: nat, ghost tail: bytes)
    returns (ok: bool, num: nat, rest: bytes)
    requires table.GroupsValid()
    modifies table`tableSize, table`numBuckets
    ensures table.GroupsValid() && table.tableSize == n && (ok ==> table.numBuckets == num)
    ensures v < SIZE_LIMIT && input == SizeBytes(v) + tail ==> ok && num == v && rest == tail
  {
    hide SizeBytes;
    table.tableSize := n;
    ok, num, rest := ReadSize(input, v, tail);
    if ok {
      table.numBuckets := num;
    }
  }

  method ReadGroup<T(==, 0)>(table: SparseTable<T>, k: nat, input: bytes, ghost c: seq<Option<T>>, ghost tail: bytes)
    returns (ok: bool, rest: bytes)
    requires table.GroupsShaped() && k < |table.groups|
    modifies table.Repr
    ensures table.GroupsShaped() && fresh(table.Repr - old(table.Repr)) && table.groups == old(table.groups)
    ensures table.tableSize == old(table.tableSize) && table.numBuckets == old(table.numBuckets)
    ensures forall j :: 0 <= j < |table.groups| && j != k && old(Announced(table, c, j)) ==> Announced(table, c, j)
    ensures input == Metadata(Window(c, table.size, k)) + tail ==> ok && rest == tail && Announced(table, c, k)
  {
    assert table.size > 0;
    hide Packed;
    hide Window;
    hide Metadata;
    hide BitmapOf;
    hide SparseTable<T>.GroupsShaped;
    hide SparseGroup<T>.Shaped;
    table.GroupParts(k);
    label L:
    var g := table.groups[k];
    ok, rest := g.ReadMetadata(input, Window(c, table.size, k), tail);
    table.Repr := table.Repr + g.Repr;
    table.OneShaped@L(k);
    forall j | 0 <= j < |table.groups| && j != k && old(Announced(table, c, j)) ensures Announced(table, c, j) {
      assert table.SameGroup@L(j);
      assert table.groups[j].bitmap[..] == old(table.groups[j].bitmap[..]);
    }
  }

  method ReadGroups<T(==, 0)>(table: SparseTable<T>, input: bytes, ghost c: seq<Option<T>>, ghost tail: bytes)
    returns (ok: bool, rest: bytes)
    requires table.GroupsShaped()
    modifies table.Repr
    ensures table.GroupsShaped() && fresh(table.Repr - old(table.Repr)) && table.groups == old(table.groups)
    ensures table.tableSize == old(table.tableSize) && table.numBuckets == old(table.numBuckets)
    ensures |table.groups| == NumGroups(|c|, table.size) && input == GroupsMetadata(c, table.size, 0) + tail ==>
              ok && rest == tail && forall k :: 0 <= k < |table.groups| ==> Announced(table, c, k)
  {
    assert table.size > 0;
    hide Announced;
    hide Window;
    hide NumGroups;
    hide Metadata;
    hide SparseTable<T>.GroupsShaped;
    ghost var written :=
      |table.groups| == NumGroups(|c|, table.size) && input == GroupsMetadata(c, table.size, 0) + tail;
    rest := input;
    for k := 0 to |table.groups|
      invariant table.GroupsShaped() && fresh(table.Repr - old(table.Repr)) && table.groups == old(table.groups)
      invariant table.tableSize == old(table.tableSize) && table.numBuckets == old(table.numBuckets)
      invariant written ==> rest == GroupsMetadata(c, table.size, k) + tail
      invariant written ==> forall j :: 0 <= j < k ==> Announced(table, c, j)
    {
      ghost var behind := GroupsMetadata(c, table.size, k + 1) + tail;
      if written {
        Associate(Metadata(Window(c, table.size, k)), GroupsMetadata(c, table.size, k + 1), tail);
      }
      ok, rest := ReadGroup(table, k, rest, c, behind);
      if !ok {
        return;
      }
    }
    ok := true;
  }

  /** Group k holds its part of c. */
  ghost predicate Restored<T(0)>(table: SparseTable<T>, c: seq<Option<T>>, k: nat)
    requires table.GroupsShaped() && k < |table.groups|
    reads table, table.Repr
  {
    table.groups[k].Valid() && table.groups[k].Contents == Window(c, table.size, k)
  }

  method ReadGroupValues<T(==, 0)>(table: SparseTable<T>, k: nat, de: bytes -> Option<(T, bytes)>, input: bytes,
                                   ghost ser: T -> bytes, ghost c: seq<Option<T>>, ghost tail: bytes)
    returns (ok: bool, rest: bytes)
    requires table.GroupsShaped() && k < |table.groups|
    modifies table.Repr
    ensures table.GroupsShaped() && table.Repr == old(table.Repr) && table.groups == old(table.groups)
    ensures table.tableSize == old(table.tableSize) && table.numBuckets == old(table.numBuckets)
    ensures forall j :: 0 <= j < |table.groups| && j != k && old(Announced(table, c, j)) ==> Announced(table, c, j)
    ensures forall j :: 0 <= j < |table.groups| && j != k && old(Restored(table, c, j)) ==> Restored(table, c, j)
    ensures old(Announced(table, c, k)) && Inverts(de, ser, Packed(Window(c, table.size, k)))
            && input == Values(ser, Packed(Window(c, table.size, k))) + tail ==>
              ok && rest == tail && Restored(table, c, k)
  {
    assert table.size > 0;
    hide Packed;
    hide Window;
    hide Values;
    hide Inverts;
    hide BitmapOf;
    hide SparseTable<T>.GroupsShaped;
    hide SparseGroup<T>.Valid;
    hide SparseGroup<T>.Shaped;
    table.GroupParts(k);
    label L:
    var g := table.groups[k];
    ok, rest := g.ReadValues(de, input, ser, Window(c, table.size, k), tail);
    table.OneShaped@L(k);
    forall j | 0 <= j < |table.groups| && j != k && old(Announced(table, c, j)) ensures Announced(table, c, j) {
      assert table.SameGroup@L(j);
      assert table.groups[j].bitmap[..] == old(table.groups[j].bitmap[..]);
    }
    forall j | 0 <= j < |table.groups| && j != k && old(Restored(table, c, j)) ensures Restored(table, c, j) {
      assert table.SameGroup@L(j);
    }
  }

  lemma InvertsPart<T>(de: bytes -> Option<(T, bytes)>, ser: T -> bytes, p: seq<T>, from: nat, to: nat)
    requires Inverts(de, ser, p) && from <= to <= |p|
    ensures Inverts(de, ser, p[from..to])
  {
    forall k, tail: bytes | 0 <= k < to - from
      ensures de(ser(p[from..to][k]) + tail) == Some((p[from..to][k], tail))
    {
      assert p[from..to][k] == p[from + k];
    }
  }

  lemma SliceOf<T>(p: seq<T>, a: seq<T>, b: seq<T>)
    requires a + b <= p
    ensures p[|a|..|a| + |b|] == b && p[|a|..] == b + p[|a| + |b|..]
  {
    assert p == (a + b) + p[|a| + |b|..];
  }

  /** The values behind those of the first k groups start with the k-th group's. */
  lemma ValuesFrom<T>(c: seq<Option<T>>, size: nat, k: nat, ser: T -> bytes, de: bytes -> Option<(T, bytes)>)
    requires Inverts(de, ser, Packed(c))
    ensures Before(c, size, k) <= Before(c, size, k + 1) <= |Packed(c)|
    ensures Values(ser, Packed(c)[Before(c, size, k)..])
            == Values(ser, Packed(Window(c, size, k))) + Values(ser, Packed(c)[Before(c, size, k + 1)..])
    ensures Inverts(de, ser, Packed(Window(c, size, k)))
  {
    hide Window;
    hide Packed;
    hide Values;
    hide Inverts;
    hide Before;
    var p, w, from := Packed(c), Packed(Window(c, size, k)), Before(c, size, k);
    PackedWindow(c, size, k);
    var to := from + |w|;
    SliceOf(p, p[..from], w);
    ValuesConcat(ser, w, p[to..]);
    InvertsPart(de, ser, p, from, to);
  }

  ghost method Finish<T(0)>(table: SparseTable<T>, c: seq<Option<T>>)
    requires table.GroupsShaped() && table.tableSize == |c| && table.numBuckets == |Packed(c)|
    requires |table.groups| == NumGroups(|c|, table.size)
    requires forall k :: 0 <= k < |table.groups| ==> Restored(table, c, k)
    modifies table`Contents
    ensures table.Valid() && table.Contents == c
  {
    hide Packed;
    hide Window;
    hide NumGroups;
    hide SparseTable<T>.GroupsShaped;
    hide SparseGroup<T>.Valid;
    forall k | 0 <= k < |table.groups|
      ensures table.groups[k].Valid() && table.groups[k].Contents == Window(c, table.size, k)
    {
      assert Restored(table, c, k);
    }
    assert table.Holds(c) && table.GroupsValid();
    hide SparseTable<T>.GroupsValid;
    label M:
    table.Contents := c;
    table.NoGroup@M();
  }

  method Unserialize<T(==, 0)>(table: SparseTable<T>, de: bytes -> Option<(T, bytes)>, input: bytes,
                               ghost ser: T -> bytes, ghost c: seq<Option<T>>, ghost tail: bytes)
    returns (ok: bool, rest: bytes)
    requires table.Valid()
    modifies table.Repr
    ensures fresh(table.Repr - old(table.Repr))
    ensures table.size > 0 && |c| < SIZE_LIMIT && Inverts(de, ser, Packed(c))
            && input == Saved(c, table.size, ser) + tail ==>
              ok && rest == tail && table.Valid() && table.Contents == c
  {
    hide TableMetadata;
    hide Packed;
    hide Before;
    hide Window;
    hide Values;
    hide Inverts;
    hide NumGroups;
    hide Announced;
    hide Restored;
    hide SparseTable<T>.GroupsShaped;
    hide SparseTable<T>.Valid;
    table.SizePositive();
    ghost var written := |c| < SIZE_LIMIT && Inverts(de, ser, Packed(c)) && input == Saved(c, table.size, ser) + tail;
    Associate(TableMetadata(c, table.size), Values(ser, Packed(c)), tail);
    BeforeAll(c, table.size);
    table.Clear();
    ok, rest := ReadMetadata(table, input, c, Values(ser, Packed(c)) + tail);
    if !ok {
      return;
    }
    assert Packed(c)[0..] == Packed(c);
    var groups := table.groups;
    for k := 0 to |groups|
      invariant table.GroupsShaped() && fresh(table.Repr - old(table.Repr)) && table.groups == groups
      invariant written ==> |c| == table.tableSize && |Packed(c)| == table.numBuckets
      invariant written ==> |table.groups| == NumGroups(|c|, table.size)
      invariant written ==> Before(c, table.size, k) <= |Packed(c)|
      invariant written ==> rest == Values(ser, Packed(c)[Before(c, table.size, k)..]) + tail
      invariant written ==> forall j :: 0 <= j < k ==> Restored(table, c, j)
      invariant written ==> forall j :: k <= j < |table.groups| ==> Announced(table, c, j)
    {
      ghost var behind := [];
      if written {
        ValuesFrom(c, table.size, k, ser, de);
        behind := Values(ser, Packed(c)[Before(c, table.size, k + 1)..]);
        Associate(Values(ser, Packed(Window(c, table.size, k))), behind, tail);
      }
      ok, rest := ReadGroupValues(table, k, de, rest, ser, c, behind + tail);
      if !ok {
        return;
      }
    }
    if written {
      NoValues(ser, Packed(c), tail);
      Finish(table, c);
    }
  }

  /** unserialize after serialize restores the table, and reads not a byte more. */
  method SaveAndRestore<T(==, 0)>(from: SparseTable<T>, to: SparseTable<T>, ser: T -> bytes,
                                  de: bytes -> Option<(T, bytes)>, tail: bytes)
    returns (ok: bool, rest: bytes)
    requires from.Valid() && to.Valid() && from.size == to.size && from.tableSize < SIZE_LIMIT
    requires Inverts(de, ser, Packed(from.Contents))
    modifies to.Repr
    ensures ok && rest == tail && to.Valid() && to.Contents == old(from.Contents)
  {
    ghost var c := from.Contents;
    var s := Serialize(from, ser);
    ok, rest := Unserialize(to, de, s + tail, ser, c, tail);
  }
}
