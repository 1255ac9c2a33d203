/** sparsegroup: a fixed number of optional values, kept as a bitmap and a packed array of the assigned
    ones, addressed by counting set bits. */
module SparseGroup {
  import opened Wrappers
  import opened SparseBits
  import opened SparseBytes

  // ---- The packed form of a sequence of optional values ----

  /** The assigned values in index order. */
  function Packed<T>(c: seq<Option<T>>): (p: seq<T>)
    ensures |p| <= |c|
  {
    if c == [] then []
    else Packed(c[..|c| - 1]) + (if c[|c| - 1].Some? then [c[|c| - 1].value] else [])
  }

  lemma {:induction false} PackedConcat<T>(a: seq<Option<T>>, b: seq<Option<T>>)
    ensures Packed(a + b) == Packed(a) + Packed(b)
    decreases |b|
  {
    if b == [] {
      assert a + b == a;
    } else {
      var init := b[..|b| - 1];
      assert (a + b)[..|a + b| - 1] == a + init;
      PackedConcat(a, init);
    }
  }

  /** Splitting at index i. */
  lemma PackedSplit<T>(c: seq<Option<T>>, i: nat)
    requires i < |c|
    ensures Packed(c) == Packed(c[..i]) + (if c[i].Some? then [c[i].value] else []) + Packed(c[i + 1..])
  {
    hide Packed;
    SplitAt(c, i);
    PackedConcat(c[..i] + [c[i]], c[i + 1..]);
    PackedConcat(c[..i], [c[i]]);
    PackedOne(c[i]);
  }

  lemma SplitAt<T>(c: seq<Option<T>>, i: nat)
    requires i < |c|
    ensures c == (c[..i] + [c[i]]) + c[i + 1..]
  {
  }

  lemma PackedOne<T>(v: Option<T>)
    ensures Packed([v]) == if v.Some? then [v.value] else []
  {
    assert [v][..0] == [];
  }

  lemma PackedUpdate<T>(c: seq<Option<T>>, i: nat, v: Option<T>)
    requires i < |c|
    ensures Packed(c[i := v]) == Packed(c[..i]) + (if v.Some? then [v.value] else []) + Packed(c[i + 1..])
  {
    PackedSplit(c[i := v], i);
    assert c[i := v][..i] == c[..i] && c[i := v][i + 1..] == c[i + 1..];
  }

  function Empty<T>(n: nat): (c: seq<Option<T>>)
    ensures |c| == n && forall i :: 0 <= i < n ==> c[i] == None
  {
    seq(n, _ => None)
  }

  lemma {:induction false} PackedEmpty<T>(n: nat)
    ensures Packed(Empty<T>(n)) == []
  {
    if n > 0 {
      assert Empty<T>(n)[..n - 1] == Empty<T>(n - 1);
      PackedEmpty<T>(n - 1);
    }
  }

  /** The set bits are the assigned indices. */
  ghost predicate Marks<T>(bm: seq<bv8>, c: seq<Option<T>>) {
    && |c| <= 8 * |bm|
    && forall i :: 0 <= i < 8 * |bm| ==> (Test(bm, i) <==> i < |c| && c[i].Some?)
  }

  /** The rank of an index is where its value is, or goes, in the packed array. */
  lemma {:induction false} RankPacked<T>(bm: seq<bv8>, c: seq<Option<T>>, n: nat)
    requires Marks(bm, c) && n <= |c|
    ensures Rank(bm, n) == |Packed(c[..n])|
  {
    if n > 0 {
      RankPacked(bm, c, n - 1);
      assert c[..n][..n - 1] == c[..n - 1];
    }
  }

  lemma MarksUpdate<T>(bm: seq<bv8>, c: seq<Option<T>>, i: nat, v: Option<T>)
    requires Marks(bm, c) && i < |c|
    ensures var byte := if v.Some? then WithBit(bm[i / 8], i % 8) else WithoutBit(bm[i / 8], i % 8);
            Marks(bm[i / 8 := byte], c[i := v])
  {
    hide Test;
    var byte := if v.Some? then WithBit(bm[i / 8], i % 8) else WithoutBit(bm[i / 8], i % 8);
    var bm' := bm[i / 8 := byte];
    forall j | 0 <= j < 8 * |bm'| ensures Test(bm', j) <==> j < |c| && c[i := v][j].Some? {
      UpdatedByte(bm, i, j);
    }
  }

  lemma {:induction false} PackedLast<T>(c: seq<Option<T>>, d: seq<Option<T>>)
    requires |c| == |d| && Packed(c) == Packed(d) && forall i :: 0 <= i < |c| ==> c[i].Some? == d[i].Some?
    ensures c == d
  {
    if c != [] {
      var a, b := c[..|c| - 1], d[..|d| - 1];
      SameCount(a, b);
      assert Packed(a) == Packed(c)[..|Packed(a)|] == Packed(d)[..|Packed(b)|] == Packed(b);
      PackedLast(a, b);
      assert c == a + [c[|c| - 1]] && d == b + [d[|d| - 1]];
      if c[|c| - 1].Some? {
        assert Packed(c)[|Packed(a)|] == Packed(d)[|Packed(b)|];
      }
    }
  }

  lemma {:induction false} SameCount<T>(c: seq<Option<T>>, d: seq<Option<T>>)
    requires |c| == |d| && forall i :: 0 <= i < |c| ==> c[i].Some? == d[i].Some?
    ensures |Packed(c)| == |Packed(d)|
  {
    if c != [] {
      SameCount(c[..|c| - 1], d[..|d| - 1]);
    }
  }

  // ---- The stored form ----

  /** The first m bits of byte b of a window's bitmap. */
  function ByteOf<T>(c: seq<Option<T>>, b: nat, m: nat): bv8
    requires m <= 8
  {
    if m == 0 then 0
    else if 8 * b + m - 1 < |c| && c[8 * b + m - 1].Some? then WithBit(ByteOf(c, b, m - 1), m - 1)
    else ByteOf(c, b, m - 1)
  }

  lemma {:induction false} ByteOfBits<T>(c: seq<Option<T>>, b: nat, m: nat, j: nat)
    requires m <= 8 && j < 8
    ensures Bit(ByteOf(c, b, m), j) <==> j < m && 8 * b + j < |c| && c[8 * b + j].Some?
  {
    if m == 0 {
      NoBits(j);
    } else {
      ByteOfBits(c, b, m - 1, j);
      SetBit(ByteOf(c, b, m - 1), m - 1, j);
    }
  }

  lemma NoBits(j: nat)
    requires j < 8
    ensures !Bit(0, j)
  {
  }

  function BitmapBytes(size: nat): nat
    requires size > 0
  {
    (size - 1) / 8 + 1
  }

  function BitmapOf<T>(c: seq<Option<T>>): (bm: seq<bv8>)
    requires |c| > 0
    ensures |bm| == BitmapBytes(|c|)
  {
    seq(BitmapBytes(|c|), b requires 0 <= b => ByteOf(c, b, 8))
  }

  lemma BitmapMarks<T>(c: seq<Option<T>>)
    requires |c| > 0
    ensures Marks(BitmapOf(c), c)
  {
    var bm := BitmapOf(c);
    forall i | 0 <= i < 8 * |bm| ensures Test(bm, i) <==> i < |c| && c[i].Some? {
      ByteOfBits(c, i / 8, 8, i % 8);
    }
  }

  /** The bitmap is determined by what it marks. */
  lemma MarksUnique<T>(bm: seq<bv8>, c: seq<Option<T>>)
    requires |c| > 0 && |bm| == BitmapBytes(|c|) && Marks(bm, c)
    ensures bm == BitmapOf(c)
  {
    BitmapMarks(c);
    SameBitmap(bm, BitmapOf(c));
  }

  /** What write_metadata writes for a group. */
  function Metadata<T>(c: seq<Option<T>>): bytes
    requires |c| > 0
  {
    BigEndian(|Packed(c)|, 2) + FromBits(BitmapOf(c))
  }

  ghost predicate StoredBit(x: byte, j: nat)
    requires j < 8
  {
    (x as bv8) & (1 << j) != 0
  }

  /** Two bytes for the number of values, and one bit for every index, the lowest of a byte first. */
  ghost predicate GroupForm<T>(w: seq<Option<T>>, s: bytes) {
    && |s| == 2 + (|w| + 7) / 8 && s[0] == |Packed(w)| / 256 % 256 && s[1] == |Packed(w)| % 256
    && forall b, j :: 0 <= b < |s| - 2 && 0 <= j < 8 ==>
                        (StoredBit(s[2..][b], j) <==> 8 * b + j < |w| && w[8 * b + j].Some?)
  }

  lemma StoredAs(x: byte, c: bv8, j: nat)
    requires x as bv8 == c && j < 8
    ensures StoredBit(x, j) <==> Bit(c, j)
  {
    Shifts(j);
  }

  lemma GroupExact<T>(w: seq<Option<T>>)
    requires |w| > 0
    ensures GroupForm(w, Metadata(w))
  {
    hide Packed;
    hide StoredBit;
    hide Bit;
    var s, bm := Metadata(w), BitmapOf(w);
    Powers();
    DigitAt(|Packed(w)|, 2, 0);
    DigitAt(|Packed(w)|, 2, 1);
    assert s[2..] == FromBits(bm);
    BitmapMarks(w);
    hide BitmapOf;
    hide Metadata;
    hide FromBits;
    forall b, j | 0 <= b < |s| - 2 && 0 <= j < 8
      ensures StoredBit(s[2..][b], j) <==> 8 * b + j < |w| && w[8 * b + j].Some?
    {
      StoredAs(s[2..][b], bm[b], j);
      TestAt(bm, b, j);
    }
  }

  lemma TestAt(bm: seq<bv8>, b: nat, j: nat)
    requires b < |bm| && j < 8
    ensures Test(bm, 8 * b + j) <==> Bit(bm[b], j)
  {
  }

  /** The values as the serializer writes them, one after the other. */
  function Values<T>(ser: T -> bytes, p: seq<T>): bytes {
    if p == [] then [] else ser(p[0]) + Values(ser, p[1..])
  }

  lemma {:induction false} ValuesConcat<T>(ser: T -> bytes, p: seq<T>, q: seq<T>)
    ensures Values(ser, p + q) == Values(ser, p) + Values(ser, q)
  {
    if p == [] {
      assert p + q == q;
    } else {
      assert (p + q)[1..] == p[1..] + q;
      ValuesConcat(ser, p[1..], q);
    }
  }

  /** The deserializer reads back what the serializer wrote for a value, and not a byte more. */
  ghost predicate Inverts<T>(de: bytes -> Option<(T, bytes)>, ser: T -> bytes, p: seq<T>) {
    forall k, tail: bytes :: 0 <= k < |p| ==> de(ser(p[k]) + tail) == Some((p[k], tail))
  }

  method ReadInto<T>(a: array<T>, de: bytes -> Option<(T, bytes)>, input: bytes,
                     ghost ser: T -> bytes, ghost p: seq<T>, ghost tail: bytes)
    returns (ok: bool, rest: bytes)
    modifies a
    ensures a.Length == |p| && Inverts(de, ser, p) && input == Values(ser, p) + tail ==>
              ok && rest == tail && a[..] == p
  {
    hide Values;
    hide Inverts;
    ghost var written := a.Length == |p| && Inverts(de, ser, p) && input == Values(ser, p) + tail;
    rest := input;
    assert p[0..] == p;
    for col := 0 to a.Length
      invariant written ==> a[..col] == p[..col] && rest == Values(ser, p[col..]) + tail
    {
      if written {
        NextValue(de, ser, p, col, tail);
      }
      var v := de(rest);
      if v.None? {
        return false, rest;
      }
      a[col], rest := v.value.0, v.value.1;
    }
    ok := true;
    NoValues(ser, p, tail);
  }

  lemma NoValues<T>(ser: T -> bytes, p: seq<T>, tail: bytes)
    ensures Values(ser, p[|p|..]) + tail == tail
  {
  }

  class SparseGroup<T(==, 0)> {
    /** GROUP_SIZE. */
    const size: nat
    const defaultValue: T
    var group: array<T>
    var numBuckets: nat
    var bitmap: array<bv8>
    ghost var Contents: seq<Option<T>>
    ghost var Repr: set<object>

    /** A bitmap of the right length and an array of the stored count. */
    ghost predicate Shaped()
      reads this, Repr
      ensures Shaped() ==> this in Repr
    {
      && Repr == {this, group, bitmap} && group as object != bitmap
      && 0 < size <= 0xFFFF && bitmap.Length == BitmapBytes(size) && numBuckets == group.Length
    }

    ghost predicate Valid()
      reads this, Repr
      ensures Valid() ==> this in Repr
    {
      Shaped() && |Contents| == size && Marks(bitmap[..], Contents) && group[..] == Packed(Contents)
    }

    constructor (size: nat, defaultValue: T)
      requires 0 < size <= 0xFFFF
      ensures Valid() && fresh(Repr) && this.size == size && this.defaultValue == defaultValue
      ensures Contents == Empty(size)
    {
      this.size, this.defaultValue := size, defaultValue;
      group := new T[0];
      numBuckets := 0;
      bitmap := new bv8[BitmapBytes(size)](_ => 0);
      Contents := Empty(size);
      new;
      Repr := {this, group, bitmap};
      NoMarks<T>(bitmap[..], size);
      PackedEmpty<T>(size);
    }

    method BmTest(i: nat) returns (set_: bool)
      requires Valid() && i < size
      ensures set_ == Contents[i].Some?
    {
      set_ := Bit(bitmap[i / 8], i % 8);
      assert Test(bitmap[..], i) == set_;
    }

    method Offset(i: nat) returns (offset: nat)
      requires Valid() && i <= size
      ensures offset == |Packed(Contents[..i])|
    {
      offset := PosToOffset(bitmap[..], i);
      RankPacked(bitmap[..], Contents, i);
    }

    /** The index that holds the packed array's value at offset. */
    method OffsetToPos(offset: nat) returns (pos: nat)
      requires Valid() && offset < numBuckets
      ensures pos < size && Contents[pos].Some? && |Packed(Contents[..pos])| == offset
    {
      RankPacked(bitmap[..], Contents, size);
      assert Contents[..size] == Contents;
      RankMonotone(bitmap[..], size, 8 * bitmap.Length);
      pos := SparseBits.OffsetToPos(bitmap[..], offset);
      RankPacked(bitmap[..], Contents, pos);
    }

    method Get(i: nat) returns (v: T)
      requires Valid() && i < size
      ensures v == if Contents[i].Some? then Contents[i].value else defaultValue
    {
      var set_ := BmTest(i);
      if set_ {
        var offset := Offset(i);
        PackedSplit(Contents, i);
        v := group[offset];
      } else {
        v := defaultValue;
      }
    }

    /** set_aux: one place more, and everything from offset on moved up by one. */
    method SetAux(offset: nat)
      requires Valid() && offset <= numBuckets
      modifies this`group
      ensures fresh(group) && group.Length == old(group.Length) + 1
      ensures group[..offset] == old(group[..offset]) && group[offset + 1..] == old(group[offset..])
    {
      var n := numBuckets;
      ghost var before := group[..];
      var larger := new T[n + 1];
      forall i | 0 <= i < n {
        larger[i] := group[i];
      }
      group := larger;
      var i := n;
      while i > offset
        invariant offset <= i <= n && group == larger
        invariant forall j :: 0 <= j < i ==> group[j] == before[j]
        invariant forall j :: i < j <= n ==> group[j] == before[j - 1]
      {
        group[i] := group[i - 1];
        i := i - 1;
      }
    }

    /** erase_aux: everything behind offset moved down by one, and one place less. */
    method EraseAux(offset: nat)
      requires Valid() && offset < numBuckets
      modifies this`group, group
      ensures fresh(group) && group.Length == old(group.Length) - 1
      ensures group[..] == old(group[..offset]) + old(group[offset + 1..])
    {
      var n := numBuckets;
      ghost var before, same := group[..], group;
      var i := offset;
      while i < n - 1
        invariant offset <= i <= n - 1 && group == same && group.Length == n
        invariant forall j :: 0 <= j < offset ==> group[j] == before[j]
        invariant forall j :: offset <= j < i ==> group[j] == before[j + 1]
        invariant forall j :: i <= j < n ==> group[j] == before[j]
      {
        group[i] := group[i + 1];
        i := i + 1;
      }
      var smaller := new T[n - 1];
      forall i | 0 <= i < n - 1 {
        smaller[i] := group[i];
      }
      group := smaller;
    }

    method Set(i: nat, val: T) returns (r: T)
      requires Valid() && i < size
      modifies Repr
      ensures Valid() && fresh(Repr - old(Repr))
      ensures Contents == old(Contents)[i := Some(val)] && r == val
    {
      hide Marks;
      hide Packed;
      var offset := Offset(i);
      var set_ := BmTest(i);
      PackedSplit(Contents, i);
      PackedUpdate(Contents, i, Some(val));
      MarksUpdate(bitmap[..], Contents, i, Some(val));
      if set_ {
        MarksSame(bitmap[..], Contents, i, Some(val));
      } else {
        SetAux(offset);
        numBuckets := numBuckets + 1;
        bitmap[i / 8] := WithBit(bitmap[i / 8], i % 8);
      }
      group[offset] := val;
      Contents := Contents[i := Some(val)];
      Repr := {this, group, bitmap};
      r := group[offset];
    }

    method Erase(i: nat)
      requires Valid() && i < size
      modifies Repr
      ensures Valid() && fresh(Repr - old(Repr))
      ensures Contents == old(Contents)[i := None]
    {
      hide Marks;
      hide Packed;
      var set_ := BmTest(i);
      PackedSplit(Contents, i);
      PackedUpdate(Contents, i, None);
      MarksUpdate(bitmap[..], Contents, i, None);
      if set_ {
        var offset := Offset(i);
        if numBuckets == 1 {
          group := new T[0];
        } else {
          EraseAux(offset);
        }
        numBuckets := numBuckets - 1;
        bitmap[i / 8] := WithoutBit(bitmap[i / 8], i % 8);
      } else {
        MarksSame(bitmap[..], Contents, i, None);
      }
      Contents := Contents[i := None];
      Repr := {this, group, bitmap};
    }

    method EraseRange(from: nat, to: nat)
      requires Valid() && from <= to <= size
      modifies Repr
      ensures Valid() && fresh(Repr - old(Repr))
      ensures Contents == old(Contents[..from]) + Empty(to - from) + old(Contents[to..])
    {
      hide Marks;
      hide Packed;
      for i := from to to
        invariant Valid() && fresh(Repr - old(Repr))
        invariant Contents == old(Contents[..from]) + Empty(i - from) + old(Contents[i..])
      {
        Erase(i);
      }
    }

    /** Gives an unassigned index the default value first. */
    method MutatingGet(i: nat) returns (r: T)
      requires Valid() && i < size
      modifies Repr
      ensures Valid() && fresh(Repr - old(Repr))
      ensures Contents == old(if Contents[i].Some? then Contents else Contents[i := Some(defaultValue)])
      ensures Contents[i] == Some(r)
    {
      var set_ := BmTest(i);
      if !set_ {
        var _ := Set(i, defaultValue);
      }
      var offset := Offset(i);
      PackedSplit(Contents, i);
      r := group[offset];
    }

    method Clear()
      requires Shaped()
      modifies Repr
      ensures Valid() && fresh(Repr - old(Repr)) && Contents == Empty(size)
    {
      group := new T[0];
      forall b | 0 <= b < bitmap.Length {
        bitmap[b] := 0;
      }
      numBuckets := 0;
      Contents := Empty(size);
      Repr := {this, group, bitmap};
      NoMarks<T>(bitmap[..], size);
      PackedEmpty<T>(size);
    }

    method WriteMetadata() returns (out: bytes)
      requires Valid()
      ensures out == Metadata(Contents) && GroupForm(Contents, out)
    {
      GroupExact(Contents);
      hide GroupForm;
      out := WriteBigEndian(numBuckets, 2);
      out := out + FromBits(bitmap[..]);
      MarksUnique(bitmap[..], Contents);
    }

    /** read_metadata: the count, the bitmap, and room for the values. */
    method ReadMetadata(input: bytes, ghost c: seq<Option<T>>, ghost tail: bytes) returns (ok: bool, rest: bytes)
      requires Shaped()
      modifies Repr
      ensures Shaped() && fresh(Repr - old(Repr))
      ensures |c| == size && input == Metadata(c) + tail ==>
                ok && rest == tail && numBuckets == |Packed(c)| && bitmap[..] == BitmapOf(c)
    {
      ghost var written := |c| == size && input == Metadata(c) + tail;
      if written {
        MetadataStart(c, tail);
      }
      Clear();
      var n;
      ok, n, rest := ReadBigEndian(input, 2);
      if !ok {
        return;
      }
      var s;
      ok, s, rest := Read(rest, bitmap.Length);
      if !ok {
        return;
      }
      forall b | 0 <= b < bitmap.Length {
        bitmap[b] := s[b] as bv8;
      }
      assert written ==> bitmap[..] == BitmapOf(c);
      numBuckets := n;
      group := new T[n];
      Repr := {this, group, bitmap};
    }

    /** The values of a group that has its metadata, in the order of the array. */
    method ReadValues(de: bytes -> Option<(T, bytes)>, input: bytes, ghost ser: T -> bytes,
                      ghost c: seq<Option<T>>, ghost tail: bytes)
      returns (ok: bool, rest: bytes)
      requires Shaped()
      modifies this`Contents, group
      ensures Shaped()
      ensures |c| == size && numBuckets == |Packed(c)| && bitmap[..] == BitmapOf(c)
              && Inverts(de, ser, Packed(c)) && input == Values(ser, Packed(c)) + tail ==>
                ok && rest == tail && Valid() && Contents == c
    {
      hide Values;
      hide Packed;
      hide Inverts;
      hide Marks;
      hide BitmapOf;
      ok, rest := ReadInto(group, de, input, ser, Packed(c), tail);
      if ok && |c| == size {
        BitmapMarks(c);
        Contents := c;
      }
    }

    /** operator==: the counts, the bitmaps, and get at every index. */
    method Equals(other: SparseGroup<T>) returns (same: bool)
      requires Valid() && other.Valid() && size == other.size && defaultValue == other.defaultValue
      ensures same <==> Contents == other.Contents
    {
      if Contents == other.Contents {
        SameBitmap(bitmap[..], other.bitmap[..]);
      }
      if numBuckets != other.numBuckets || bitmap[..] != other.bitmap[..] {
        return false;
      }
      same := true;
      assert forall i :: 0 <= i < size ==> Contents[i].Some? == Test(bitmap[..], i);
      assert forall i :: 0 <= i < size ==> other.Contents[i].Some? == Test(bitmap[..], i);
      hide Marks;
      hide Packed;
      hide Test;
      for i := 0 to size
        invariant same ==> forall j :: 0 <= j < i ==> Contents[j] == other.Contents[j]
        invariant !same ==> Contents != other.Contents
      {
        var a := Get(i);
        var b := other.Get(i);
        if a != b {
          same := false;
        }
      }
    }
  }

  lemma MetadataStart<T>(c: seq<Option<T>>, tail: bytes)
    requires 0 < |c| <= 0xFFFF
    ensures var s := Metadata(c) + tail;
            && |s| >= 2 && Number(s[..2]) == |Packed(c)|
            && |s[2..]| >= BitmapBytes(|c|) && s[2..][..BitmapBytes(|c|)] == FromBits(BitmapOf(c))
            && s[2..][BitmapBytes(|c|)..] == tail
  {
    Powers();
    hide Pow256;
    NumberRoundTrip(|Packed(c)|, 2);
    assert (Metadata(c) + tail)[..2] == BigEndian(|Packed(c)|, 2);
  }

  lemma NextValue<T>(de: bytes -> Option<(T, bytes)>, ser: T -> bytes, p: seq<T>, k: nat, tail: bytes)
    requires Inverts(de, ser, p) && k < |p|
    ensures de(Values(ser, p[k..]) + tail) == Some((p[k], Values(ser, p[k + 1..]) + tail))
  {
    assert p[k..][1..] == p[k + 1..];
    assert Values(ser, p[k..]) + tail == ser(p[k]) + (Values(ser, p[k + 1..]) + tail);
  }

  /** Assigning where something is assigned changes no bit, erasing where nothing is neither. */
  lemma MarksSame<T>(bm: seq<bv8>, c: seq<Option<T>>, i: nat, v: Option<T>)
    requires Marks(bm, c) && i < |c| && v.Some? == c[i].Some?
    ensures Marks(bm, c[i := v])
  {
  }

  lemma NoMarks<T>(bm: seq<bv8>, n: nat)
    requires n <= 8 * |bm| && forall b :: 0 <= b < |bm| ==> bm[b] == 0
    ensures Marks(bm, Empty<T>(n))
  {
  }
}
