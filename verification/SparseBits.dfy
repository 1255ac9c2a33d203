/** Bit arithmetic of sparsegroup: counting set bits below a position and finding the k-th set bit. */
module SparseBits {

  // ---- One byte ----

  /** The table bits_in, sixteen entries to a row. */
  const BITS_IN: seq<seq<nat>> := [
    [0, 1, 1, 2, 1, 2, 2, 3, 1, 2, 2, 3, 2, 3, 3, 4],
    [1, 2, 2, 3, 2, 3, 3, 4, 2, 3, 3, 4, 3, 4, 4, 5],
    [1, 2, 2, 3, 2, 3, 3, 4, 2, 3, 3, 4, 3, 4, 4, 5],
    [2, 3, 3, 4, 3, 4, 4, 5, 3, 4, 4, 5, 4, 5, 5, 6],
    [1, 2, 2, 3, 2, 3, 3, 4, 2, 3, 3, 4, 3, 4, 4, 5],
    [2, 3, 3, 4, 3, 4, 4, 5, 3, 4, 4, 5, 4, 5, 5, 6],
    [2, 3, 3, 4, 3, 4, 4, 5, 3, 4, 4, 5, 4, 5, 5, 6],
    [3, 4, 4, 5, 4, 5, 5, 6, 4, 5, 5, 6, 5, 6, 6, 7],
    [1, 2, 2, 3, 2, 3, 3, 4, 2, 3, 3, 4, 3, 4, 4, 5],
    [2, 3, 3, 4, 3, 4, 4, 5, 3, 4, 4, 5, 4, 5, 5, 6],
    [2, 3, 3, 4, 3, 4, 4, 5, 3, 4, 4, 5, 4, 5, 5, 6],
    [3, 4, 4, 5, 4, 5, 5, 6, 4, 5, 5, 6, 5, 6, 6, 7],
    [2, 3, 3, 4, 3, 4, 4, 5, 3, 4, 4, 5, 4, 5, 5, 6],
    [3, 4, 4, 5, 4, 5, 5, 6, 4, 5, 5, 6, 5, 6, 6, 7],
    [3, 4, 4, 5, 4, 5, 5, 6, 4, 5, 5, 6, 5, 6, 6, 7],
    [4, 5, 5, 6, 5, 6, 6, 7, 5, 6, 6, 7, 6, 7, 7, 8]]

  /** modbit: 1 << k. */
  function ModBit(k: nat): bv8
    requires k < 8
  {
    if k == 0 then 0x01 else if k == 1 then 0x02 else if k == 2 then 0x04 else if k == 3 then 0x08
    else if k == 4 then 0x10 else if k == 5 then 0x20 else if k == 6 then 0x40 else 0x80
  }

  /** (1 << k) - 1. */
  function LowMask(k: nat): bv8
    requires k <= 8
  {
    if k < 8 then ModBit(k) - 1 else 0xFF
  }

  lemma Shifts(k: nat)
    requires k <= 8
    ensures k < 8 ==> ModBit(k) == 1 << k
    ensures LowMask(k) == (1 << k) - 1
  {
  }

  predicate Bit(c: bv8, k: nat)
    requires k < 8
  {
    c & ModBit(k) != 0
  }

  function One(b: bool): nat {
    if b then 1 else 0
  }

  function PopCount(c: bv8): nat {
    One(c & 0x01 != 0) + One(c & 0x02 != 0) + One(c & 0x04 != 0) + One(c & 0x08 != 0)
    + One(c & 0x10 != 0) + One(c & 0x20 != 0) + One(c & 0x40 != 0) + One(c & 0x80 != 0)
  }

  /** Table look-up; the table is right for every byte. */
  function BitsInChar(c: bv8): (n: nat)
    ensures n == PopCount(c)
  {
    BITS_IN[(c >> 4) as int][(c & 15) as int]
  }

  /** The bits below position k. */
  function Below(c: bv8, k: nat): bv8
    requires k <= 8
  {
    c & LowMask(k)
  }

  lemma BelowStep(c: bv8, k: nat)
    requires k < 8
    ensures PopCount(Below(c, k + 1)) == PopCount(Below(c, k)) + One(Bit(c, k))
  {
  }

  lemma BelowEnds(c: bv8)
    ensures PopCount(Below(c, 0)) == 0 && Below(c, 8) == c
  {
  }

  lemma ClearOne(c: bv8)
    requires c != 0
    ensures PopCount(c & (c - 1)) == PopCount(c) - 1
  {
  }

  /** Below a bit that survives there is the bit removed. */
  lemma ClearBelow(c: bv8, k: nat)
    requires c != 0 && k < 8 && Bit(c & (c - 1), k)
    ensures Bit(c, k) && Below(c, k) != 0
    ensures Below(c & (c - 1), k) == Below(c, k) & (Below(c, k) - 1)
  {
  }

  /** c & (c - 1) removes the lowest set bit and no other. */
  lemma ClearLowest(c: bv8, k: nat)
    requires c != 0 && k < 8
    ensures PopCount(c & (c - 1)) == PopCount(c) - 1
    ensures Bit(c & (c - 1), k) ==>
              Bit(c, k) && PopCount(Below(c, k)) == 1 + PopCount(Below(c & (c - 1), k))
  {
    hide PopCount;
    hide Bit;
    hide Below;
    ClearOne(c);
    if Bit(c & (c - 1), k) {
      ClearBelow(c, k);
      ClearOne(Below(c, k));
    }
  }

  /** (c & -c) - 1 has as many bits as there are positions below the lowest set bit. */
  lemma LowestPosition(c: bv8)
    requires c != 0
    ensures var k := PopCount((c & -c) - 1); k < 8 && Bit(c, k) && PopCount(Below(c, k)) == 0
  {
  }

  lemma ZeroByte()
    ensures PopCount(0) == 0
  {
  }

  function WithBit(c: bv8, k: nat): bv8
    requires k < 8
  {
    c | ModBit(k)
  }

  function WithoutBit(c: bv8, k: nat): bv8
    requires k < 8
  {
    c & !ModBit(k)
  }

  lemma SetBit(c: bv8, k: nat, j: nat)
    requires k < 8 && j < 8
    ensures Bit(WithBit(c, k), j) <==> j == k || Bit(c, j)
    ensures Bit(WithoutBit(c, k), j) <==> j != k && Bit(c, j)
  {
  }

  lemma SameByte(c: bv8, d: bv8)
    requires forall k :: 0 <= k < 8 ==> Bit(c, k) == Bit(d, k)
    ensures c == d
  {
    assert Bit(c, 0) == Bit(d, 0) && Bit(c, 1) == Bit(d, 1) && Bit(c, 2) == Bit(d, 2) && Bit(c, 3) == Bit(d, 3);
    assert Bit(c, 4) == Bit(d, 4) && Bit(c, 5) == Bit(d, 5) && Bit(c, 6) == Bit(d, 6) && Bit(c, 7) == Bit(d, 7);
  }

  // ---- Bitmaps ----

  predicate Test(bm: seq<bv8>, i: nat)
    requires i < 8 * |bm|
  {
    Bit(bm[i / 8], i % 8)
  }

  /** How many of the first n positions are set. */
  function Rank(bm: seq<bv8>, n: nat): (r: nat)
    requires n <= 8 * |bm|
    ensures r <= n
  {
    if n == 0 then 0 else Rank(bm, n - 1) + One(Test(bm, n - 1))
  }

  lemma {:induction false} RankInByte(bm: seq<bv8>, b: nat, k: nat)
    requires b < |bm| && k <= 8
    ensures Rank(bm, 8 * b + k) == Rank(bm, 8 * b) + PopCount(Below(bm[b], k))
  {
    if k == 0 {
      BelowEnds(bm[b]);
    } else {
      RankInByte(bm, b, k - 1);
      BelowStep(bm[b], k - 1);
      assert (8 * b + k - 1) / 8 == b && (8 * b + k - 1) % 8 == k - 1;
    }
  }

  lemma {:induction false} RankMonotone(bm: seq<bv8>, i: nat, j: nat)
    requires i <= j <= 8 * |bm|
    ensures Rank(bm, i) <= Rank(bm, j)
    ensures i < j && Test(bm, i) ==> Rank(bm, i) < Rank(bm, j)
    decreases j
  {
    if i < j {
      RankMonotone(bm, i, j - 1);
    }
  }

  /** Set positions are told apart by their rank. */
  lemma RankInjective(bm: seq<bv8>, i: nat, j: nat)
    requires i < 8 * |bm| && j < 8 * |bm| && Test(bm, i) && Test(bm, j)
    requires Rank(bm, i) == Rank(bm, j)
    ensures i == j
  {
    if i < j {
      RankMonotone(bm, i, j);
    } else if j < i {
      RankMonotone(bm, j, i);
    }
  }

  /** pos_to_offset: how many bits are set below pos.  The loop may stop at a full last byte. */
  method PosToOffset(bm: seq<bv8>, pos: nat) returns (offset: nat)
    requires |bm| > 0 && pos <= 8 * |bm|
    ensures offset == Rank(bm, pos)
  {
    hide Bit;
    hide PopCount;
    var retval, b, p := 0, 0, pos;
    while p > 8
      invariant 0 <= p && p + 8 * b == pos && b < |bm| && retval == Rank(bm, 8 * b)
    {
      retval := retval + BitsInChar(bm[b]);
      RankInByte(bm, b, 8);
      BelowEnds(bm[b]);
      b, p := b + 1, p - 8;
    }
    RankInByte(bm, b, p);
    Shifts(p);
    offset := retval + BitsInChar(bm[b] & ((1 << p) - 1));
  }

  /** The position of the offset-th set bit of a byte that has more than offset of them. */
  method SelectInByte(c: bv8, offset: nat) returns (k: nat)
    requires offset < PopCount(c)
    ensures k < 8 && Bit(c, k) && PopCount(Below(c, k)) == offset
  {
    hide Bit;
    hide PopCount;
    hide Below;
    ZeroByte();
    var last, left := c, offset;
    while left > 0
      invariant 0 <= left <= offset && PopCount(last) == PopCount(c) - (offset - left)
      invariant forall j :: 0 <= j < 8 && Bit(last, j) ==>
                  Bit(c, j) && PopCount(Below(c, j)) == offset - left + PopCount(Below(last, j))
    {
      forall j | 0 <= j < 8 && Bit(last & (last - 1), j)
        ensures Bit(last, j) && PopCount(Below(last, j)) == 1 + PopCount(Below(last & (last - 1), j))
      {
        ClearLowest(last, j);
      }
      ClearLowest(last, 0);
      last := last & (last - 1);
      left := left - 1;
    }
    LowestPosition(last);
    k := BitsInChar((last & -last) - 1);
  }

  /** The range of sparsegroup's 16-bit size_type. */
  const SIZE_TYPE_RANGE := 0x1_0000

  /** offset_to_pos: the position of the offset-th set bit, or, if there are not that many, the number of
      positions, which for the largest bitmap there is wraps to 0. */
  method OffsetToPos(bm: seq<bv8>, offset: nat) returns (pos: nat)
    requires 8 * |bm| <= SIZE_TYPE_RANGE
    ensures if offset < Rank(bm, 8 * |bm|) then pos < 8 * |bm| && Test(bm, pos) && Rank(bm, pos) == offset
            else pos == if 8 * |bm| == 65536 then 0 else 8 * |bm|
  {
    hide Bit;
    hide PopCount;
    hide Below;
    var left, retval := offset, 0;
    for i := 0 to |bm|
      invariant 0 <= left && left + Rank(bm, 8 * i) == offset
      invariant retval == if 8 * i == SIZE_TYPE_RANGE then 0 else 8 * i
    {
      var popCount := BitsInChar(bm[i]);
      RankInByte(bm, i, 8);
      BelowEnds(bm[i]);
      if popCount > left {
        var k := SelectInByte(bm[i], left);
        RankInByte(bm, i, k);
        pos := retval + k;
        assert pos == 8 * i + k && pos / 8 == i && pos % 8 == k;
        RankMonotone(bm, 8 * i + 8, 8 * |bm|);
        return;
      }
      left := left - popCount;
      retval := if retval + 8 == SIZE_TYPE_RANGE then 0 else retval + 8;
    }
    pos := retval;
  }

  /** Rank and select undo each other on set positions. */
  method RankSelect(bm: seq<bv8>, pos: nat) returns (offset: nat, back: nat)
    requires pos < 8 * |bm| <= SIZE_TYPE_RANGE && Test(bm, pos)
    ensures offset == Rank(bm, pos) && back == pos
  {
    offset := PosToOffset(bm, pos);
    RankMonotone(bm, pos, 8 * |bm|);
    back := OffsetToPos(bm, offset);
    RankInjective(bm, pos, back);
  }

  /** Setting or clearing one bit: the others stay, and ranks shift above it. */
  lemma {:induction false} RankUpdate(bm: seq<bv8>, bm': seq<bv8>, i: nat, n: nat)
    requires |bm| == |bm'| && i < 8 * |bm| && n <= 8 * |bm|
    requires Test(bm, i) != Test(bm', i)
    requires forall j :: 0 <= j < 8 * |bm| && j != i ==> Test(bm', j) == Test(bm, j)
    ensures n <= i ==> Rank(bm', n) == Rank(bm, n)
    ensures n > i ==> Rank(bm', n) + One(Test(bm, i)) == Rank(bm, n) + One(Test(bm', i))
  {
    if n > 0 {
      RankUpdate(bm, bm', i, n - 1);
    }
  }

  lemma UpdatedByte(bm: seq<bv8>, i: nat, j: nat)
    requires i < 8 * |bm| && j < 8 * |bm|
    ensures Test(bm[i / 8 := WithBit(bm[i / 8], i % 8)], j) <==> j == i || Test(bm, j)
    ensures Test(bm[i / 8 := WithoutBit(bm[i / 8], i % 8)], j) <==> j != i && Test(bm, j)
  {
    hide Bit;
    hide WithBit;
    hide WithoutBit;
    SetBit(bm[i / 8], i % 8, j % 8);
  }

  lemma SameBitmap(bm: seq<bv8>, bm': seq<bv8>)
    requires |bm| == |bm'| && forall i :: 0 <= i < 8 * |bm| ==> Test(bm, i) == Test(bm', i)
    ensures bm == bm'
  {
    forall b | 0 <= b < |bm| ensures bm[b] == bm'[b] {
      forall k | 0 <= k < 8 ensures Bit(bm[b], k) == Bit(bm'[b], k) {
        assert Test(bm, 8 * b + k) == Test(bm', 8 * b + k);
        assert (8 * b + k) / 8 == b && (8 * b + k) % 8 == k;
      }
      SameByte(bm[b], bm'[b]);
    }
  }
}
