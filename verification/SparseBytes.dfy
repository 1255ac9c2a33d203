/** The sparse table's file format: big-endian numbers, and sizes of four or twelve bytes. */
module SparseBytes {
  type byte = x: int | 0 <= x < 256
  type bytes = seq<byte>

  /** A bitmap as it is stored. */
  function FromBits(bm: seq<bv8>): (s: bytes)
    ensures |s| == |bm| && forall i :: 0 <= i < |bm| ==> s[i] as bv8 == bm[i]
  {
    seq(|bm|, i requires 0 <= i < |bm| => bm[i] as int)
  }

  function Pow256(k: nat): (p: nat)
    ensures p > 0
  {
    if k == 0 then 1 else 256 * Pow256(k - 1)
  }

  /** The last length digits of a number in base 256. */
  function BigEndian(value: nat, length: nat): (s: bytes)
    ensures |s| == length
  {
    if length == 0 then [] else BigEndian(value / 256, length - 1) + [value % 256]
  }

  function Number(s: bytes): nat {
    if s == [] then 0 else Number(s[..|s| - 1]) * 256 + s[|s| - 1]
  }

  lemma {:induction false} NumberRoundTrip(value: nat, length: nat)
    requires value < Pow256(length)
    ensures Number(BigEndian(value, length)) == value
  {
    if length > 0 {
      NumberRoundTrip(value / 256, length - 1);
      assert BigEndian(value, length)[..length - 1] == BigEndian(value / 256, length - 1);
    }
  }

  /** The digit that the shift by k bytes brings up. */
  lemma {:induction false} DigitAt(value: nat, length: nat, i: nat)
    requires i < length
    ensures BigEndian(value, length)[i] == value / Pow256(length - 1 - i) % 256
  {
    if i < length - 1 {
      var k := length - 1 - i;
      DigitAt(value / 256, length - 1, i);
      DivDiv(value, Pow256(k - 1));
    }
  }

  lemma DivDiv(value: nat, m: nat)
    requires m > 0
    ensures value / 256 / m == value / (256 * m)
  {
    var a, b := value / 256, value % 256;
    var q, r := a / m, a % m;
    assert value == 256 * (q * m + r) + b == q * (256 * m) + (256 * r + b);
    var p := 256 * m;
    var e := 256 * r + b;
    assert 0 <= e < p;
    Quotient(value, p, q, e);
  }

  lemma Quotient(n: nat, p: nat, q: nat, e: nat)
    requires e < p && n == q * p + e
    ensures n / p == q
  {
    var q', e' := n / p, n % p;
    assert q' * p + e' == q * p + e;
    if q' < q {
      MulLe(q' + 1, q, p);
    } else if q < q' {
      MulLe(q + 1, q', p);
    }
  }

  lemma MulLe(a: nat, b: nat, p: nat)
    requires a <= b
    ensures a * p <= b * p
  {
  }

  /** write_bigendian_number. */
  method WriteBigEndian(value: nat, length: nat) returns (out: bytes)
    ensures out == BigEndian(value, length)
  {
    out := [];
    for i := 0 to length
      invariant |out| == i && out == BigEndian(value, length)[..i]
    {
      DigitAt(value, length, i);
      out := out + [value / Pow256(length - 1 - i) % 256];
    }
  }

  /** read_bigendian_number. */
  method ReadBigEndian(input: bytes, length: nat) returns (ok: bool, value: nat, rest: bytes)
    ensures ok <==> |input| >= length
    ensures ok ==> value == Number(input[..length]) && rest == input[length..]
  {
    value, rest := 0, input;
    for i := 0 to length
      invariant i <= |input| && rest == input[i..] && value == Number(input[..i]) * Pow256(length - i)
    {
      if rest == [] {
        return false, value, rest;
      }
      assert input[..i + 1][..i] == input[..i];
      Shifted(Number(input[..i]), Pow256(length - 1 - i), rest[0]);
      value := value + rest[0] * Pow256(length - 1 - i);
      rest := rest[1..];
    }
    ok := true;
  }

  lemma Shifted(n: nat, p: nat, d: nat)
    ensures n * (256 * p) + d * p == (n * 256 + d) * p
  {
  }

  // ---- Sizes ----

  const MARKER: nat := 0xFFFF_FFFF

  function SizeBytes(value: nat): bytes {
    if value < MARKER then BigEndian(value, 4) else BigEndian(MARKER, 4) + BigEndian(value, 8)
  }

  /** Four bytes, or four times 255 and eight bytes more, the most significant first. */
  ghost predicate SizeForm(v: nat, s: bytes) {
    if v < 4294967295 then
      s == [v / 16777216 % 256, v / 65536 % 256, v / 256 % 256, v % 256]
    else
      s == [255, 255, 255, 255,
            v / 72057594037927936 % 256, v / 281474976710656 % 256, v / 1099511627776 % 256, v / 4294967296 % 256,
            v / 16777216 % 256, v / 65536 % 256, v / 256 % 256, v % 256]
  }

  lemma Powers()
    ensures Pow256(0) == 1 && Pow256(1) == 256 && Pow256(2) == 65536 && Pow256(3) == 16777216
    ensures Pow256(4) == 4294967296 && Pow256(5) == 1099511627776 && Pow256(6) == 281474976710656
    ensures Pow256(7) == 72057594037927936 && Pow256(8) == 18446744073709551616
  {
    assert Pow256(2) == 256 * Pow256(1);
    assert Pow256(4) == 256 * Pow256(3);
    assert Pow256(6) == 256 * Pow256(5);
  }

  lemma FourDigits(v: nat)
    ensures BigEndian(v, 4) == [v / 16777216 % 256, v / 65536 % 256, v / 256 % 256, v % 256]
  {
    Powers();
    DigitAt(v, 4, 0);
    DigitAt(v, 4, 1);
    DigitAt(v, 4, 2);
    DigitAt(v, 4, 3);
  }

  lemma EightDigits(v: nat)
    ensures BigEndian(v, 8)
            == [v / 72057594037927936 % 256, v / 281474976710656 % 256, v / 1099511627776 % 256, v / 4294967296 % 256,
                v / 16777216 % 256, v / 65536 % 256, v / 256 % 256, v % 256]
  {
    Powers();
    hide Pow256;
    DigitAt(v, 8, 0);
    DigitAt(v, 8, 1);
    DigitAt(v, 8, 2);
    DigitAt(v, 8, 3);
    DigitAt(v, 8, 4);
    DigitAt(v, 8, 5);
    DigitAt(v, 8, 6);
    DigitAt(v, 8, 7);
    hide BigEndian;
  }

  /** A size is told by its own bytes, written without the marker's name. */
  lemma SizeExact(v: nat)
    ensures SizeForm(v, SizeBytes(v))
  {
    FourDigits(v);
    MarkerDigits();
    EightDigits(v);
    hide BigEndian;
  }

  lemma MarkerDigits()
    ensures BigEndian(MARKER, 4) == [255, 255, 255, 255]
  {
    FourDigits(MARKER);
    hide BigEndian;
  }

  method WriteSize(value: nat) returns (out: bytes)
    ensures out == SizeBytes(value) && SizeForm(value, out)
  {
    SizeExact(value);
    hide SizeForm;
    if value < MARKER {
      out := WriteBigEndian(value, 4);
    } else {
      out := WriteBigEndian(MARKER, 4);
      var long := WriteBigEndian(value, 8);
      out := out + long;
    }
  }

  /** Reads back what WriteSize wrote, and not a byte more. */
  method ReadSize(input: bytes, ghost v: nat, ghost tail: bytes) returns (ok: bool, value: nat, rest: bytes)
    ensures v < 0x1_0000_0000_0000_0000 && input == SizeBytes(v) + tail ==> ok && value == v && rest == tail
    ensures ok ==> |rest| < |input|
  {
    ghost var written := v < 0x1_0000_0000_0000_0000 && input == SizeBytes(v) + tail;
    if written {
      SizeStart(v, tail);
    }
    ok, value, rest := ReadBigEndian(input, 4);
    if !ok {
      return;
    }
    if value >= MARKER {
      ok, value, rest := ReadBigEndian(rest, 8);
    }
  }

  lemma SizeStart(v: nat, tail: bytes)
    requires v < 0x1_0000_0000_0000_0000
    ensures var s := SizeBytes(v) + tail;
            && |s| >= 4 && Number(s[..4]) == (if v < MARKER then v else MARKER)
            && (v < MARKER ==> s[4..] == tail)
            && (v >= MARKER ==> |s| >= 12 && Number(s[4..][..8]) == v && s[4..][8..] == tail)
  {
    Powers();
    hide Pow256;
    var s := SizeBytes(v) + tail;
    if v < MARKER {
      NumberRoundTrip(v, 4);
      assert s[..4] == BigEndian(v, 4);
    } else {
      NumberRoundTrip(MARKER, 4);
      NumberRoundTrip(v, 8);
      assert s[..4] == BigEndian(MARKER, 4);
      assert s[4..][..8] == BigEndian(v, 8);
    }
  }

  /** The leading bytes of the input, as fread gets them. */
  method Read(input: bytes, n: nat) returns (ok: bool, s: bytes, rest: bytes)
    ensures ok <==> |input| >= n
    ensures ok ==> s == input[..n] && rest == input[n..]
  {
    ok := |input| >= n;
    s, rest := if ok then input[..n] else input, if ok then input[n..] else [];
  }
}
