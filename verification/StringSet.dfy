/** StringSet: strings interned in one NUL-separated buffer, indexed by an open-addressing hash table of
    buffer offsets with linear probing and full rehashing.

    The abstract state is the list of distinct strings in the order in which they were first added. */
module StringSet {

  const INT_MAX := 0x7FFF_FFFF
  const TWO_TO_THE_32 := 0x1_0000_0000
  const TWO_TO_THE_64 := 0x1_0000_0000_0000_0000

  // ---- The buffer ----

  predicate NulFree(s: string) {
    '\0' !in s
  }

  function Data(strings: seq<string>): string {
    if strings == [] then "" else Data(strings[..|strings| - 1]) + strings[|strings| - 1] + "\0"
  }

  /** Where the k-th string starts in the buffer. */
  function Offset(strings: seq<string>, k: nat): nat
    requires k <= |strings|
  {
    |Data(strings[..k])|
  }

  /** The C string at a position. */
  function CString(data: string, at: nat): string
    requires at <= |data|
    decreases |data| - at
  {
    if at == |data| || data[at] == '\0' then "" else [data[at]] + CString(data, at + 1)
  }

  predicate Distinct(strings: seq<string>) {
    forall i, j :: 0 <= i < j < |strings| ==> strings[i] != strings[j]
  }

  predicate AllNulFree(strings: seq<string>) {
    forall i :: 0 <= i < |strings| ==> NulFree(strings[i])
  }

  lemma {:induction false} DataSplit(strings: seq<string>, k: nat)
    requires k < |strings|
    ensures Offset(strings, k + 1) == Offset(strings, k) + |strings[k]| + 1 <= |Data(strings)|
    ensures Data(strings)[Offset(strings, k)..Offset(strings, k + 1)] == strings[k] + "\0"
    decreases |strings|
  {
    assert strings[..k + 1][..k] == strings[..k];
    var init := strings[..|strings| - 1];
    if k < |init| {
      DataSplit(init, k);
      assert init[..k] == strings[..k] && init[..k + 1] == strings[..k + 1];
    } else {
      assert strings[..k + 1] == strings;
    }
  }

  lemma {:induction false} OffsetsAscend(strings: seq<string>, i: nat, j: nat)
    requires i < j <= |strings|
    ensures Offset(strings, i) < Offset(strings, j) <= |Data(strings)|
    decreases j
  {
    DataSplit(strings, j - 1);
    if i < j - 1 {
      OffsetsAscend(strings, i, j - 1);
    }
  }

  lemma {:induction false} CStringExact(data: string, at: nat, s: string)
    requires NulFree(s) && at + |s| < |data| && data[at..at + |s| + 1] == s + "\0"
    ensures CString(data, at) == s
    decreases |s|
  {
    assert data[at] == data[at..at + |s| + 1][0] == (s + "\0")[0];
    if s != "" {
      assert s[0] in s;
      assert data[at + 1..at + 1 + |s[1..]| + 1] == data[at..at + |s| + 1][1..] == s[1..] + "\0";
      CStringExact(data, at + 1, s[1..]);
    }
  }

  /** Reading at an offset gives the string that was stored there. */
  lemma StringAt(strings: seq<string>, k: nat)
    requires AllNulFree(strings) && k < |strings|
    ensures Offset(strings, k) < |Data(strings)| && CString(Data(strings), Offset(strings, k)) == strings[k]
  {
    DataSplit(strings, k);
    CStringExact(Data(strings), Offset(strings, k), strings[k]);
  }

  /** Only one string can be empty, so n strings need 2n - 1 bytes: the load never overflows an int. */
  lemma {:induction false} DataSize(strings: seq<string>)
    requires Distinct(strings)
    ensures |Data(strings)| >= 2 * |strings| - (if "" in strings then 1 else 0)
  {
    if strings != [] {
      var init, last := strings[..|strings| - 1], strings[|strings| - 1];
      DataSize(init);
      if last == "" {
        assert "" !in init;
      }
    }
  }

  // ---- Hashing ----

  /** One step in 64-bit unsigned arithmetic; a char above 127 is sign-extended to 32 bits. */
  function HashStep(hash: nat, c: char): nat {
    (hash * 33 + (if c as int < 128 then c as int else c as int + TWO_TO_THE_32 - 256)) % TWO_TO_THE_64
  }

  function HashFrom(s: string, hash: nat): nat {
    if s == "" then hash else HashFrom(s[1..], HashStep(hash, s[0]))
  }

  function StringHash(s: string): int {
    var h := HashFrom(s, 5381) * 13 % TWO_TO_THE_32;
    if h < 0x8000_0000 then h else h - TWO_TO_THE_32
  }

  /** The same as a sum over the string, in unbounded arithmetic and without the sign extension. */
  function HashSum(s: string): int {
    if s == "" then 5381
    else 33 * HashSum(s[..|s| - 1]) + var c := s[|s| - 1] as int; if c < 128 then c else c - 256
  }

  lemma {:induction false} HashFromLast(s: string, hash: nat)
    requires s != ""
    ensures HashFrom(s, hash) == HashStep(HashFrom(s[..|s| - 1], hash), s[|s| - 1])
  {
    if |s| > 1 {
      HashFromLast(s[1..], HashStep(hash, s[0]));
      assert s[1..][..|s| - 2] == s[..|s| - 1][1..];
    } else {
      assert s[1..] == "" && s[..0] == "";
    }
  }

  lemma Multiple(d: int, m: int)
    requires m > 0
    ensures d > 0 ==> d * m >= m
    ensures d < 0 ==> d * m <= -m
  {
  }

  lemma Distribute(p: int, q: int, k: int, m: int)
    ensures (p - q - k) * m == p * m - q * m - k * m
  {
  }

  lemma Congruent(a: int, b: int, k: int, m: int)
    requires m > 0 && a - b == k * m
    ensures a % m == b % m
  {
    var p, q, x, y := a / m, b / m, a % m, b % m;
    assert a == p * m + x && b == q * m + y;
    Distribute(p, q, k, m);
    Multiple(p - q - k, m);
    assert (p - q - k) * m == y - x;
  }

  /** The 64-bit steps lose nothing of the low 32 bits. */
  lemma {:induction false} HashFromSum(s: string)
    requires forall i :: 0 <= i < |s| ==> s[i] as int < 256
    ensures HashFrom(s, 5381) % 4294967296 == HashSum(s) % 4294967296
  {
    if s != "" {
      var init, c := s[..|s| - 1], s[|s| - 1] as int;
      HashFromSum(init);
      HashFromLast(s, 5381);
      var h, t := HashFrom(init, 5381), HashSum(init);
      var step := h * 33 + if c < 128 then c else c + 4294967296 - 256;
      var wraps := step / 18446744073709551616;
      var high := h / 4294967296 - t / 4294967296;
      Congruent(HashFrom(s, 5381), HashSum(s),
                33 * high + (if c < 128 then 0 else 1) - wraps * 4294967296, 4294967296);
    }
  }

  /** The hash is thirteen times that sum, modulo 2^32, as a signed number. */
  lemma HashExact(s: string)
    requires forall i :: 0 <= i < |s| ==> s[i] as int < 256
    ensures -2147483648 <= StringHash(s) < 2147483648
    ensures (StringHash(s) - 13 * HashSum(s)) % 4294967296 == 0
  {
    HashFromSum(s);
    hide HashFrom;
    hide HashSum;
    Thirteenfold(HashFrom(s, 5381), HashSum(s));
  }

  lemma Thirteenfold(h: nat, t: int)
    requires h % 4294967296 == t % 4294967296
    ensures var low := h * 13 % 4294967296;
            ((if low < 2147483648 then low else low - 4294967296) - 13 * t) % 4294967296 == 0
  {
    var p, q, x := h / 4294967296, t / 4294967296, h % 4294967296;
    assert h == p * 4294967296 + x && t == q * 4294967296 + x;
    var n := h * 13;
    var w, low := n / 4294967296, n % 4294967296;
    assert n == w * 4294967296 + low;
    var signed := if low < 2147483648 then 0 else 1;
    Congruent(low - signed * 4294967296 - 13 * t, 0, 13 * (p - q) - w - signed, 4294967296);
  }

  /** hash % m_hashes.size(): the int is converted to size_t first. */
  function Home(hash: int, size: nat): (p: nat)
    requires size > 0
    ensures p < size
  {
    hash % TWO_TO_THE_64 % size
  }

  /** A negative hash is taken modulo 2^64 first. */
  lemma HomeExact(hash: int, size: nat)
    requires -2147483648 <= hash < 2147483648 && size > 0
    ensures Home(hash, size) == if hash >= 0 then hash % size else (hash + 18446744073709551616) % size
  {
    if hash < 0 {
      Congruent(hash, hash + 18446744073709551616, -1, 18446744073709551616);
    }
  }

  /** The slot that probing reaches after u steps. */
  function Slot(home: nat, u: nat, size: nat): (p: nat)
    requires home < size && u <= size
    ensures p < size
  {
    if home + u < size then home + u else home + u - size
  }

  /** Probing visits every slot. */
  lemma SlotOf(home: nat, p: nat, size: nat) returns (u: nat)
    requires home < size && p < size
    ensures u < size && Slot(home, u, size) == p
  {
    u := if home <= p then p - home else p + size - home;
  }

  // ---- The table ----

  function Occupied(hashes: seq<int>): (n: nat)
    ensures n <= |hashes|
  {
    if hashes == [] then 0
    else Occupied(hashes[..|hashes| - 1]) + (if hashes[|hashes| - 1] == -1 then 0 else 1)
  }

  lemma {:induction false} FreeSlot(hashes: seq<int>) returns (p: nat)
    requires Occupied(hashes) < |hashes|
    ensures p < |hashes| && hashes[p] == -1
  {
    if hashes[|hashes| - 1] == -1 {
      p := |hashes| - 1;
    } else {
      p := FreeSlot(hashes[..|hashes| - 1]);
    }
  }

  lemma {:induction false} OccupyOne(hashes: seq<int>, p: nat, v: int)
    requires p < |hashes| && hashes[p] == -1 && v != -1
    ensures Occupied(hashes[p := v]) == Occupied(hashes) + 1
  {
    var init := hashes[..|hashes| - 1];
    if p < |init| {
      OccupyOne(init, p, v);
      assert hashes[p := v][..|init|] == init[p := v];
    } else {
      assert hashes[p := v][..|init|] == init;
    }
  }

  lemma {:induction false} NoneOccupied(n: nat)
    ensures Occupied(seq(n, _ => -1)) == 0
  {
    if n > 0 {
      assert seq(n, _ => -1)[..n - 1] == seq(n - 1, _ => -1);
      NoneOccupied(n - 1);
    }
  }

  /** Slots from the home slot of s, u < d of them, are all taken. */
  ghost predicate Run(hashes: seq<int>, home: nat, d: nat)
    requires home < |hashes| && d <= |hashes|
  {
    forall u :: 0 <= u < d ==> hashes[Slot(home, u, |hashes|)] != -1
  }

  /** The k-th string sits d steps from its home slot, and probing for it meets no free slot before. */
  ghost predicate Placed(hashes: seq<int>, strings: seq<string>, k: nat, d: nat) {
    && k < |strings| && d < |hashes|
    && var home := Home(StringHash(strings[k]), |hashes|);
    && hashes[Slot(home, d, |hashes|)] == Offset(strings, k)
    && Run(hashes, home, d)
  }

  /** The table holds the offsets of the first n strings and nothing else. */
  ghost predicate Table(hashes: seq<int>, strings: seq<string>, dists: seq<nat>, n: nat) {
    && n <= |strings| && |dists| == n && Occupied(hashes) == n
    && (forall k :: 0 <= k < n ==> Placed(hashes, strings, k, dists[k]))
    && (forall p :: 0 <= p < |hashes| && hashes[p] != -1 ==> Holds(strings, n, hashes[p]))
  }

  ghost predicate Holds(strings: seq<string>, n: nat, value: int)
    requires n <= |strings|
  {
    exists k :: 0 <= k < n && value == Offset(strings, k)
  }

  /** Linear probing: a new offset goes to the first free slot of its run. */
  lemma TableInsert(hashes: seq<int>, strings: seq<string>, dists: seq<nat>, n: nat, d: nat)
    requires Table(hashes, strings, dists, n) && n < |strings| && d < |hashes|
    requires var home := Home(StringHash(strings[n]), |hashes|);
             Run(hashes, home, d) && hashes[Slot(home, d, |hashes|)] == -1
    ensures var p := Slot(Home(StringHash(strings[n]), |hashes|), d, |hashes|);
            Table(hashes[p := Offset(strings, n)], strings, dists + [d], n + 1)
  {
    var p := Slot(Home(StringHash(strings[n]), |hashes|), d, |hashes|);
    var h := hashes[p := Offset(strings, n)];
    OccupyOne(hashes, p, Offset(strings, n));
    forall k | 0 <= k < n + 1 ensures Placed(h, strings, k, (dists + [d])[k]) {
      if k < n {
        assert Placed(hashes, strings, k, dists[k]);
      }
    }
    forall q | 0 <= q < |h| && h[q] != -1 ensures Holds(strings, n + 1, h[q]) {
      if q != p {
        assert Holds(strings, n, hashes[q]);
      }
    }
  }

  /** Strings to come do not matter to a table of the first n. */
  lemma TableGrows(hashes: seq<int>, strings: seq<string>, more: seq<string>, dists: seq<nat>, n: nat)
    requires strings <= more && n <= |strings|
    ensures Table(hashes, strings, dists, n) ==> Table(hashes, more, dists, n)
  {
    forall k | 0 <= k <= n ensures Offset(strings, k) == Offset(more, k) {
      assert strings[..k] == more[..k];
    }
    if Table(hashes, strings, dists, n) {
      forall k | 0 <= k < n ensures Placed(hashes, more, k, dists[k]) {
        assert Placed(hashes, strings, k, dists[k]);
        assert strings[k] == more[k];
      }
      forall q | 0 <= q < |hashes| && hashes[q] != -1 ensures Holds(more, n, hashes[q]) {
        assert Holds(strings, n, hashes[q]);
        var k :| 0 <= k < n && hashes[q] == Offset(strings, k);
        assert hashes[q] == Offset(more, k);
      }
    }
  }

  /** Where s is in the list, or its length. */
  function IndexOf(strings: seq<string>, s: string): (k: nat)
    ensures k <= |strings| && (k < |strings| <==> s in strings)
    ensures k < |strings| ==> strings[k] == s
  {
    if strings == [] then 0 else if strings[0] == s then 0 else 1 + IndexOf(strings[1..], s)
  }

  class StringSet {
    var data: string
    var hashes: seq<int>
    var load: int
    ghost var strings: seq<string>
    ghost var dists: seq<nat>

    ghost predicate Valid()
      reads this
    {
      && Distinct(strings) && AllNulFree(strings) && data == Data(strings) && |data| <= INT_MAX
      && load == |strings| && Table(hashes, strings, dists, |strings|)
      && (|hashes| == 0 || |hashes| >= 3) && 2 * load <= |hashes| + 1
    }

    constructor ()
      ensures Valid() && strings == [] && load == 0
    {
      data, hashes, load := "", [], 0;
      strings, dists := [], [];
    }

    function GetString(index: nat): string
      requires index <= |data|
      reads this
    {
      CString(data, index)
    }

    /** Finds the offset of an added string, or -1. */
    method FindStringL(s: string, hash: int) returns (pos: int)
      requires Valid() && NulFree(s) && hash == StringHash(s)
      ensures pos == if s in strings then Offset(strings, IndexOf(strings, s)) else -1
    {
      hide Home;
      hide StringHash;
      hide Offset;
      hide CString;
      hide Occupied;
      hide IndexOf;
      if |hashes| == 0 {
        return -1;
      }
      var p := Home(hash, |hashes|);
      ghost var home, t := p, 0;
      ghost var free := FreeSlot(hashes);
      ghost var last := SlotOf(home, free, |hashes|);
      while hashes[p] != -1
        invariant t <= last && p == Slot(home, t, |hashes|) && Run(hashes, home, t)
        invariant forall u :: 0 <= u < t && s in strings ==>
                    hashes[Slot(home, u, |hashes|)] != Offset(strings, IndexOf(strings, s))
        decreases last - t
      {
        assert Holds(strings, |strings|, hashes[p]);
        ghost var k :| 0 <= k < |strings| && hashes[p] == Offset(strings, k);
        StringAt(strings, k);
        var s1 := GetString(hashes[p]);
        if s == s1 {
          SameString(strings, k, s);
          return hashes[p];
        }
        if s in strings {
          OffsetsDiffer(strings, k, s);
        }
        p := p + 1;
        if p == |hashes| {
          p := 0;
        }
        t := t + 1;
      }
      if s in strings {
        ghost var k := IndexOf(strings, s);
        assert Placed(hashes, strings, k, dists[k]);
      }
      pos := -1;
    }

    method FindString(s: string) returns (pos: int)
      requires Valid() && NulFree(s)
      ensures pos == if s in strings then Offset(strings, IndexOf(strings, s)) else -1
    {
      pos := FindStringL(s, StringHash(s));
    }

    method ContainsString(s: string) returns (found: bool)
      requires Valid() && NulFree(s)
      ensures found <==> s in strings
    {
      var pos := FindStringL(s, StringHash(s));
      found := pos != -1;
    }

    function NumEntries(): (n: int)
      requires Valid()
      reads this
      ensures n == |strings|
    {
      load
    }

    /** Enters the n-th string of the list, whose offset is value. */
    method AddHashNoRehash(hash: int, value: int, ghost all: seq<string>, ghost n: nat)
      requires n < |all| && hash == StringHash(all[n]) && value == Offset(all, n)
      requires Table(hashes, all, dists, n) && n < |hashes| && load == n < INT_MAX
      modifies this`hashes, this`load, this`dists
      ensures Table(hashes, all, dists, n + 1) && |hashes| == |old(hashes)| && load == n + 1
    {
      load := load + 1;
      var p := Home(hash, |hashes|);
      ghost var home, t := p, 0;
      ghost var free := FreeSlot(hashes);
      ghost var last := SlotOf(home, free, |hashes|);
      while hashes[p] != -1
        invariant t <= last && p == Slot(home, t, |hashes|) && Run(hashes, home, t)
        decreases last - t
      {
        p := p + 1;
        if p == |hashes| {
          p := 0;
        }
        t := t + 1;
      }
      TableInsert(hashes, all, dists, n, t);
      hashes := hashes[p := value];
      dists := dists + [t];
    }

    /** Fills an empty table with the strings of the buffer. */
    method RehashAll(ghost all: seq<string>)
      requires Distinct(all) && AllNulFree(all) && data == Data(all) && |data| <= INT_MAX
      requires hashes == seq(|hashes|, _ => -1) && (all == [] || |all| < |hashes|)
      modifies this`hashes, this`load, this`dists
      ensures Table(hashes, all, dists, |all|) && |hashes| == |old(hashes)| && load == |all|
    {
      load := 0;
      dists := [];
      NoneOccupied(|hashes|);
      var pos := 0;
      ghost var i := 0;
      assert all[..0] == [] && all[..|all|] == all;
      while pos < |data|
        invariant i <= |all| && pos == Offset(all, i) && |hashes| == |old(hashes)|
        invariant Table(hashes, all, dists, i) && load == i
        decreases |data| - pos
      {
        var str := GetString(pos);
        StringAt(all, i);
        DataSize(all);
        AddHashNoRehash(StringHash(str), pos, all, i);
        DataSplit(all, i);
        pos := pos + |str| + 1;
        i := i + 1;
      }
      if i < |all| {
        StringAt(all, i);
      }
    }

    /** Grows the table while it is half full, then enters the string behind the end of the buffer. */
    method AddHash(hash: int, value: int, ghost s: string)
      requires Valid() && hash == StringHash(s) && value == |data| < INT_MAX
      modifies this`hashes, this`load, this`dists
      ensures Table(hashes, strings + [s], dists, |strings| + 1) && load == |strings| + 1
      ensures |hashes| >= 3 && 2 * load <= |hashes| + 1
      ensures |hashes| == if 2 * old(load) < |old(hashes)| then |old(hashes)| else 2 * |old(hashes)| + 3
    {
      DataSize(strings);
      while load * 2 >= |hashes|
        invariant load == |strings| == old(load) && Table(hashes, strings, dists, |strings|)
        invariant |hashes| == 0 || |hashes| >= 3
        invariant |hashes| == |old(hashes)| || (2 * load >= |old(hashes)| && |hashes| == 2 * |old(hashes)| + 3)
        decreases 2 * load - |hashes|
      {
        assert load * 2 <= INT_MAX;
        hashes := seq(|hashes| * 2 + 3, _ => -1);
        RehashAll(strings);
      }
      TableGrows(hashes, strings, strings + [s], dists, |strings|);
      assert (strings + [s])[..|strings|] == strings;
      AddHashNoRehash(hash, value, strings + [s], |strings|);
    }

    /** Adds a string unless it is there, and returns its offset.  Offsets given out before stay good:
        the buffer only grows at its end, and only a new string needs room in it. */
    method AddString(s: string) returns (pos: int)
      requires Valid() && NulFree(s) && (s !in strings ==> |data| + |s| + 1 <= INT_MAX)
      modifies this
      ensures Valid()
      ensures strings == if s in old(strings) then old(strings) else old(strings) + [s]
      ensures s in strings && pos == Offset(strings, IndexOf(strings, s))
      ensures old(data) <= data
    {
      hide StringHash;
      hide Offset;
      hide IndexOf;
      hide Table;
      hide Data;
      hide Distinct;
      hide AllNulFree;
      var hash := StringHash(s);
      pos := FindStringL(s, hash);
      if pos == -1 {
        pos := |data|;
        AddHash(hash, pos, s);
        data := data + s + "\0";
        AppendString(strings, s);
        strings := strings + [s];
      }
    }

    method GetAllStrings() returns (found: seq<int>)
      requires Valid()
      ensures |found| == |strings| && forall k :: 0 <= k < |found| ==> found[k] == Offset(strings, k)
    {
      found := [];
      var pos := 0;
      assert strings[..0] == [] && strings[..|strings|] == strings;
      while pos < |data|
        invariant |found| <= |strings| && pos == Offset(strings, |found|)
        invariant forall k :: 0 <= k < |found| ==> found[k] == Offset(strings, k)
        decreases |data| - pos
      {
        StringAt(strings, |found|);
        DataSplit(strings, |found|);
        var len := |GetString(pos)|;
        found := found + [pos];
        pos := pos + len + 1;
      }
      if |found| < |strings| {
        StringAt(strings, |found|);
      }
    }
  }

  // ---- Saving and loading ----

  /** What saveToFile writes: the buffer with its size, and the size of the table. */
  datatype SavedFile = SavedFile(dataSize: int, data: string, hashSize: int)

  method SaveToFile(set_: StringSet) returns (f: SavedFile)
    requires set_.Valid() && |set_.hashes| <= INT_MAX
    ensures f == SavedFile(|set_.data|, set_.data, |set_.hashes|)
  {
    f := SavedFile(|set_.data|, set_.data, |set_.hashes|);
  }

  /** loadFromFile into a fresh set: the table is rebuilt at the size it had. */
  method LoadFromFile(f: SavedFile, ghost all: seq<string>) returns (ok: bool, loaded: StringSet)
    requires f.dataSize == |f.data| ==>
               && Distinct(all) && AllNulFree(all) && f.data == Data(all) && |f.data| <= INT_MAX
               && (f.hashSize == 0 || f.hashSize >= 3) && 2 * |all| <= f.hashSize + 1
    ensures fresh(loaded) && loaded.Valid() && (ok <==> f.dataSize == |f.data|)
    ensures ok ==> loaded.strings == all && loaded.data == f.data && |loaded.hashes| == f.hashSize
  {
    loaded := new StringSet();
    if f.dataSize != |f.data| {
      return false, loaded;
    }
    loaded.data := f.data;
    loaded.strings := all;
    loaded.hashes := seq(f.hashSize, _ => -1);
    loaded.RehashAll(all);
    ok := true;
  }

  // ---- Whole runs ----

  /** The distinct strings in the order in which they first occur. */
  function Dedup(adds: seq<string>): seq<string> {
    if adds == [] then []
    else
      var d := Dedup(adds[..|adds| - 1]);
      if adds[|adds| - 1] in d then d else d + [adds[|adds| - 1]]
  }

  /** Dedup keeps each string once, and keeps what it had when more strings come. */
  lemma {:induction false} DedupExact(adds: seq<string>)
    ensures Distinct(Dedup(adds)) && (forall s :: s in Dedup(adds) <==> s in adds)
    ensures |Dedup(adds)| == |set s | s in adds|
    ensures forall k :: 0 <= k <= |adds| ==> Dedup(adds[..k]) <= Dedup(adds)
  {
    DedupPrefixes(adds);
    if adds == [] {
      assert (set s | s in adds) == {};
    } else {
      var init, last := adds[..|adds| - 1], adds[|adds| - 1];
      DedupExact(init);
      assert adds == init + [last];
      assert (set s | s in adds) == (set s | s in init) + {last};
      AppendDistinct(Dedup(init), last);
    }
  }

  lemma AppendDistinct(d: seq<string>, s: string)
    requires Distinct(d)
    ensures s !in d ==> Distinct(d + [s])
  {
  }

  lemma {:induction false} DedupPrefixes(adds: seq<string>)
    ensures forall k :: 0 <= k <= |adds| ==> Dedup(adds[..k]) <= Dedup(adds)
  {
    if adds != [] {
      var init := adds[..|adds| - 1];
      DedupPrefixes(init);
      forall k | 0 <= k <= |adds| ensures Dedup(adds[..k]) <= Dedup(adds) {
        assert adds[..k] == if k < |adds| then init[..k] else adds;
      }
    }
  }

  /** An offset given out once is the offset ever after. */
  lemma OffsetStable(strings: seq<string>, more: seq<string>, s: string)
    requires strings <= more && Distinct(more) && s in strings
    ensures IndexOf(more, s) == IndexOf(strings, s)
    ensures Offset(more, IndexOf(more, s)) == Offset(strings, IndexOf(strings, s))
  {
    var k := IndexOf(strings, s);
    assert more[k] == strings[k];
    SameString(more, k, s);
    assert more[..k] == strings[..k];
  }

  lemma PrefixData(strings: seq<string>, more: seq<string>)
    requires strings <= more
    ensures |Data(strings)| <= |Data(more)|
  {
    assert strings == more[..|strings|] && more == more[..|more|];
    if |strings| < |more| {
      OffsetsAscend(more, |strings|, |more|);
    }
  }

  lemma SnocData(strings: seq<string>, s: string)
    ensures |Data(strings + [s])| == |Data(strings)| + |s| + 1
  {
    assert (strings + [s])[..|strings|] == strings;
  }

  /** Every addString returned the offset its string has in the buffer of all the strings added. */
  ghost predicate OffsetsAgree(offsets: seq<int>, adds: seq<string>) {
    && |offsets| == |adds|
    && forall i :: 0 <= i < |adds| ==>
         adds[i] in Dedup(adds) && offsets[i] == Offset(Dedup(adds), IndexOf(Dedup(adds), adds[i]))
  }

  lemma OffsetsAgreeStep(offsets: seq<int>, adds: seq<string>, pos: int)
    requires adds != [] && OffsetsAgree(offsets, adds[..|adds| - 1])
    requires var d, last := Dedup(adds), adds[|adds| - 1]; last in d && pos == Offset(d, IndexOf(d, last))
    ensures OffsetsAgree(offsets + [pos], adds)
  {
    var init := adds[..|adds| - 1];
    DedupExact(adds);
    assert Dedup(init) <= Dedup(adds);
    forall i | 0 <= i < |adds| - 1
      ensures adds[i] in Dedup(adds) && offsets[i] == Offset(Dedup(adds), IndexOf(Dedup(adds), adds[i]))
    {
      assert init[i] == adds[i];
      OffsetStable(Dedup(init), Dedup(adds), adds[i]);
    }
  }

  /** The i-th addition of a run. */
  method AddNext(set_: StringSet, adds: seq<string>, i: nat, ghost offsets: seq<int>) returns (pos: int)
    requires i < |adds| && AllNulFree(adds) && |Data(Dedup(adds))| <= INT_MAX
    requires set_.Valid() && set_.strings == Dedup(adds[..i]) && OffsetsAgree(offsets, adds[..i])
    modifies set_
    ensures set_.Valid() && set_.strings == Dedup(adds[..i + 1]) && OffsetsAgree(offsets + [pos], adds[..i + 1])
  {
    hide Dedup;
    hide OffsetsAgree;
    hide Data;
    ghost var now := adds[..i + 1];
    assert now[..i] == adds[..i] && now[i] == adds[i];
    DedupNext(now);
    DedupExact(adds);
    PrefixData(Dedup(now), Dedup(adds));
    SnocData(Dedup(adds[..i]), adds[i]);
    pos := set_.AddString(adds[i]);
    OffsetsAgreeStep(offsets, now, pos);
  }

  /** Any run of additions to an empty set, as long as the distinct strings fit, then a look-up: equal
      strings share one offset, offsets never change, the entries are the distinct strings, and a string is
      found exactly when it was added. */
  method AddThenFind(adds: seq<string>, probe: string)
    returns (offsets: seq<int>, entries: int, found: int, all: seq<int>)
    requires AllNulFree(adds) && NulFree(probe) && |Data(Dedup(adds))| <= INT_MAX
    ensures OffsetsAgree(offsets, adds)
    ensures entries == |set s | s in adds| == |Dedup(adds)|
    ensures found == if probe in adds then Offset(Dedup(adds), IndexOf(Dedup(adds), probe)) else -1
    ensures |all| == |Dedup(adds)| && forall k :: 0 <= k < |all| ==> all[k] == Offset(Dedup(adds), k)
  {
    hide Dedup;
    hide OffsetsAgree;
    hide Data;
    hide Offset;
    hide IndexOf;
    hide AllNulFree;
    hide StringSet.Valid;
    var set_ := new StringSet();
    offsets := [];
    assert adds[..0] == [];
    DedupEmpty();
    for i := 0 to |adds|
      invariant fresh(set_) && set_.Valid() && set_.strings == Dedup(adds[..i])
      invariant OffsetsAgree(offsets, adds[..i])
    {
      var pos := AddNext(set_, adds, i, offsets);
      offsets := offsets + [pos];
    }
    assert adds[..|adds|] == adds;
    DedupExact(adds);
    entries := set_.NumEntries();
    found := set_.FindString(probe);
    all := set_.GetAllStrings();
  }

  lemma DedupEmpty()
    ensures Dedup([]) == [] && OffsetsAgree([], [])
  {
  }

  lemma DedupNext(adds: seq<string>)
    requires adds != []
    ensures var d := Dedup(adds[..|adds| - 1]);
            Dedup(adds) == if adds[|adds| - 1] in d then d else d + [adds[|adds| - 1]]
  {
  }

  /** Saving and loading gives a set with the same strings at the same offsets. */
  method SaveThenLoad(set_: StringSet) returns (loaded: StringSet)
    requires set_.Valid() && |set_.hashes| <= INT_MAX
    ensures fresh(loaded) && loaded.Valid() && loaded.strings == set_.strings && loaded.data == set_.data
  {
    var f := SaveToFile(set_);
    var ok;
    ok, loaded := LoadFromFile(f, set_.strings);
  }

  lemma SameString(strings: seq<string>, k: nat, s: string)
    requires Distinct(strings) && k < |strings| && strings[k] == s
    ensures IndexOf(strings, s) == k
  {
    assert s in strings;
  }

  lemma OffsetsDiffer(strings: seq<string>, k: nat, s: string)
    requires Distinct(strings) && k < |strings| && strings[k] != s && s in strings
    ensures Offset(strings, k) != Offset(strings, IndexOf(strings, s))
  {
    var i := IndexOf(strings, s);
    if i < k {
      OffsetsAscend(strings, i, k);
    } else {
      OffsetsAscend(strings, k, i);
    }
  }

  lemma AppendString(strings: seq<string>, s: string)
    requires Distinct(strings) && AllNulFree(strings) && NulFree(s) && s !in strings
    ensures Distinct(strings + [s]) && AllNulFree(strings + [s])
    ensures Data(strings + [s]) == Data(strings) + s + "\0"
    ensures IndexOf(strings + [s], s) == |strings| && Offset(strings + [s], |strings|) == |Data(strings)|
  {
    assert (strings + [s])[..|strings|] == strings;
    SameString(strings + [s], |strings|, s);
  }
}
