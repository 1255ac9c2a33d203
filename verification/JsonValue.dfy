/** JSON values (Json::Value of jsoncpp) and their order.

    A C++ `char` is a Dafny `char` whose code is the byte's value; every statement below holds for
    all chars, bytes among them.  Arrays and objects both hold a std::map keyed by CZString, which is
    modelled by its in-order contents: a sequence of pairs with strictly ascending keys. */
module JsonValue {
  import opened Wrappers

  const MAX_INT := 0x7FFF_FFFF
  const MIN_LARGEST_INT := -0x8000_0000_0000_0000
  const MAX_LARGEST_INT := 0x7FFF_FFFF_FFFF_FFFF
  const MAX_LARGEST_UINT := 0xFFFF_FFFF_FFFF_FFFF

  /** ArrayIndex and unsigned have 32 bits; a member name's length has 30, and a string's length leaves room
      in an int for the prefix and the terminating NUL. */
  const UINT_RANGE := 0x1_0000_0000
  const NAME_RANGE := 0x4000_0000
  const MAX_STRING := MAX_INT - 5

  /** A double without its rounding; the two zeros are one value. */
  datatype Double = NaN | NegInfinity | Finite(x: real) | PosInfinity

  /** CZString: an array index, or a member name with its own length. */
  datatype Key = Index(i: nat) | Name(s: string)

  datatype Pair = Pair(key: Key, value: Value)

  datatype Value =
    | Null
    | Int(i: int)
    | UInt(u: int)
    | Real(d: Double)
    | Str(s: string)
    | Bool(b: bool)
    | Arr(entries: seq<Pair>)
    | Obj(entries: seq<Pair>)

  // ---- The order of keys: memcmp on the common prefix, then the length ----

  function MemCmp(a: string, b: string, n: nat): int
    requires n <= |a| && n <= |b|
  {
    if n == 0 then 0
    else if a[0] != b[0] then a[0] as int - b[0] as int
    else MemCmp(a[1..], b[1..], n - 1)
  }

  function Min(a: nat, b: nat): nat {
    if a <= b then a else b
  }

  predicate BytesLess(a: string, b: string) {
    var comp := MemCmp(a, b, Min(|a|, |b|));
    comp < 0 || (comp == 0 && |a| < |b|)
  }

  /** An index and a name never meet in one map; here every index comes first. */
  predicate KeyLess(a: Key, b: Key) {
    match (a, b)
    case (Index(i), Index(j)) => i < j
    case (Name(s), Name(t)) => BytesLess(s, t)
    case (Index(_), Name(_)) => true
    case (Name(_), Index(_)) => false
  }

  lemma {:induction false} BytesTrichotomy(a: string, b: string)
    ensures a == b <==> !BytesLess(a, b) && !BytesLess(b, a)
    ensures !(BytesLess(a, b) && BytesLess(b, a))
    decreases |a|
  {
    if a != [] && b != [] && a[0] == b[0] {
      BytesTrichotomy(a[1..], b[1..]);
      assert a == [a[0]] + a[1..] && b == [b[0]] + b[1..];
    }
  }

  lemma {:induction false} BytesTransitive(a: string, b: string, c: string)
    requires BytesLess(a, b) && BytesLess(b, c)
    ensures BytesLess(a, c)
    decreases |a|
  {
    if a != [] && b != [] && c != [] && a[0] == b[0] == c[0] {
      BytesTransitive(a[1..], b[1..], c[1..]);
    }
  }

  lemma KeyTrichotomy(a: Key, b: Key)
    ensures a == b <==> !KeyLess(a, b) && !KeyLess(b, a)
    ensures !(KeyLess(a, b) && KeyLess(b, a))
  {
    if a.Name? && b.Name? {
      BytesTrichotomy(a.s, b.s);
    }
  }

  lemma KeyTransitive(a: Key, b: Key, c: Key)
    requires KeyLess(a, b) && KeyLess(b, c)
    ensures KeyLess(a, c)
  {
    if a.Name? && c.Name? {
      BytesTransitive(a.s, b.s, c.s);
    }
  }

  // ---- Maps ----

  predicate Ascending(m: seq<Pair>) {
    forall i, j :: 0 <= i < j < |m| ==> KeyLess(m[i].key, m[j].key)
  }

  /** lower_bound: how many leading keys are smaller than k. */
  function LowerBound(m: seq<Pair>, k: Key): (n: nat)
    ensures n <= |m|
    ensures forall i :: 0 <= i < n ==> KeyLess(m[i].key, k)
    ensures n < |m| ==> !KeyLess(m[n].key, k)
  {
    if m != [] && KeyLess(m[0].key, k) then
      var n := LowerBound(m[1..], k);
      assert forall i :: 0 < i < |m| ==> m[i] == m[1..][i - 1];
      n + 1
    else 0
  }

  predicate HasKey(m: seq<Pair>, k: Key) {
    var n := LowerBound(m, k);
    n < |m| && m[n].key == k
  }

  /** The value under k, null when there is none (nullRef). */
  function Find(m: seq<Pair>, k: Key): Value {
    if HasKey(m, k) then m[LowerBound(m, k)].value else Null
  }

  /** operator[] with an assignment through the reference it returns. */
  function Put(m: seq<Pair>, k: Key, v: Value): seq<Pair> {
    var n := LowerBound(m, k);
    if HasKey(m, k) then m[n := Pair(k, v)] else m[..n] + [Pair(k, v)] + m[n..]
  }

  /** In an ascending map lower_bound really finds a key. */
  lemma HasKeyExact(m: seq<Pair>, k: Key)
    requires Ascending(m)
    ensures HasKey(m, k) <==> exists i :: 0 <= i < |m| && m[i].key == k
  {
    var n := LowerBound(m, k);
    if i :| 0 <= i < |m| && m[i].key == k {
      KeyTrichotomy(k, k);
      assert n <= i;
      KeyTrichotomy(m[n].key, k);
    }
  }

  lemma PutAscending(m: seq<Pair>, k: Key, v: Value)
    requires Ascending(m)
    ensures Ascending(Put(m, k, v))
  {
    var n := LowerBound(m, k);
    if !HasKey(m, k) {
      forall j | n <= j < |m| ensures KeyLess(k, m[j].key) {
        KeyTrichotomy(k, m[n].key);
        if n < j {
          KeyTransitive(k, m[n].key, m[j].key);
        }
      }
    }
  }

  /** Assigning twice under one key leaves the second value. */
  lemma PutTwice(m: seq<Pair>, k: Key, v: Value, w: Value)
    requires Ascending(m)
    ensures Put(Put(m, k, v), k, w) == Put(m, k, w)
    ensures Find(Put(m, k, v), k) == v
  {
    hide KeyLess;
    hide LowerBound;
    hide Ascending;
    var n, p := LowerBound(m, k), Put(m, k, v);
    KeyTrichotomy(k, k);
    assert p[n] == Pair(k, v);
    assert forall i :: 0 <= i < n ==> p[i].key == m[i].key;
    LowerBoundAt(p, k, n);
  }

  lemma {:induction false} LowerBoundAt(m: seq<Pair>, k: Key, n: nat)
    requires n < |m| && !KeyLess(m[n].key, k) && forall i :: 0 <= i < n ==> KeyLess(m[i].key, k)
    ensures LowerBound(m, k) == n
  {
    hide KeyLess;
    if n > 0 {
      LowerBoundAt(m[1..], k, n - 1);
    }
  }

  /** A key above all others goes to the end. */
  lemma PutLast(m: seq<Pair>, k: Key, v: Value)
    requires forall i :: 0 <= i < |m| ==> KeyLess(m[i].key, k)
    ensures Put(m, k, v) == m + [Pair(k, v)]
  {
    assert LowerBound(m, k) == |m|;
  }

  /** The map that results from assigning the pairs in turn. */
  function PutAll(ps: seq<Pair>): seq<Pair> {
    if ps == [] then [] else Put(PutAll(ps[..|ps| - 1]), ps[|ps| - 1].key, ps[|ps| - 1].value)
  }

  lemma {:induction false} PutAllAscending(ps: seq<Pair>)
    ensures Ascending(PutAll(ps))
    ensures Ascending(ps) ==> PutAll(ps) == ps
  {
    if ps != [] {
      var last := ps[|ps| - 1];
      PutAllAscending(ps[..|ps| - 1]);
      PutAscending(PutAll(ps[..|ps| - 1]), last.key, last.value);
      if Ascending(ps) {
        PutLast(ps[..|ps| - 1], last.key, last.value);
      }
    }
  }

  // ---- Well-formed values ----

  predicate KeysFit(m: seq<Pair>, names: bool) {
    forall i :: 0 <= i < |m| ==> KeyFits(m[i].key, names)
  }

  predicate KeyFits(k: Key, name: bool) {
    k.Name? == name && if name then |k.s| < NAME_RANGE else k.i < UINT_RANGE
  }

  /** The number of values and map entries in v: the measure for recursion over values. */
  function Nodes(v: Value): (n: nat)
    ensures n > 0
    decreases v, 2
  {
    if v.Arr? || v.Obj? then 1 + MapNodes(v.entries) else 1
  }

  function MapNodes(m: seq<Pair>): (n: nat)
    ensures m != [] ==> PairNodes(m[0]) <= n && MapNodes(m[1..]) < n
    decreases m, 0
  {
    if m == [] then 0 else PairNodes(m[0]) + MapNodes(m[1..])
  }

  function PairNodes(p: Pair): (n: nat)
    ensures Nodes(p.value) < n
    decreases p, 1
  {
    1 + Nodes(p.value)
  }

  /** What the class keeps: 64-bit integers, strings that can be stored, ascending maps, 32-bit indices in
      arrays, names in objects. */
  predicate Valid(v: Value)
    decreases Nodes(v), 1
  {
    match v
    case Int(i) => MIN_LARGEST_INT <= i <= MAX_LARGEST_INT
    case UInt(u) => 0 <= u <= MAX_LARGEST_UINT
    case Str(s) => |s| <= MAX_STRING
    case Arr(m) => Ascending(m) && KeysFit(m, false) && ValidMap(m)
    case Obj(m) => Ascending(m) && KeysFit(m, true) && ValidMap(m) && |m| < UINT_RANGE
    case _ => true
  }

  predicate ValidMap(m: seq<Pair>)
    decreases MapNodes(m), 0
  {
    m == [] || (Valid(m[0].value) && ValidMap(m[1..]))
  }

  lemma {:induction false} ValidMapAll(m: seq<Pair>)
    ensures ValidMap(m) <==> forall i :: 0 <= i < |m| ==> Valid(m[i].value)
  {
    if m != [] {
      ValidMapAll(m[1..]);
      assert forall i :: 0 < i < |m| ==> m[i] == m[1..][i - 1];
    }
  }

  /** The highest index of an array plus one, or the number of members. */
  function FullSize(v: Value): (n: nat)
    ensures v.Obj? ==> n == |v.entries|
    ensures n > 0 ==> (v.Arr? || v.Obj?) && v.entries != []
  {
    match v
    case Arr(m) => if m == [] || m[|m| - 1].key.Name? then 0 else m[|m| - 1].key.i + 1
    case Obj(m) => |m|
    case _ => 0
  }

  /** Json::Value::size, an ArrayIndex: behind the highest index that there is comes 0. */
  function Size(v: Value): (n: nat)
    ensures n <= FullSize(v) && (v.Arr? ==> n < UINT_RANGE)
  {
    if v.Arr? then FullSize(v) % UINT_RANGE else FullSize(v)
  }

  // ---- operator< and operator== ----

  function TypeRank(v: Value): nat {
    match v
    case Null => 0
    case Int(_) => 1
    case UInt(_) => 2
    case Real(_) => 3
    case Str(_) => 4
    case Bool(_) => 5
    case Arr(_) => 6
    case Obj(_) => 7
  }

  predicate DoubleLess(a: Double, b: Double) {
    match (a, b)
    case (Finite(x), Finite(y)) => x < y
    case (NegInfinity, Finite(_)) => true
    case (NegInfinity, PosInfinity) => true
    case (Finite(_), PosInfinity) => true
    case _ => false
  }

  predicate DoubleEqual(a: Double, b: Double) {
    a == b && !a.NaN?
  }

  /** A size_t difference cast to a 32-bit int. */
  function ToInt(x: int): int {
    var r := x % UINT_RANGE;
    if r < 0x8000_0000 then r else r - 0x1_0000_0000
  }

  lemma ToIntExact(x: int)
    requires -MAX_INT <= x <= MAX_INT
    ensures ToInt(x) == x
  {
  }

  predicate Less(a: Value, b: Value)
    decreases Nodes(a) + Nodes(b), 1
  {
    if TypeRank(a) != TypeRank(b) then TypeRank(a) < TypeRank(b)
    else match a
      case Null => false
      case Int(i) => i < b.i
      case UInt(u) => u < b.u
      case Real(d) => DoubleLess(d, b.d)
      case Bool(x) => !x && b.b
      case Str(s) => BytesLess(s, b.s)
      case _ => SizeThenMapLess(a.entries, b.entries)
  }

  predicate SizeThenMapLess(m: seq<Pair>, n: seq<Pair>)
    decreases MapNodes(m) + MapNodes(n), 1
  {
    var delta := ToInt(|m| - |n|);
    if delta != 0 then delta < 0 else MapLess(m, n)
  }

  predicate PairLess(p: Pair, q: Pair)
    decreases Nodes(p.value) + Nodes(q.value), 2
  {
    KeyLess(p.key, q.key) || (!KeyLess(q.key, p.key) && Less(p.value, q.value))
  }

  /** std::lexicographical_compare. */
  predicate MapLess(m: seq<Pair>, n: seq<Pair>)
    decreases MapNodes(m) + MapNodes(n), 0
  {
    if n == [] then false
    else if m == [] then true
    else if PairLess(m[0], n[0]) then true
    else if PairLess(n[0], m[0]) then false
    else MapLess(m[1..], n[1..])
  }

  predicate Equal(a: Value, b: Value)
    decreases Nodes(a), 1
  {
    TypeRank(a) == TypeRank(b) &&
    match a
    case Null => true
    case Int(i) => i == b.i
    case UInt(u) => u == b.u
    case Real(d) => DoubleEqual(d, b.d)
    case Bool(x) => x == b.b
    case Str(s) => |s| == |b.s| && MemCmp(s, b.s, |s|) == 0
    case _ => |a.entries| == |b.entries| && MapEqual(a.entries, b.entries)
  }

  predicate KeyEqual(a: Key, b: Key) {
    match (a, b)
    case (Index(i), Index(j)) => i == j
    case (Name(s), Name(t)) => |s| == |t| && MemCmp(s, t, |s|) == 0
    case _ => false
  }

  /** std::equal over the pairs. */
  predicate MapEqual(m: seq<Pair>, n: seq<Pair>)
    requires |m| == |n|
    decreases MapNodes(m), 0
  {
    m == [] || (KeyEqual(m[0].key, n[0].key) && Equal(m[0].value, n[0].value) && MapEqual(m[1..], n[1..]))
  }

  /** No NaN anywhere, and no map of 2^31 entries or more. */
  predicate Comparable(v: Value)
    decreases Nodes(v), 1
  {
    match v
    case Real(d) => !d.NaN?
    case Arr(m) => |m| <= MAX_INT && ComparableMap(m)
    case Obj(m) => |m| <= MAX_INT && ComparableMap(m)
    case _ => true
  }

  predicate ComparableMap(m: seq<Pair>)
    decreases MapNodes(m), 0
  {
    m == [] || (Comparable(m[0].value) && ComparableMap(m[1..]))
  }

  lemma {:induction false} MemCmpZero(a: string, b: string)
    requires |a| == |b|
    ensures MemCmp(a, b, |a|) == 0 <==> a == b
  {
    if a != [] {
      MemCmpZero(a[1..], b[1..]);
      assert a == [a[0]] + a[1..] && b == [b[0]] + b[1..];
    }
  }

  /** operator== decides equality of contents. */
  lemma {:induction false} EqualIsEquality(a: Value, b: Value)
    requires Comparable(a) && Comparable(b)
    ensures Equal(a, b) <==> a == b
    decreases Nodes(a), 1
  {
    if a.Str? && b.Str? && |a.s| == |b.s| {
      MemCmpZero(a.s, b.s);
    } else if (a.Arr? && b.Arr?) || (a.Obj? && b.Obj?) {
      if |a.entries| == |b.entries| {
        MapEqualIsEquality(a.entries, b.entries);
      }
    }
  }

  lemma {:induction false} MapEqualIsEquality(m: seq<Pair>, n: seq<Pair>)
    requires ComparableMap(m) && ComparableMap(n) && |m| == |n|
    ensures MapEqual(m, n) <==> m == n
    decreases MapNodes(m), 0
  {
    if m != [] {
      EqualIsEquality(m[0].value, n[0].value);
      if m[0].key.Name? && n[0].key.Name? && |m[0].key.s| == |n[0].key.s| {
        MemCmpZero(m[0].key.s, n[0].key.s);
      }
      MapEqualIsEquality(m[1..], n[1..]);
      assert m == [m[0]] + m[1..] && n == [n[0]] + n[1..];
    }
  }

  /** Exactly one of a < b, b < a and a == b holds. */
  lemma {:induction false} LessTrichotomy(a: Value, b: Value)
    requires Comparable(a) && Comparable(b)
    ensures a == b <==> !Less(a, b) && !Less(b, a)
    ensures !(Less(a, b) && Less(b, a))
    decreases Nodes(a) + Nodes(b), 1
  {
    if TypeRank(a) == TypeRank(b) {
      match a
      case Str(s) => BytesTrichotomy(s, b.s);
      case Arr(m) => SizeThenMapTrichotomy(m, b.entries);
      case Obj(m) => SizeThenMapTrichotomy(m, b.entries);
      case _ =>
    }
  }

  lemma {:induction false} SizeThenMapTrichotomy(m: seq<Pair>, n: seq<Pair>)
    requires ComparableMap(m) && ComparableMap(n) && |m| <= MAX_INT && |n| <= MAX_INT
    ensures m == n <==> !SizeThenMapLess(m, n) && !SizeThenMapLess(n, m)
    ensures !(SizeThenMapLess(m, n) && SizeThenMapLess(n, m))
    decreases MapNodes(m) + MapNodes(n), 1
  {
    ToIntExact(|m| - |n|);
    ToIntExact(|n| - |m|);
    if |m| == |n| {
      MapLessTrichotomy(m, n);
    }
  }

  lemma {:induction false} PairTrichotomy(p: Pair, q: Pair)
    requires Comparable(p.value) && Comparable(q.value)
    ensures p == q <==> !PairLess(p, q) && !PairLess(q, p)
    ensures !(PairLess(p, q) && PairLess(q, p))
    decreases Nodes(p.value) + Nodes(q.value), 2
  {
    KeyTrichotomy(p.key, q.key);
    LessTrichotomy(p.value, q.value);
  }

  lemma {:induction false} MapLessTrichotomy(m: seq<Pair>, n: seq<Pair>)
    requires ComparableMap(m) && ComparableMap(n)
    ensures m == n <==> !MapLess(m, n) && !MapLess(n, m)
    ensures !(MapLess(m, n) && MapLess(n, m))
    decreases MapNodes(m) + MapNodes(n), 0
  {
    if m != [] && n != [] {
      PairTrichotomy(m[0], n[0]);
      MapLessTrichotomy(m[1..], n[1..]);
      assert m == [m[0]] + m[1..] && n == [n[0]] + n[1..];
    }
  }

  lemma {:induction false} LessTransitive(a: Value, b: Value, c: Value)
    requires Comparable(a) && Comparable(b) && Comparable(c)
    requires Less(a, b) && Less(b, c)
    ensures Less(a, c)
    decreases Nodes(a) + Nodes(b) + Nodes(c), 1
  {
    if TypeRank(a) == TypeRank(b) == TypeRank(c) {
      match a
      case Str(s) => BytesTransitive(s, b.s, c.s);
      case Arr(m) => SizeThenMapTransitive(m, b.entries, c.entries);
      case Obj(m) => SizeThenMapTransitive(m, b.entries, c.entries);
      case _ =>
    }
  }

  lemma {:induction false} SizeThenMapTransitive(m: seq<Pair>, n: seq<Pair>, o: seq<Pair>)
    requires ComparableMap(m) && ComparableMap(n) && ComparableMap(o)
    requires |m| <= MAX_INT && |n| <= MAX_INT && |o| <= MAX_INT
    requires SizeThenMapLess(m, n) && SizeThenMapLess(n, o)
    ensures SizeThenMapLess(m, o)
    decreases MapNodes(m) + MapNodes(n) + MapNodes(o), 1
  {
    ToIntExact(|m| - |n|);
    ToIntExact(|n| - |o|);
    ToIntExact(|m| - |o|);
    if |m| == |n| == |o| {
      MapLessTransitive(m, n, o);
    }
  }

  lemma {:induction false} PairTransitive(p: Pair, q: Pair, r: Pair)
    requires Comparable(p.value) && Comparable(q.value) && Comparable(r.value)
    requires PairLess(p, q) && PairLess(q, r)
    ensures PairLess(p, r)
    decreases Nodes(p.value) + Nodes(q.value) + Nodes(r.value), 2
  {
    KeyTrichotomy(p.key, q.key);
    KeyTrichotomy(q.key, r.key);
    KeyTrichotomy(p.key, r.key);
    if KeyLess(p.key, q.key) && KeyLess(q.key, r.key) {
      KeyTransitive(p.key, q.key, r.key);
    } else if p.key == q.key == r.key {
      LessTransitive(p.value, q.value, r.value);
    }
  }

  lemma {:induction false} MapLessTransitive(m: seq<Pair>, n: seq<Pair>, o: seq<Pair>)
    requires ComparableMap(m) && ComparableMap(n) && ComparableMap(o)
    requires MapLess(m, n) && MapLess(n, o)
    ensures MapLess(m, o)
    decreases MapNodes(m) + MapNodes(n) + MapNodes(o), 0
  {
    if m != [] {
      PairTrichotomy(m[0], n[0]);
      PairTrichotomy(n[0], o[0]);
      PairTrichotomy(m[0], o[0]);
      if PairLess(m[0], n[0]) && PairLess(n[0], o[0]) {
        PairTransitive(m[0], n[0], o[0]);
      } else if m[0] == n[0] == o[0] {
        MapLessTransitive(m[1..], n[1..], o[1..]);
      }
    }
  }

  predicate NaNFree(v: Value)
    decreases Nodes(v), 1
  {
    if v.Real? then !v.d.NaN? else (v.Arr? || v.Obj?) ==> NaNFreeMap(v.entries)
  }

  predicate NaNFreeMap(m: seq<Pair>)
    decreases MapNodes(m), 0
  {
    m == [] || (NaNFree(m[0].value) && NaNFreeMap(m[1..]))
  }

  /** operator== equates a value with itself if and only if there is no NaN in it, at whatever depth. */
  lemma {:induction false} EqualSelf(v: Value)
    ensures Equal(v, v) <==> NaNFree(v)
    decreases Nodes(v), 1
  {
    if v.Str? {
      MemCmpZero(v.s, v.s);
    } else if v.Arr? || v.Obj? {
      MapEqualSelf(v.entries);
    }
  }

  lemma {:induction false} MapEqualSelf(m: seq<Pair>)
    ensures MapEqual(m, m) <==> NaNFreeMap(m)
    decreases MapNodes(m), 0
  {
    if m != [] {
      if m[0].key.Name? {
        MemCmpZero(m[0].key.s, m[0].key.s);
      }
      EqualSelf(m[0].value);
      MapEqualSelf(m[1..]);
    }
  }

  // ---- Which way the order goes ----

  /** Byte strings as in a dictionary: at the first byte where they differ, or a proper prefix before the
      longer string. */
  ghost predicate StringBelow(s: string, t: string) {
    s < t || exists k :: StringBelowAt(s, t, k)
  }

  predicate StringBelowAt(s: string, t: string, k: int) {
    0 <= k < |s| && k < |t| && s[..k] == t[..k] && s[k] < t[k]
  }

  ghost predicate KeyBelow(a: Key, b: Key) {
    || (a.Index? && b.Index? && a.i < b.i)
    || (a.Index? && b.Name?)
    || (a.Name? && b.Name? && StringBelow(a.s, b.s))
  }

  /** Null, int, uint, real, string, bool, array, object: the types as the source declares them. */
  predicate EarlierType(a: Value, b: Value) {
    || (a.Null? && !b.Null?)
    || (a.Int? && !b.Null? && !b.Int?)
    || (a.UInt? && (b.Real? || b.Str? || b.Bool? || b.Arr? || b.Obj?))
    || (a.Real? && (b.Str? || b.Bool? || b.Arr? || b.Obj?))
    || (a.Str? && (b.Bool? || b.Arr? || b.Obj?))
    || (a.Bool? && (b.Arr? || b.Obj?))
    || (a.Arr? && b.Obj?)
  }

  /** The numbers in order, between the infinities. */
  predicate DoubleBelow(a: Double, b: Double) {
    || (a == NegInfinity && b != NegInfinity && b != NaN)
    || (a.Finite? && b.Finite? && a.x < b.x)
    || (a.Finite? && b == PosInfinity)
  }

  /** By type; then by number, false before true, strings as in a dictionary; of two arrays or objects the
      one with fewer entries, or the one that is below where they first differ. */
  ghost predicate Below(a: Value, b: Value)
    decreases a
  {
    || EarlierType(a, b)
    || (a.Int? && b.Int? && a.i < b.i)
    || (a.UInt? && b.UInt? && a.u < b.u)
    || (a.Real? && b.Real? && DoubleBelow(a.d, b.d))
    || (a.Str? && b.Str? && StringBelow(a.s, b.s))
    || (a == Bool(false) && b == Bool(true))
    || (((a.Arr? && b.Arr?) || (a.Obj? && b.Obj?))
        && (|a.entries| < |b.entries|
            || (|a.entries| == |b.entries| && MapBelow(a.entries, b.entries))))
  }

  ghost predicate MapBelow(m: seq<Pair>, n: seq<Pair>)
    decreases m, 1
  {
    exists k :: BelowAt(m, n, k)
  }

  /** The maps agree before k, and at k the first is below: by its key, or by its value under one key. */
  ghost predicate BelowAt(m: seq<Pair>, n: seq<Pair>, k: int)
    decreases m, 0
  {
    0 <= k < |m| && k < |n| && m[..k] == n[..k] && PairBelow(m[k], n[k])
  }

  ghost predicate PairBelow(p: Pair, q: Pair)
    decreases p
  {
    KeyBelow(p.key, q.key) || (p.key == q.key && Below(p.value, q.value))
  }

  /** Sequences with one head agree up to where their tails do. */
  lemma SameHead<T>(m: seq<T>, n: seq<T>, k: nat)
    requires m != [] && n != [] && m[0] == n[0] && k < |m| && k < |n|
    ensures m[1..][..k] == n[1..][..k] <==> m[..k + 1] == n[..k + 1]
  {
    assert m[..k + 1] == [m[0]] + m[1..][..k] && n[..k + 1] == [n[0]] + n[1..][..k];
    assert m[1..][..k] == m[..k + 1][1..] && n[1..][..k] == n[..k + 1][1..];
  }

  lemma OtherHead<T>(m: seq<T>, n: seq<T>, k: nat)
    requires 0 < k <= |m| && k <= |n| && m[0] != n[0]
    ensures m[..k] != n[..k]
  {
    assert m[..k][0] != n[..k][0];
  }

  lemma {:induction false} BytesExact(s: string, t: string)
    ensures BytesLess(s, t) <==> StringBelow(s, t)
    decreases |s|
  {
    if s != [] && t != [] && s[0] == t[0] {
      hide StringBelow;
      BytesExact(s[1..], t[1..]);
      StringTail(s, t);
    } else if s != [] && t != [] {
      StringHead(s, t);
    }
  }

  lemma StringTail(s: string, t: string)
    requires s != [] && t != [] && s[0] == t[0]
    ensures StringBelow(s, t) <==> StringBelow(s[1..], t[1..])
  {
    assert s < t <==> s[1..] < t[1..] by {
      assert s == [s[0]] + s[1..] && t == [t[0]] + t[1..];
    }
    hide StringBelowAt;
    if k :| StringBelowAt(s, t, k) {
      StringShift(s, t, k);
    }
    if k :| StringBelowAt(s[1..], t[1..], k) {
      StringShift(s, t, k + 1);
    }
  }

  lemma StringShift(s: string, t: string, k: int)
    requires s != [] && t != [] && s[0] == t[0]
    ensures StringBelowAt(s, t, k) <==> StringBelowAt(s[1..], t[1..], k - 1)
  {
    if 0 < k < |s| && k < |t| {
      SameHead(s, t, k - 1);
    }
  }

  lemma StringHead(s: string, t: string)
    requires s != [] && t != [] && s[0] != t[0]
    ensures StringBelow(s, t) <==> s[0] < t[0]
  {
    forall k | k > 0 ensures !StringBelowAt(s, t, k) {
      if k < |s| && k < |t| {
        OtherHead(s, t, k);
      }
    }
    assert s[..0] == t[..0];
    assert StringBelowAt(s, t, 0) <==> s[0] < t[0];
  }

  /** The order of keys is that of numbers, and of byte strings. */
  lemma KeyExact(a: Key, b: Key)
    ensures KeyLess(a, b) <==> KeyBelow(a, b)
  {
    if a.Name? && b.Name? {
      BytesExact(a.s, b.s);
    }
  }

  /** operator< points from the smaller to the greater. */
  lemma {:induction false} LessExact(a: Value, b: Value)
    requires Comparable(a) && Comparable(b)
    ensures Less(a, b) <==> Below(a, b)
    decreases Nodes(a) + Nodes(b), 1
  {
    hide SizeThenMapLess;
    hide MapBelow;
    hide BytesLess;
    hide StringBelow;
    if a.Str? && b.Str? {
      BytesExact(a.s, b.s);
    } else if (a.Arr? && b.Arr?) || (a.Obj? && b.Obj?) {
      SizeThenMapExact(a.entries, b.entries);
    }
  }

  lemma {:induction false} SizeThenMapExact(m: seq<Pair>, n: seq<Pair>)
    requires ComparableMap(m) && ComparableMap(n) && |m| <= MAX_INT && |n| <= MAX_INT
    ensures SizeThenMapLess(m, n) <==> |m| < |n| || (|m| == |n| && MapBelow(m, n))
    decreases MapNodes(m) + MapNodes(n), 1
  {
    hide MapBelow;
    ToIntExact(|m| - |n|);
    if |m| == |n| {
      MapLessExact(m, n);
    }
  }

  lemma {:induction false} MapLessExact(m: seq<Pair>, n: seq<Pair>)
    requires ComparableMap(m) && ComparableMap(n) && |m| == |n|
    ensures MapLess(m, n) <==> MapBelow(m, n)
    decreases MapNodes(m) + MapNodes(n), 0
  {
    if m != [] {
      var p, q := m[0], n[0];
      KeyExact(p.key, q.key);
      KeyTrichotomy(p.key, q.key);
      LessExact(p.value, q.value);
      PairTrichotomy(p, q);
      MapLessExact(m[1..], n[1..]);
      if p == q {
        BelowTail(m, n);
      } else {
        BelowHead(m, n);
      }
    }
  }

  /** Maps that start alike differ behind their first entry. */
  lemma BelowTail(m: seq<Pair>, n: seq<Pair>)
    requires m != [] && n != [] && m[0] == n[0] && !PairBelow(m[0], n[0])
    ensures MapBelow(m, n) <==> MapBelow(m[1..], n[1..])
  {
    hide BelowAt;
    if k :| BelowAt(m, n, k) {
      BelowShift(m, n, k);
    }
    if k :| BelowAt(m[1..], n[1..], k) {
      BelowShift(m, n, k + 1);
    }
  }

  lemma BelowShift(m: seq<Pair>, n: seq<Pair>, k: int)
    requires m != [] && n != [] && m[0] == n[0] && !PairBelow(m[0], n[0])
    ensures BelowAt(m, n, k) <==> BelowAt(m[1..], n[1..], k - 1)
  {
    hide PairBelow;
    if 0 < k < |m| && k < |n| {
      SameHead(m, n, k - 1);
    }
  }

  lemma BelowHead(m: seq<Pair>, n: seq<Pair>)
    requires m != [] && n != [] && m[0] != n[0]
    ensures MapBelow(m, n) <==> PairBelow(m[0], n[0])
  {
    hide Below;
    hide KeyBelow;
    assert m[..0] == n[..0];
    assert BelowAt(m, n, 0) <==> PairBelow(m[0], n[0]);
    forall k | k > 0 ensures !BelowAt(m, n, k) {
      if k < |m| && k < |n| {
        OtherHead(m, n, k);
      }
    }
  }

  /** operator< is a strict total order whose incomparable values are the ones operator== equates, and points
      from the smaller to the greater. */
  lemma TotalOrder(a: Value, b: Value, c: Value)
    requires Comparable(a) && Comparable(b) && Comparable(c)
    ensures Less(a, b) <==> Below(a, b)
    ensures !Less(a, a)
    ensures Less(a, b) ==> !Less(b, a)
    ensures Less(a, b) && Less(b, c) ==> Less(a, c)
    ensures Equal(a, b) <==> !Less(a, b) && !Less(b, a)
    ensures Equal(a, b) <==> a == b
  {
    LessExact(a, b);
    LessTrichotomy(a, a);
    LessTrichotomy(a, b);
    EqualIsEquality(a, b);
    if Less(a, b) && Less(b, c) {
      LessTransitive(a, b, c);
    }
  }

  /** The bounds in Comparable are needed: a NaN is neither below, above nor equal to itself, and an
      array of 2^31 entries and an empty one are each below the other, as the size difference wraps. */
  lemma OrderBreaks()
    ensures var nan := Real(NaN); !Less(nan, nan) && !Equal(nan, nan)
    ensures exists big: Value, none: Value ::
              Valid(big) && Valid(none) && none == Arr([]) && big.Arr? && |big.entries| == MAX_INT + 1
              && Less(big, none) && Less(none, big)
  {
    var none := Arr([]);
    var big := Arr(seq(MAX_INT + 1, i requires 0 <= i <= MAX_INT => Pair(Index(i), Null)));
    ValidMapAll(big.entries);
    assert Less(big, none) && Less(none, big);
  }

  // ---- How far the order goes ----

  /** No map holds 2^32 entries or more, so that its size difference to any other fits in 32 bits. */
  predicate SmallMaps(v: Value)
    decreases Nodes(v), 1
  {
    (v.Arr? || v.Obj?) ==> |v.entries| < UINT_RANGE && AllSmall(v.entries)
  }

  predicate AllSmall(m: seq<Pair>)
    decreases MapNodes(m), 0
  {
    m == [] || (SmallMaps(m[0].value) && AllSmall(m[1..]))
  }

  /** What a strict order with operator== says about two values. */
  predicate Orderly(a: Value, b: Value) {
    !(Less(a, b) && Less(b, a)) && (Equal(a, b) <==> !Less(a, b) && !Less(b, a))
  }

  /** As many keys of a map, with null values. */
  function Nulls(m: seq<Pair>, k: nat): (n: seq<Pair>)
    requires k <= |m|
    ensures |n| == k && forall i :: 0 <= i < k ==> n[i] == Pair(m[i].key, Null)
  {
    seq(k, i requires 0 <= i < k => Pair(m[i].key, Null))
  }

  lemma {:induction false} NullsComparable(m: seq<Pair>, k: nat)
    requires k <= |m|
    ensures ComparableMap(Nulls(m, k)) && ValidMap(Nulls(m, k))
    decreases k
  {
    if k > 0 {
      NullsComparable(m[1..], k - 1);
      assert Nulls(m, k)[1..] == Nulls(m[1..], k - 1);
    }
  }

  ghost predicate SameKeys(m: seq<Pair>, n: seq<Pair>) {
    |n| <= |m| && forall i :: 0 <= i < |n| ==> n[i].key == m[i].key
  }

  /** A value with a map that is too large, and a comparable one, each below the other. */
  lemma {:induction false} BigWitness(v: Value) returns (w: Value)
    requires SmallMaps(v) && NaNFree(v) && !Comparable(v)
    ensures Comparable(w) && Less(v, w) && Less(w, v) && (Valid(v) ==> Valid(w))
    decreases Nodes(v), 1
  {
    var m := v.entries;
    var n;
    if |m| > MAX_INT {
      n := Nulls(m, |m| - MAX_INT - 1);
      NullsComparable(m, |m| - MAX_INT - 1);
    } else {
      n := BigMapWitness(m);
    }
    w := if v.Arr? then Arr(n) else Obj(n);
    assert SameKeys(m, n);
  }

  lemma {:induction false} BigMapWitness(m: seq<Pair>) returns (n: seq<Pair>)
    requires AllSmall(m) && NaNFreeMap(m) && !ComparableMap(m)
    ensures SameKeys(m, n) && |n| == |m| && ComparableMap(n) && (ValidMap(m) ==> ValidMap(n))
    ensures MapLess(m, n) && MapLess(n, m)
    decreases MapNodes(m), 0
  {
    var p := m[0];
    KeyTrichotomy(p.key, p.key);
    if Comparable(p.value) {
      var rest := BigMapWitness(m[1..]);
      LessTrichotomy(p.value, p.value);
      n := [p] + rest;
      assert n[1..] == rest;
    } else {
      var w := BigWitness(p.value);
      var rest := Nulls(m[1..], |m| - 1);
      NullsComparable(m[1..], |m| - 1);
      n := [Pair(p.key, w)] + rest;
      assert n[1..] == rest;
    }
  }

  /** The bounds in Comparable are exact: a value is comparable if and only if it is in order with itself
      and with every comparable value. */
  lemma ComparableExact(v: Value)
    requires Valid(v) && SmallMaps(v)
    ensures Comparable(v) <==> forall w :: (Valid(w) && Comparable(w)) || w == v ==> Orderly(v, w)
  {
    if Comparable(v) {
      forall w | Comparable(w) ensures Orderly(v, w) {
        LessTrichotomy(v, w);
        EqualIsEquality(v, w);
      }
    } else if NaNFree(v) {
      var w := BigWitness(v);
      assert !Orderly(v, w);
    } else {
      EqualSelf(v);
      assert !Orderly(v, v);
    }
  }
}
