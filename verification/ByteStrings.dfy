/**
 Byte strings as RocksDB orders them: unsigned bytes, compared lexicographically,
 together with the fixed-width big-endian integers whose byte order is numeric order,
 and the enumeration of a key set in ascending byte order (what an iterator yields).
 */
module ByteStrings {

  const TWO64: int := 0x1_0000_0000_0000_0000
  const TWO63: int := 0x8000_0000_0000_0000

  type Byte = b: int | 0 <= b < 256
  type Bytes = seq<Byte>
  type U64 = n: int | 0 <= n < TWO64
  type I64 = n: int | -TWO63 <= n < TWO63

  function Min(a: int, b: int): int { if b < a then b else a }

  function Max(a: int, b: int): int { if a < b then b else a }

  // ---------------------------------------------------------------- order

  /** The bytewise comparator: the first differing byte decides, and a proper prefix comes first. */
  predicate Less(a: Bytes, b: Bytes) {
    b != [] && (a == [] || a[0] < b[0] || (a[0] == b[0] && Less(a[1..], b[1..])))
  }

  lemma {:induction false} LessIrreflexive(a: Bytes)
    ensures !Less(a, a)
  {
    if a != [] {
      LessIrreflexive(a[1..]);
    }
  }

  lemma {:induction false} LessTransitive(a: Bytes, b: Bytes, c: Bytes)
    requires Less(a, b) && Less(b, c)
    ensures Less(a, c)
  {
    if a != [] && a[0] == b[0] && b[0] == c[0] {
      LessTransitive(a[1..], b[1..], c[1..]);
    }
  }

  lemma {:induction false} LessTotal(a: Bytes, b: Bytes)
    ensures a == b || Less(a, b) || Less(b, a)
  {
    if a != [] && b != [] && a[0] == b[0] {
      LessTotal(a[1..], b[1..]);
      assert a == [a[0]] + a[1..] && b == [b[0]] + b[1..];
    }
  }

  lemma LessAsymmetric(a: Bytes, b: Bytes)
    requires Less(a, b)
    ensures a != b && !Less(b, a)
  {
    LessIrreflexive(a);
    if Less(b, a) {
      LessTransitive(a, b, a);
    }
  }

  /** Keys built from slots of equal width compare slot by slot. */
  lemma {:induction false} LessFixedWidth(p: Bytes, q: Bytes, a: Bytes, b: Bytes)
    requires |p| == |q|
    ensures Less(p + a, q + b) <==> Less(p, q) || (p == q && Less(a, b))
  {
    if p == [] {
      assert p + a == a && q + b == b;
    } else {
      assert (p + a)[0] == p[0] && (q + b)[0] == q[0];
      assert (p + a)[1..] == p[1..] + a && (q + b)[1..] == q[1..] + b;
      LessFixedWidth(p[1..], q[1..], a, b);
      assert p == [p[0]] + p[1..] && q == [q[0]] + q[1..];
    }
  }

  // ---------------------------------------------------------- big-endian

  function Pow256(w: nat): (p: int)
    ensures p >= 1
  {
    if w == 0 then 1 else 256 * Pow256(w - 1)
  }

  /** The w low-order bytes of n, most significant first. */
  function BigEndian(n: nat, w: nat): (s: Bytes)
    ensures |s| == w
    decreases w, n
  {
    if w == 0 then [] else BigEndian(n / 256, w - 1) + [n % 256]
  }

  function FromBigEndian(s: Bytes): (n: nat) {
    if s == [] then 0 else FromBigEndian(s[..|s| - 1]) * 256 + s[|s| - 1]
  }

  lemma {:induction false} FromBigEndianBound(s: Bytes)
    ensures FromBigEndian(s) < Pow256(|s|)
  {
    if s != [] {
      FromBigEndianBound(s[..|s| - 1]);
    }
  }

  lemma {:induction false} BigEndianRoundTrip(n: nat, w: nat)
    requires n < Pow256(w)
    ensures FromBigEndian(BigEndian(n, w)) == n
    decreases w
  {
    if w != 0 {
      var s := BigEndian(n, w);
      assert s[..w - 1] == BigEndian(n / 256, w - 1);
      BigEndianRoundTrip(n / 256, w - 1);
    }
  }

  lemma {:induction false} FromBigEndianRoundTrip(s: Bytes)
    ensures BigEndian(FromBigEndian(s), |s|) == s
  {
    if s != [] {
      FromBigEndianRoundTrip(s[..|s| - 1]);
      assert s == s[..|s| - 1] + [s[|s| - 1]];
    }
  }

  /** Byte order on equal-width big-endian integers is numeric order. */
  lemma {:induction false} BigEndianOrder(a: Bytes, b: Bytes)
    requires |a| == |b|
    ensures Less(a, b) <==> FromBigEndian(a) < FromBigEndian(b)
    ensures a == b <==> FromBigEndian(a) == FromBigEndian(b)
  {
    if a != [] {
      var w := |a| - 1;
      assert a == a[..w] + [a[w]] && b == b[..w] + [b[w]];
      BigEndianOrder(a[..w], b[..w]);
      LessFixedWidth(a[..w], b[..w], [a[w]], [b[w]]);
      assert Less([a[w]], [b[w]]) <==> a[w] < b[w];
    }
  }

  lemma Pow256Eight()
    ensures Pow256(8) == TWO64
  {
    assert Pow256(2) == 0x1_0000;
    assert Pow256(4) == 0x1_0000_0000;
    assert Pow256(6) == 0x1_0000_0000_0000;
  }

  /** The eight-byte form both column families use for sequence numbers and times. */
  function Encode64(n: U64): (s: Bytes)
    ensures |s| == 8
  {
    BigEndian(n, 8)
  }

  function Decode64(s: Bytes): (n: U64)
    requires |s| == 8
  {
    FromBigEndianBound(s);
    Pow256Eight();
    FromBigEndian(s)
  }

  lemma Encode64RoundTrip(n: U64)
    ensures Decode64(Encode64(n)) == n
  {
    Pow256Eight();
    BigEndianRoundTrip(n, 8);
  }

  lemma Decode64RoundTrip(s: Bytes)
    requires |s| == 8
    ensures Encode64(Decode64(s)) == s
  {
    FromBigEndianRoundTrip(s);
  }

  lemma Encode64Order(m: U64, n: U64)
    ensures Less(Encode64(m), Encode64(n)) <==> m < n
    ensures Encode64(m) == Encode64(n) <==> m == n
  {
    Encode64RoundTrip(m);
    Encode64RoundTrip(n);
    BigEndianOrder(Encode64(m), Encode64(n));
  }

  /** static_cast between int64_t and uint64_t. */
  function ToUnsigned(x: I64): U64 { if x < 0 then x + TWO64 else x }

  function ToSigned(x: U64): I64 { if x >= TWO63 then x - TWO64 else x }

  /** The casts between signed and unsigned 64-bit integers keep the value modulo 2^64. */
  lemma CastsKeepBits(x: I64, u: U64)
    ensures ToUnsigned(x) == x % TWO64 && ToSigned(ToUnsigned(x)) == x
    ensures ToSigned(u) % TWO64 == u && ToUnsigned(ToSigned(u)) == u
  {
  }

  lemma MulGap(d: int, x: int)
    requires d > 0
    ensures x >= 1 ==> d * x >= d
    ensures x <= -1 ==> d * x <= -d
  {
  }

  lemma DivUnique(v: int, d: int, q: int, r: int)
    requires d > 0 && 0 <= r < d && v == d * q + r
    ensures v / d == q
  {
    var x := v / d - q;
    assert d * x == r - v % d by {
      assert d * x == d * (v / d) - d * q;
    }
    MulGap(d, x);
  }

  /** Dividing by p and then by c is dividing by c * p. */
  lemma DivDiv(v: nat, p: int, c: int)
    requires p >= 1 && c >= 1
    ensures v / p / c == v / (c * p)
  {
    var a, b := v / p, v % p;
    var q, r := a / c, a % c;
    assert v == p * a + b;
    Recombine(a, b, q, r, p, c);
    DivUnique(v, c * p, q, r * p + b);
  }

  lemma Recombine(a: int, b: int, q: int, r: int, p: int, c: int)
    requires a == c * q + r && 0 <= r < c && 0 <= b < p
    ensures p * a + b == (c * p) * q + (r * p + b)
    ensures 0 <= r * p + b < c * p
  {
    Regroup(p, c, q);
    assert p * a == p * (c * q) + p * r;
    SplitProduct(c - 1 - r, r, p);
  }

  lemma Regroup(p: int, c: int, q: int)
    ensures p * (c * q) == (c * p) * q
  {
  }

  lemma SplitProduct(x: int, r: int, p: int)
    requires x >= 0 && r >= 0 && p >= 0
    ensures x * p >= 0 && r * p >= 0
    ensures (x + r + 1) * p == x * p + r * p + p
  {
  }

  /** Appends the eight bytes from the most significant down. */
  method PutBigEndian64(out: Bytes, value: U64) returns (r: Bytes)
    ensures r == out + Encode64(value)
  {
    r := out;
    var i := 0;            // the shift is 56 - 8 * i bits
    ghost var written: Bytes := [];
    Pow256Eight();
    while i < 8
      invariant 0 <= i <= 8
      invariant written == BigEndian(value / Pow256(8 - i), i)
      invariant r == out + written
    {
      var digit: Byte := (value / Pow256(7 - i)) % 256;
      DivDiv(value, Pow256(7 - i), 256);
      assert Pow256(8 - i) == 256 * Pow256(7 - i);
      written := written + [digit];
      r := r + [digit];
      i := i + 1;
    }
    assert value / Pow256(0) == value;
  }

  /** Shifts each byte into a 64-bit accumulator. */
  method GetBigEndian64(data: Bytes, offset: nat) returns (value: U64)
    requires offset + 8 <= |data|
    ensures value == Decode64(data[offset..offset + 8])
  {
    value := 0;
    var i := 0;
    ghost var s := data[offset..offset + 8];
    Pow256Eight();
    while i < 8
      invariant 0 <= i <= 8
      invariant value == FromBigEndian(s[..i])
    {
      FromBigEndianBound(s[..i]);
      Pow256Monotone(i, 7);
      assert s[..i + 1][..i] == s[..i] && s[i] == data[offset + i];
      assert Pow256(8) == 256 * Pow256(7);
      value := (value * 256) % TWO64 + data[offset + i];
      i := i + 1;
    }
    assert s[..8] == s;
  }

  lemma {:induction false} Pow256Monotone(i: nat, j: nat)
    requires i <= j
    ensures Pow256(i) <= Pow256(j)
    decreases j
  {
    if i < j {
      Pow256Monotone(i, j - 1);
    }
  }

  // ------------------------------------------------------------- iteration

  predicate IsGreatest(m: Bytes, keys: set<Bytes>) {
    m in keys && forall k | k in keys :: k == m || Less(k, m)
  }

  lemma {:induction false} GreatestExists(keys: set<Bytes>)
    requires keys != {}
    ensures exists m :: IsGreatest(m, keys)
    decreases |keys|
  {
    var k :| k in keys;
    var rest := keys - {k};
    if rest == {} {
      assert keys == {k};
      assert IsGreatest(k, keys);
    } else {
      GreatestExists(rest);
      var m :| IsGreatest(m, rest);
      LessTotal(k, m);
      if Less(m, k) {
        forall j | j in keys ensures j == k || Less(j, k) {
          if j != k && j != m {
            LessTransitive(j, m, k);
          }
        }
        assert IsGreatest(k, keys);
      } else {
        assert IsGreatest(m, keys);
      }
    }
  }

  lemma GreatestUnique(m: Bytes, n: Bytes, keys: set<Bytes>)
    requires IsGreatest(m, keys) && IsGreatest(n, keys)
    ensures m == n
  {
    if m != n {
      LessAsymmetric(m, n);
    }
  }

  /** The keys in the order an iterator visits them. */
  function SortedKeys(keys: set<Bytes>): (order: seq<Bytes>)
    decreases |keys|
  {
    if keys == {} then []
    else
      GreatestExists(keys);
      assert forall m, n | IsGreatest(m, keys) && IsGreatest(n, keys) :: m == n by {
        forall m, n | IsGreatest(m, keys) && IsGreatest(n, keys) ensures m == n {
          GreatestUnique(m, n, keys);
        }
      }
      var m :| IsGreatest(m, keys);
      SortedKeys(keys - {m}) + [m]
  }

  predicate Ascending(order: seq<Bytes>) {
    forall i, j :: 0 <= i < j < |order| ==> Less(order[i], order[j])
  }

  /** An iterator visits every key exactly once, in ascending byte order. */
  lemma {:induction false} SortedKeysMeaning(keys: set<Bytes>)
    ensures Ascending(SortedKeys(keys))
    ensures forall k :: k in SortedKeys(keys) <==> k in keys
    ensures |SortedKeys(keys)| == |keys|
    decreases |keys|
  {
    if keys != {} {
      GreatestExists(keys);
      var order := SortedKeys(keys);
      var m := order[|order| - 1];
      assert IsGreatest(m, keys) && order == SortedKeys(keys - {m}) + [m];
      SortedKeysMeaning(keys - {m});
      forall i, j | 0 <= i < j < |order| ensures Less(order[i], order[j]) {
        assert order[i] in SortedKeys(keys - {m});
      }
    }
  }

  lemma {:induction false} AscendingDistinct(order: seq<Bytes>, i: nat, j: nat)
    requires Ascending(order) && i < |order| && j < |order| && order[i] == order[j]
    ensures i == j
  {
    if i < j {
      LessIrreflexive(order[i]);
    } else if j < i {
      LessIrreflexive(order[j]);
    }
  }

  /** Visiting one more key, above all earlier ones, appends it. */
  lemma SortedKeysSnoc(keys: set<Bytes>, m: Bytes)
    requires forall k | k in keys :: Less(k, m)
    ensures SortedKeys(keys + {m}) == SortedKeys(keys) + [m]
  {
    var all := keys + {m};
    assert IsGreatest(m, all);
    GreatestExists(all);
    var order := SortedKeys(all);
    var n := order[|order| - 1];
    assert IsGreatest(n, all) && order == SortedKeys(all - {n}) + [n];
    GreatestUnique(m, n, all);
    if m in keys {
      LessIrreflexive(m);
    }
    assert all - {m} == keys;
  }
}
