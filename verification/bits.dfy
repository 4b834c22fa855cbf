/** Unsigned-integer helpers shared by the arithmetic and the codec: powers,
    the bitwise AND/OR of naturals, Euclidean division facts, and little-endian
    radix (digit) expansions. Nothing here corresponds to a single source item;
    it gives the shifts, masks and `to_le_bytes`/`from_le_bytes` conversions of
    the Rust code a meaning over unbounded naturals. */
module Bits {

  function Pow(b: nat, e: nat): (r: nat)
    ensures b > 0 ==> r > 0
  {
    if e == 0 then 1 else b * Pow(b, e - 1)
  }

  /** `1 << e` */
  function Pow2(e: nat): nat
  {
    Pow(2, e)
  }

  lemma {:induction false} PowAdd(b: nat, m: nat, n: nat)
    ensures Pow(b, m + n) == Pow(b, m) * Pow(b, n)
    decreases m
  {
    if m > 0 {
      PowAdd(b, m - 1, n);
      var x, y := Pow(b, m - 1), Pow(b, n);
      assert Pow(b, m + n) == b * Pow(b, (m - 1) + n);
      IntMulAssociates(b, x, y);
    }
  }

  lemma {:induction false} PowMul(b: nat, m: nat, n: nat)
    ensures Pow(Pow(b, m), n) == Pow(b, m * n)
    decreases n
  {
    if n > 0 {
      PowMul(b, m, n - 1);
      PowAdd(b, m, m * (n - 1));
      assert m + m * (n - 1) == m * n;
    }
  }

  lemma {:induction false} PowMonotone(b: nat, m: nat, n: nat)
    requires b > 0 && m <= n
    ensures Pow(b, m) <= Pow(b, n)
    decreases n - m
  {
    if m < n {
      PowMonotone(b, m, n - 1);
    }
  }

  /** The powers of two that the fixed-width code relies on. */
  lemma Pow2Values()
    ensures Pow2(0) == 1 && Pow2(1) == 2 && Pow2(2) == 4 && Pow2(3) == 8
    ensures Pow2(4) == 16 && Pow2(5) == 32 && Pow2(6) == 64 && Pow2(7) == 128
    ensures Pow2(8) == 0x100 && Pow2(10) == 0x400 && Pow2(11) == 0x800
    ensures Pow2(12) == 0x1000 && Pow2(16) == 0x1_0000
    ensures Pow2(24) == 0x100_0000 && Pow2(32) == 0x1_0000_0000
  {
    assert Pow(2, 0) == 1;
    assert Pow(2, 1) == 2;
    assert Pow(2, 2) == 4;
    assert Pow(2, 3) == 8;
    assert Pow(2, 4) == 16;
    assert Pow(2, 5) == 32;
    assert Pow(2, 6) == 64;
    assert Pow(2, 7) == 128;
    assert Pow(2, 8) == 256;
    assert Pow(2, 9) == 512;
    assert Pow(2, 10) == 1024;
    assert Pow(2, 11) == 2048;
    assert Pow(2, 12) == 4096;
    assert Pow(2, 13) == 8192;
    assert Pow(2, 14) == 16384;
    assert Pow(2, 15) == 32768;
    assert Pow(2, 16) == 65536;
    assert Pow(2, 17) == 131072;
    assert Pow(2, 18) == 262144;
    assert Pow(2, 19) == 524288;
    assert Pow(2, 20) == 1048576;
    assert Pow(2, 21) == 2097152;
    assert Pow(2, 22) == 4194304;
    assert Pow(2, 23) == 8388608;
    assert Pow(2, 24) == 16777216;
    assert Pow(2, 25) == 33554432;
    assert Pow(2, 26) == 67108864;
    assert Pow(2, 27) == 134217728;
    assert Pow(2, 28) == 268435456;
    assert Pow(2, 29) == 536870912;
    assert Pow(2, 30) == 1073741824;
    assert Pow(2, 31) == 2147483648;
    assert Pow(2, 32) == 4294967296;
  }

  lemma IntMulAssociates(a: int, b: int, c: int)
    ensures a * (b * c) == (a * b) * c
  {
  }

  lemma IntMulDistributes(a: int, b: int, c: int)
    ensures a * (b + c) == a * b + a * c
  {
  }

  lemma MulMono(a: int, b: int, c: int)
    requires a >= 0 && b <= c
    ensures a * b <= a * c
  {
    assert a * c - a * b == a * (c - b);
  }

  /** A quotient below `n`, for a dividend below `n * d`. */
  lemma DivBelow(x: nat, d: nat, n: nat)
    requires d > 0 && x < n * d
    ensures x / d < n
  {
    assert d * (x / d) <= x;
    assert n * d == d * n;
    if x / d >= n {
      MulMono(d, n, x / d);
      assert false;
    }
  }

  /** Quotients and remainders of the two positions `2 * len * b + t` and
      `2 * len * b + t + len` of a butterfly with half-width `len`. */
  lemma PairDivMod(len: nat, b: nat, t: nat)
    requires t < len
    ensures (2 * len * b + t) / (2 * len) == b && (2 * len * b + t) % (2 * len) == t
    ensures (2 * len * b + t + len) / (2 * len) == b
    ensures (2 * len * b + t + len) % (2 * len) == t + len
    ensures (2 * len * b + t) % len == t && (2 * len * b + t + len) % len == t
  {
    var w := 2 * len;
    DivModUnique(w * b + t, w, b, t);
    DivModUnique(w * b + t + len, w, b, t + len);
    assert w * b == len * (2 * b);
    DivModUnique(w * b + t, len, 2 * b, t);
    DivModUnique(w * b + t + len, len, 2 * b + 1, t);
  }

  /** Every index below `n * (2 * len)` is one of the two positions of a
      butterfly `(b, t)` with `b < n` and `t < len`. */
  lemma SplitIndex(i: nat, len: nat, n: nat) returns (b: nat, t: nat)
    requires len > 0 && i < n * (2 * len)
    ensures b < n && t < len
    ensures i == 2 * len * b + t || i == 2 * len * b + t + len
  {
    var w := 2 * len;
    var q: int, j := i / w, i % w;
    assert i == w * q + j;
    if q < 0 {
      MulMono(w, q, -1);
      assert false;
    }
    DivBelow(i, w, n);
    b := q;
    t := if j < len then j else j - len;
  }

  /** A multiple of `m` leaves no remainder. */
  lemma MultipleMod(k: nat, m: nat)
    requires m > 0
    ensures (k * m) % m == 0 && (k * m) / m == k
  {
    DivModUnique(k * m, m, k, 0);
  }

  /** The bits of `y` from `p` on, `m` of them, only depend on `y` modulo
      any multiple of `p * m`. */
  lemma DivModWindow(y: nat, p: nat, m: nat, r: nat)
    requires p > 0 && m > 0 && r > 0
    ensures (y / p) % m == ((y % (p * m * r)) / p) % m
  {
    var w := p * m * r;
    var q, s := y / w, y % w;
    assert y == w * q + s;
    var a, e := s / p, s % p;
    assert s == p * a + e;
    assert y == p * (m * r * q + a) + e by {
      assert w * q == p * (m * r * q);
    }
    DivModUnique(y, p, m * r * q + a, e);
    assert m * r * q + a == m * (r * q) + a;
    DivModUnique(a, m, a / m, a % m);
    DivModUnique(m * (r * q) + a, m, r * q + a / m, a % m);
  }

  /** Reducing modulo `a * b` before reducing modulo `a` changes nothing. */
  lemma ModNarrow(y: nat, a: nat, b: nat)
    requires a > 0 && b > 0
    ensures (y % (a * b)) % a == y % a
  {
    var q, s := y / (a * b), y % (a * b);
    assert y == (a * b) * q + s;
    assert y == a * (b * q) + s;
    DivModUnique(s, a, s / a, s % a);
    DivModUnique(y, a, b * q + s / a, s % a);
  }

  /** A value below the modulus is its own remainder. */
  lemma ModSmall(n: nat, d: nat)
    requires n < d
    ensures n % d == n && n / d == 0
  {
    DivModUnique(n, d, 0, n);
  }

  /** Euclidean division is characterised by its quotient/remainder pair. */
  lemma DivModUnique(n: int, d: int, q: int, r: int)
    requires d > 0 && 0 <= r < d && n == d * q + r
    ensures n / d == q && n % d == r
  {
    var q0, r0 := n / d, n % d;
    assert n == d * q0 + r0;
    assert d * q - d * q0 == r0 - r;
    if q0 < q {
      assert d * (q0 + 1) == d * q0 + d;
      MulMono(d, q0 + 1, q);
    } else if q < q0 {
      assert d * (q + 1) == d * q + d;
      MulMono(d, q + 1, q0);
    }
  }

  /** Dividing in two steps is dividing by the product. */
  lemma DivDiv(x: nat, a: nat, b: nat)
    requires a > 0 && b > 0
    ensures x / a / b == x / (a * b)
  {
    var q := x / a / b;
    var r := (x / a) % b * a + x % a;
    assert x == a * (x / a) + x % a;
    assert x / a == b * q + (x / a) % b;
    assert a * (x / a) == a * (b * q) + a * ((x / a) % b);
    assert a * (b * q) == (a * b) * q;
    assert x == (a * b) * q + r;
    MulMono(a, (x / a) % b, b - 1);
    assert (b - 1) * a == a * b - a;
    DivModUnique(x, a * b, q, r);
  }

  // ---------------------------------------------------------------------
  // Bitwise operations on naturals
  // ---------------------------------------------------------------------

  /** `x >> k`: the value without its `k` low bits. */
  function Shr(x: nat, k: nat): nat
  {
    x / Pow2(k)
  }

  /** Bitwise AND, least significant bit first. */
  function BitAnd(a: nat, b: nat): nat
  {
    if a == 0 || b == 0 then 0
    else 2 * BitAnd(a / 2, b / 2) + (if a % 2 == 1 && b % 2 == 1 then 1 else 0)
  }

  /** Bitwise OR, least significant bit first. */
  function BitOr(a: nat, b: nat): nat
  {
    if a == 0 then b
    else if b == 0 then a
    else 2 * BitOr(a / 2, b / 2) + (if a % 2 == 1 || b % 2 == 1 then 1 else 0)
  }

  lemma HalvePow2(w: nat)
    requires w > 0
    ensures Pow2(w) == 2 * Pow2(w - 1)
    ensures (Pow2(w) - 1) / 2 == Pow2(w - 1) - 1 && (Pow2(w) - 1) % 2 == 1
  {
  }

  /** The low bits of `x` modulo `2p` are its low bit plus twice the low bits of `x / 2`. */
  lemma ModDouble(x: nat, p: nat)
    requires p > 0
    ensures x % (2 * p) == 2 * ((x / 2) % p) + x % 2
  {
    var h := (x / 2) % p;
    var k := (x / 2) / p;
    assert x / 2 == p * k + h;
    assert x == 2 * (p * k) + (2 * h + x % 2);
    assert 2 * (p * k) == (2 * p) * k;
    DivModUnique(x, 2 * p, k, 2 * h + x % 2);
  }

  /** Masking with `(1 << w) - 1` keeps the low `w` bits. */
  lemma {:induction false} BitAndLowMask(x: nat, w: nat)
    ensures BitAnd(x, Pow2(w) - 1) == x % Pow2(w)
    decreases w
  {
    if w == 0 {
    } else if x == 0 {
    } else {
      HalvePow2(w);
      var p := Pow2(w - 1);
      var m := Pow2(w) - 1;
      assert m != 0 && m / 2 == p - 1 && m % 2 == 1;
      BitAndLowMask(x / 2, w - 1);
      assert BitAnd(x, m) == 2 * BitAnd(x / 2, p - 1) + x % 2;
      ModDouble(x, p);
    }
  }

  /** OR of two values with disjoint bit ranges is their sum. */
  lemma {:induction false} BitOrDisjoint(a: nat, b: nat, w: nat)
    requires a < Pow2(w) && b % Pow2(w) == 0
    ensures BitOr(a, b) == a + b
    decreases w
  {
    if a == 0 || b == 0 {
    } else {
      assert w > 0;
      HalvePow2(w);
      var p := Pow2(w - 1);
      var k := b / Pow2(w);
      assert b == (2 * p) * k;
      assert b == 2 * (p * k);
      DivModUnique(b, 2, p * k, 0);
      DivModUnique(b / 2, p, k, 0);
      BitOrDisjoint(a / 2, b / 2, w - 1);
    }
  }

  /** The OR of two values below `2^w` is below `2^w`. */
  lemma {:induction false} BitOrBound(a: nat, b: nat, w: nat)
    requires a < Pow2(w) && b < Pow2(w)
    ensures BitOr(a, b) < Pow2(w)
    decreases w
  {
    if a != 0 && b != 0 {
      assert w > 0;
      HalvePow2(w);
      BitOrBound(a / 2, b / 2, w - 1);
    }
  }

  lemma {:induction false} BitAndBound(a: nat, b: nat)
    ensures BitAnd(a, b) <= b
    decreases a
  {
    if a != 0 && b != 0 {
      BitAndBound(a / 2, b / 2);
    }
  }

  // ---------------------------------------------------------------------
  // Little-endian radix expansions
  // ---------------------------------------------------------------------

  predicate DigitsBelow(ds: seq<nat>, base: nat)
  {
    forall i | 0 <= i < |ds| :: ds[i] < base
  }

  /** The value of the little-endian digit string `ds` in base `base`. */
  function FromDigits(ds: seq<nat>, base: nat): nat
  {
    if ds == [] then 0 else ds[0] + base * FromDigits(ds[1..], base)
  }

  /** The `n` lowest little-endian digits of `x` in base `base`. */
  function ToDigits(x: nat, base: nat, n: nat): (ds: seq<nat>)
    requires base > 1
    ensures |ds| == n && DigitsBelow(ds, base)
  {
    seq(n, k requires 0 <= k < n => (x / Pow(base, k)) % base)
  }

  lemma {:induction false} FromDigitsBound(ds: seq<nat>, base: nat)
    requires base > 0 && DigitsBelow(ds, base)
    ensures FromDigits(ds, base) < Pow(base, |ds|)
    decreases |ds|
  {
    if ds != [] {
      FromDigitsBound(ds[1..], base);
      var rest := FromDigits(ds[1..], base);
      var p := Pow(base, |ds| - 1);
      MulMono(base, rest, p - 1);
      assert base * (p - 1) == base * p - base;
    }
  }

  /** A string of zero digits has value 0. */
  lemma {:induction false} FromDigitsZeros(ds: seq<nat>, base: nat)
    requires forall i | 0 <= i < |ds| :: ds[i] == 0
    ensures FromDigits(ds, base) == 0
    decreases |ds|
  {
    if ds != [] {
      FromDigitsZeros(ds[1..], base);
    }
  }

  /** Peeling digit `k` off the suffix from `k`. */
  lemma FromDigitsSuffix(ds: seq<nat>, base: nat, k: nat)
    requires k < |ds|
    ensures FromDigits(ds[k..], base) == ds[k] + base * FromDigits(ds[k + 1..], base)
  {
    assert ds[k..][1..] == ds[k + 1..];
  }

  lemma {:induction false} FromDigitsAppend(ds: seq<nat>, es: seq<nat>, base: nat)
    ensures FromDigits(ds + es, base) == FromDigits(ds, base) + Pow(base, |ds|) * FromDigits(es, base)
    decreases |ds|
  {
    if ds != [] {
      assert (ds + es)[1..] == ds[1..] + es;
      FromDigitsAppend(ds[1..], es, base);
      var a, b := FromDigits(ds[1..], base), FromDigits(es, base);
      var p := Pow(base, |ds| - 1);
      assert FromDigits(ds + es, base) == ds[0] + base * (a + p * b);
      IntMulDistributes(base, a, p * b);
      IntMulAssociates(base, p, b);
      assert Pow(base, |ds|) == base * p;
    } else {
      assert ds + es == es;
    }
  }

  /** Digit `j` of a digit string is recovered by shifting and masking. */
  lemma {:induction false} DigitAt(ds: seq<nat>, base: nat, j: nat)
    requires base > 0 && DigitsBelow(ds, base) && j < |ds|
    ensures (FromDigits(ds, base) / Pow(base, j)) % base == ds[j]
    decreases j
  {
    var x := FromDigits(ds, base);
    var rest := FromDigits(ds[1..], base);
    DivModUnique(x, base, rest, ds[0]);
    if j > 0 {
      DigitAt(ds[1..], base, j - 1);
      DivDiv(x, base, Pow(base, j - 1));
    }
  }

  lemma DigitsOfValue(ds: seq<nat>, base: nat)
    requires base > 1 && DigitsBelow(ds, base)
    ensures ToDigits(FromDigits(ds, base), base, |ds|) == ds
  {
    forall j | 0 <= j < |ds|
      ensures ToDigits(FromDigits(ds, base), base, |ds|)[j] == ds[j]
    {
      DigitAt(ds, base, j);
    }
  }

  lemma {:induction false} ValueOfDigits(x: nat, base: nat, n: nat)
    requires base > 1 && x < Pow(base, n)
    ensures FromDigits(ToDigits(x, base, n), base) == x
    decreases n
  {
    var ds := ToDigits(x, base, n);
    if n > 0 {
      var y := x / base;
      var p := Pow(base, n - 1);
      assert x == base * y + x % base;
      assert y < p by {
        if y >= p {
          MulMono(base, p, y);
        }
      }
      ValueOfDigits(y, base, n - 1);
      var es := ToDigits(y, base, n - 1);
      forall k | 0 <= k < n - 1
        ensures ds[1..][k] == es[k]
      {
        DivDiv(x, base, Pow(base, k));
      }
      assert ds[1..] == es;
      assert ds[0] == x % base;
    }
  }

  // ---------------------------------------------------------------------
  // Blocks of digits
  // ---------------------------------------------------------------------

  /** Block `c` of `m` elements lies inside an array of `n` such blocks. */
  lemma BlockBounds(n: nat, m: nat, c: nat)
    requires c < n
    ensures c * m + m <= n * m
  {
    MulMono(m, c + 1, n);
    assert m * (c + 1) == c * m + m;
  }

  /** Every index below `n * m` is element `j` of block `c`. */
  lemma SplitBlock(i: nat, m: nat, n: nat) returns (c: nat, j: nat)
    requires m > 0 && i < n * m
    ensures c < n && j < m && i == c * m + j
  {
    var q: int := i / m;
    assert i == m * q + i % m;
    if q < 0 {
      MulMono(m, q, -1);
      assert false;
    }
    DivBelow(i, m, n);
    c, j := q, i % m;
  }

  /** The values of the `n` consecutive blocks of `m` digits of `a`. */
  function BlockValues(a: seq<nat>, m: nat, n: nat, base: nat): (r: seq<nat>)
    requires |a| == n * m
    ensures |r| == n
  {
    seq(n, c requires 0 <= c < n => BlockBounds(n, m, c); FromDigits(a[c * m..c * m + m], base))
  }

  /** A digit string read block by block: the blocks' values are the digits
      of the same number in base `base^m`. */
  lemma {:induction false} FromDigitsBlocks(a: seq<nat>, m: nat, n: nat, base: nat)
    requires |a| == n * m
    ensures FromDigits(a, base) == FromDigits(BlockValues(a, m, n, base), Pow(base, m))
    decreases n
  {
    if n > 0 {
      var rest := a[m..];
      assert |rest| == (n - 1) * m;
      var vs, ws := BlockValues(a, m, n, base), BlockValues(rest, m, n - 1, base);
      forall c | 0 <= c < n - 1
        ensures vs[c + 1] == ws[c]
      {
        BlockBounds(n - 1, m, c);
        assert (c + 1) * m == c * m + m;
        assert rest[c * m..c * m + m] == a[(c + 1) * m..(c + 1) * m + m];
      }
      assert vs[1..] == ws;
      assert a == a[..m] + rest;
      assert a[0 * m..0 * m + m] == a[..m];
      FromDigitsAppend(a[..m], rest, base);
      FromDigitsBlocks(rest, m, n - 1, base);
    } else {
      assert a == [];
    }
  }

  /** Every block value is below `base^m`. */
  lemma BlockValuesBelow(a: seq<nat>, m: nat, n: nat, base: nat)
    requires |a| == n * m && base > 0 && DigitsBelow(a, base)
    ensures DigitsBelow(BlockValues(a, m, n, base), Pow(base, m))
  {
    forall c | 0 <= c < n
      ensures BlockValues(a, m, n, base)[c] < Pow(base, m)
    {
      BlockBounds(n, m, c);
      FromDigitsBound(a[c * m..c * m + m], base);
    }
  }

  /** `a` repeats `s`: element `i` is `s[i % |s|]`. */
  predicate Periodic(a: seq<nat>, s: seq<nat>)
  {
    |s| > 0 && forall i | 0 <= i < |a| :: a[i] == s[i % |s|]
  }

  /** Block `c` of a sequence that repeats `s` is `s`. */
  lemma PeriodicBlock(a: seq<nat>, s: seq<nat>, k: nat, c: nat, base: nat)
    requires Periodic(a, s) && |a| == k * |s| && c < k
    ensures BlockValues(a, |s|, k, base)[c] == FromDigits(s, base)
  {
    var m := |s|;
    MulMono(c, 0, m);
    BlockBounds(k, m, c);
    forall j | 0 <= j < m
      ensures a[c * m + j] == s[j]
    {
      DivModUnique(c * m + j, m, c, j);
    }
    assert a[c * m..c * m + m] == s;
  }

  /** Two sequences of `k` repetitions of patterns with the same value, in
      bases whose powers over a pattern agree, have the same value. */
  lemma PeriodicValue(a: seq<nat>, s: seq<nat>, base: nat, b: seq<nat>, t: seq<nat>, base2: nat, k: nat)
    requires Periodic(a, s) && Periodic(b, t) && |a| == k * |s| && |b| == k * |t|
    requires FromDigits(s, base) == FromDigits(t, base2) && Pow(base, |s|) == Pow(base2, |t|)
    ensures FromDigits(a, base) == FromDigits(b, base2)
  {
    PeriodicBlocks(a, s, base, b, t, base2, k);
    FromDigitsBlocks(a, |s|, k, base);
    FromDigitsBlocks(b, |t|, k, base2);
  }

  lemma PeriodicBlocks(a: seq<nat>, s: seq<nat>, base: nat, b: seq<nat>, t: seq<nat>, base2: nat, k: nat)
    requires Periodic(a, s) && Periodic(b, t) && |a| == k * |s| && |b| == k * |t|
    requires FromDigits(s, base) == FromDigits(t, base2)
    ensures BlockValues(a, |s|, k, base) == BlockValues(b, |t|, k, base2)
  {
    var xs, ys := BlockValues(a, |s|, k, base), BlockValues(b, |t|, k, base2);
    forall c | 0 <= c < k
      ensures xs[c] == ys[c]
    {
      PeriodicBlock(a, s, k, c, base);
      PeriodicBlock(b, t, k, c, base2);
    }
  }

  /** Two equally long sequences repeating the same pattern are equal. */
  lemma PeriodicEqual(a: seq<nat>, b: seq<nat>, s: seq<nat>)
    requires Periodic(a, s) && Periodic(b, s) && |a| == |b|
    ensures a == b
  {
  }
}
