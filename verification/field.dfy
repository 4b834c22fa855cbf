/** The prime field GF(q), q = 3329, of ML-KEM.

    `Add`, `Sub` and `Mul` are the field operations by value: residues of
    the integer sum, difference and product. The Rust `FieldElement`
    computes them with two reductions, the conditional subtraction
    `small_reduce` and the Barrett reduction `barrett_reduce`, whose 16-,
    32- and 64-bit intermediate widths are written out below;
    `ReducedAdd`, `ReducedSub` and `BarrettMul` are the Rust operators as
    written and are proved equal to the field operations for every pair of
    reduced elements. The rest of the model is stated with the field
    operations and the algebraic laws proved here. */
module Field {
  import opened Bits
  import Util

  /** The ML-KEM modulus `Q`. */
  const Q: nat := 3329

  /** A reduced field element. The Rust `FieldElement` wraps a `u16`; every
      value the core constructs is below `Q`, and this model makes that the
      type's invariant. */
  type Fe = x: int | 0 <= x < Q

  type U16 = x: int | 0 <= x < 0x1_0000
  type U32 = x: int | 0 <= x < 0x1_0000_0000

  const BARRETT_SHIFT: nat := 24
  /** `(1 << BARRETT_SHIFT) / Q` */
  const BARRETT_MULTIPLIER: nat := 0x100_0000 / Q

  /** The largest input the core hands to `barrett_reduce`: the first output of
      `base_case_multiply` sums two products of reduced elements. */
  const BARRETT_BOUND: nat := 2 * (Q - 1) * (Q - 1)

  // ---------------------------------------------------------------------
  // The field operations
  // ---------------------------------------------------------------------

  function Add(a: Fe, b: Fe): Fe { (a + b) % Q }

  function Sub(a: Fe, b: Fe): Fe { (a - b) % Q }

  function Mul(a: Fe, b: Fe): Fe { (a * b) % Q }

  // ---------------------------------------------------------------------
  // The reductions and the Rust operators
  // ---------------------------------------------------------------------

  /** `small_reduce`: one conditional subtraction of `Q` on a `u16`. */
  function SmallReduce(x: U16): (r: U16)
    ensures r % Q == x % Q
    ensures r < Q <==> x < 2 * Q
    ensures x < 2 * Q ==> r == x % Q
  {
    if x < Q then x else x - Q
  }

  /** `barrett_reduce`: estimate the quotient `x / Q` as `(x * m) >> 24` in
      64-bit arithmetic, truncate it to 32 bits, subtract `quotient * Q` in
      32-bit arithmetic, truncate the remainder to 16 bits and finish with
      `small_reduce`. The estimate never exceeds the true quotient, so the
      subtraction never wraps; for every input up to `BARRETT_BOUND` it is at
      most one below it, and the result is then `x mod Q`. */
  method BarrettReduce(x: U32) returns (r: U16)
    ensures x <= BARRETT_BOUND ==> r == x % Q
  {
    var quotient := Util.Truncate(BarrettEstimate(x), 32);
    BarrettRemainder(x, quotient);
    var remainder: U32 := x - quotient * Q;
    var low := Util.Truncate(remainder, 16);
    LowHalf(remainder, low);
    r := SmallReduce(low);
    assert x <= BARRETT_BOUND ==> low == remainder && remainder < 2 * Q;
  }

  /** `(x * BARRETT_MULTIPLIER) >> BARRETT_SHIFT` in 64-bit arithmetic,
      which cannot overflow for a 32-bit `x`. */
  function BarrettEstimate(x: U32): (e: nat)
    ensures x * BARRETT_MULTIPLIER < 0x1_0000_0000_0000_0000
  {
    assert BARRETT_MULTIPLIER == 5039;
    MulMono(x, 0, BARRETT_MULTIPLIER);
    MulMono(BARRETT_MULTIPLIER, x, 0xFFFF_FFFF);
    assert x * BARRETT_MULTIPLIER == BARRETT_MULTIPLIER * x;
    x * BARRETT_MULTIPLIER / Pow2(BARRETT_SHIFT)
  }

  /** The remainder `x - quotient * Q` of `barrett_reduce` fits in a `u32`,
      and for inputs up to `BARRETT_BOUND` it is congruent to `x` and below
      `2 * Q`. */
  lemma BarrettRemainder(x: U32, quotient: nat)
    requires quotient == Util.Truncate(BarrettEstimate(x), 32)
    ensures 0 <= x - quotient * Q < 0x1_0000_0000
    ensures x <= BARRETT_BOUND ==> x - quotient * Q < 2 * Q && (x - quotient * Q) % Q == x % Q
  {
    BarrettTruncation(x, quotient);
    BarrettQuotient(x);
    ModShift(x - quotient * Q, quotient);
  }

  /** The truncation of the quotient estimate to 32 bits loses nothing. */
  lemma BarrettTruncation(x: U32, quotient: nat)
    requires quotient == Util.Truncate(BarrettEstimate(x), 32)
    ensures quotient == (x * BARRETT_MULTIPLIER) / 0x100_0000
  {
    var e := BarrettEstimate(x);
    assert Pow2(BARRETT_SHIFT) == 0x100_0000 && Pow2(32) == 0x1_0000_0000 by {
      Pow2Values();
    }
    BarrettQuotient(x);
    assert e < Pow2(32);
  }

  /** Truncating the remainder to 16 bits keeps it when it is below `2 * Q`. */
  lemma LowHalf(remainder: U32, low: nat)
    requires low == Util.Truncate(remainder, 16)
    ensures low < 0x1_0000
    ensures remainder < 2 * Q ==> low == remainder
  {
    Pow2Values();
  }

  /** The quotient estimate of `barrett_reduce` lies in `[x/Q - 1, x/Q]` for
      inputs up to `BARRETT_BOUND`, and never above `x / Q`. */
  lemma BarrettQuotient(x: U32)
    ensures (x * BARRETT_MULTIPLIER) / 0x100_0000 < 0x1_0000_0000
    ensures 0 <= x - (x * BARRETT_MULTIPLIER) / 0x100_0000 * Q
    ensures x <= BARRETT_BOUND ==> x - (x * BARRETT_MULTIPLIER) / 0x100_0000 * Q < 2 * Q
  {
    assert BARRETT_MULTIPLIER == 5039;
    var t := (x * 5039) / 0x100_0000;
    var m, r0 := x / Q, x % Q;
    assert x == m * Q + r0;
    assert t * 0x100_0000 <= x * 5039;
    // 5039 * Q == 2^24 - 2385, so t * Q * 2^24 <= x * (2^24 - 2385) <= x * 2^24.
    assert (t * Q) * 0x100_0000 == (t * 0x100_0000) * Q;
    MulMono(Q, t * 0x100_0000, x * 5039);
    assert (t * Q) * 0x100_0000 <= x * 0x100_0000;
    assert t * Q <= x;
    if x <= BARRETT_BOUND {
      assert m <= 6654;
      // x * 5039 >= m * Q * 5039 = m * (2^24 - 2385) >= (m - 1) * 2^24
      MulMono(5039, m * Q, x);
      assert (m - 1) * 0x100_0000 <= x * 5039;
      assert t >= m - 1;
      assert x - t * Q <= x - (m - 1) * Q;
    }
  }

  /** `FieldElement + FieldElement` as the Rust code computes it: the `u16`
      sum, conditionally reduced once. */
  function ReducedAdd(a: Fe, b: Fe): (r: Fe)
    ensures r == Add(a, b)
  {
    SmallReduce(a + b)
  }

  /** `FieldElement - FieldElement` as the Rust code computes it: `Q` is
      added before `b` is subtracted, so the `u16` difference is never
      negative, and the result is conditionally reduced once. */
  function ReducedSub(a: Fe, b: Fe): (r: Fe)
    ensures 0 < a + Q - b < 2 * Q
    ensures r == Sub(a, b)
  {
    SmallReduce(a + Q - b)
  }

  /** `FieldElement * FieldElement` as the Rust code computes it: the `u32`
      product, Barrett-reduced. */
  method BarrettMul(a: Fe, b: Fe) returns (r: Fe)
    ensures 0 <= a * b <= BARRETT_BOUND
    ensures r == Mul(a, b)
  {
    var p: int := a * b;
    ProductBound(a, b);
    assert BARRETT_BOUND == 22151168;
    r := BarrettReduce(p);
  }

  lemma ProductBound(a: int, b: int)
    requires 0 <= a < Q && 0 <= b < Q
    ensures 0 <= a * b <= 11075584
  {
    MulMono(a, b, 3328);
    MulMono(3328, a, 3328);
    assert a * 3328 == 3328 * a;
  }

  // ---------------------------------------------------------------------
  // Laws of the field operations
  // ---------------------------------------------------------------------

  /** Subtraction undoes addition, and addition undoes subtraction. */
  lemma AddSubInverse(a: Fe, b: Fe)
    ensures Sub(Add(a, b), b) == a
    ensures Add(Sub(a, b), b) == a
  {
    AddCases(a, b);
    SubCases(Add(a, b), b);
    SubCases(a, b);
    AddCases(Sub(a, b), b);
  }

  lemma AddCommutes(a: Fe, b: Fe)
    ensures Add(a, b) == Add(b, a)
  {
  }

  lemma MulCommutes(a: Fe, b: Fe)
    ensures Mul(a, b) == Mul(b, a)
  {
    assert a * b == b * a;
  }

  /** Rearranging a sum of four terms. */
  lemma AddInterchange(a: Fe, b: Fe, c: Fe, d: Fe)
    ensures Add(Add(a, b), Add(c, d)) == Add(Add(a, c), Add(b, d))
  {
    AddCases(a, b);
    AddCases(c, d);
    AddCases(a, c);
    AddCases(b, d);
    AddCases(Add(a, b), Add(c, d));
    AddCases(Add(a, c), Add(b, d));
  }

  /** Rearranging a difference of two sums. */
  lemma SubInterchange(a: Fe, b: Fe, c: Fe, d: Fe)
    ensures Sub(Add(a, b), Add(c, d)) == Add(Sub(a, c), Sub(b, d))
  {
    AddCases(a, b);
    AddCases(c, d);
    SubCases(a, c);
    SubCases(b, d);
    SubCases(Add(a, b), Add(c, d));
    AddCases(Sub(a, c), Sub(b, d));
  }

  /** Multiplication distributes over the field addition. */
  lemma MulDistributes(c: Fe, a: Fe, b: Fe)
    ensures Mul(c, Add(a, b)) == Add(Mul(c, a), Mul(c, b))
  {
    var ca, cb: int := c * a, c * b;
    ModMulRight(c, a + b);
    assert c * (a + b) == ca + cb;
    assert Mul(c, Add(a, b)) == (ca + cb) % Q;
    ModAddBoth(ca, cb);
    assert Add(Mul(c, a), Mul(c, b)) == (ca % Q + cb % Q) % Q;
  }

  /** Multiplication distributes over the field subtraction. */
  lemma MulDistributesSub(c: Fe, a: Fe, b: Fe)
    ensures Mul(c, Sub(a, b)) == Sub(Mul(c, a), Mul(c, b))
  {
    ModMulRight(c, a - b);
    assert c * (a - b) == c * a - c * b;
    ModSubBoth(c * a, c * b);
  }

  /** Multiplication is associative. */
  lemma MulAssociates(a: Fe, b: Fe, c: Fe)
    ensures Mul(Mul(a, b), c) == Mul(a, Mul(b, c))
  {
    ModMulLeft(c, a * b);
    ModMulRight(a, b * c);
    assert (a * b) * c == a * (b * c);
  }

  lemma MulOne(a: Fe)
    ensures Mul(1, a) == a && Mul(a, 1) == a
  {
  }

  /** Doubling is multiplication by 2. */
  lemma MulTwo(a: Fe)
    ensures Mul(2, a) == Add(a, a)
  {
  }

  /** `Q - 1` is `-1`. */
  lemma MulMinusOne(a: Fe)
    ensures Mul(Q - 1, a) == Sub(0, a)
  {
    var x: int := a;
    assert (Q - 1) * x == -x + x * Q;
    ModShift(-x, x);
  }

  /** Multiplying a negation. */
  lemma MulNeg(c: Fe, a: Fe)
    ensures Mul(c, Sub(0, a)) == Sub(0, Mul(c, a))
  {
    var x: int := a;
    ModMulRight(c, -x);
    ModSubBoth(0, c * x);
    assert c * -x == -(c * x);
  }

  /** The two outputs of a forward butterfly on `(a, t)`, subtracted. */
  lemma ButterflyDifference(a: Fe, t: Fe)
    ensures Sub(Sub(a, t), Add(a, t)) == Sub(0, Add(t, t))
  {
    SubCases(a, t);
    AddCases(a, t);
    SubCases(Sub(a, t), Add(a, t));
    AddCases(t, t);
    SubCases(0, Add(t, t));
  }

  /** The two outputs of a forward butterfly on `(a, t)`, added. */
  lemma ButterflySum(a: Fe, t: Fe)
    ensures Add(Add(a, t), Sub(a, t)) == Add(a, a)
  {
    AddCases(a, t);
    SubCases(a, t);
    AddCases(Add(a, t), Sub(a, t));
    AddCases(a, a);
  }

  /** Negation is an involution and commutes with doubling. */
  lemma NegDouble(a: Fe)
    ensures Sub(0, Add(Sub(0, a), Sub(0, a))) == Add(a, a)
  {
    SubCases(0, a);
    AddCases(Sub(0, a), Sub(0, a));
    SubCases(0, Add(Sub(0, a), Sub(0, a)));
    AddCases(a, a);
  }

  /** The field difference of reduced elements needs at most one addition of `Q`. */
  lemma SubCases(x: Fe, y: Fe)
    ensures Sub(x, y) == if y <= x then x - y else x - y + Q
  {
    if y <= x {
      ModSmall(x - y, Q);
    } else {
      DivModUnique(x - y, Q, -1, x - y + Q);
    }
  }

  // ---------------------------------------------------------------------
  // Congruence facts
  // ---------------------------------------------------------------------

  /** Adding a multiple of `Q` does not change the residue. */
  lemma ModShift(x: int, k: int)
    ensures (x + k * Q) % Q == x % Q
  {
    DivModUnique(x + k * Q, Q, x / Q + k, x % Q);
  }

  /** Reducing one summand first does not change the residue. */
  lemma ModAddLeft(x: int, y: int)
    ensures (x % Q + y) % Q == (x + y) % Q
  {
    var k := x / Q;
    assert x == k * Q + x % Q;
    ModShift(x % Q + y, k);
  }

  /** The field sum of reduced elements needs at most one subtraction of `Q`. */
  lemma AddCases(x: Fe, y: Fe)
    ensures Add(x, y) == if x + y < Q then x + y else x + y - Q
  {
    if x + y < Q {
      ModSmall(x + y, Q);
    } else {
      DivModUnique(x + y, Q, 1, x + y - Q);
    }
  }

  lemma ModAddBoth(x: int, y: int)
    ensures (x % Q + y % Q) % Q == (x + y) % Q
  {
    ModAddLeft(x, y % Q);
    ModAddLeft(y, x);
  }

  lemma ModSubBoth(x: int, y: int)
    ensures (x % Q - y % Q) % Q == (x - y) % Q
  {
    var k := y / Q;
    assert y == k * Q + y % Q;
    ModShift(x - y % Q, -k);
    ModAddLeft(x, -(y % Q));
  }

  /** Reducing a factor first does not change the residue of a product. */
  lemma ModMulRight(c: int, x: int)
    ensures (c * (x % Q)) % Q == (c * x) % Q
  {
    var k := x / Q;
    assert x == k * Q + x % Q;
    assert c * x == c * (x % Q) + (c * k) * Q;
    ModShift(c * (x % Q), c * k);
  }

  lemma ModMulLeft(c: int, x: int)
    ensures ((x % Q) * c) % Q == (x * c) % Q
  {
    ModMulRight(c, x);
    assert (x % Q) * c == c * (x % Q);
    assert x * c == c * x;
  }
}
