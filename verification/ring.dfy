/** Polynomials of ML-KEM and their NTT-domain counterparts: coefficient-wise
    addition, subtraction and scaling, the NTT-domain product built from 128
    base-case products, and vectors and square matrices of NTT-domain
    polynomials with their sum, dot product, matrix-vector product and
    transpose. The generic sizes of the Rust types (256 coefficients, `K`
    polynomials per vector) are carried as lengths. */
module Ring {
  import opened Field
  import Twiddles
  import Util

  /** The 256 coefficients of a polynomial, each a reduced field element. */
  type Coeffs = s: seq<Fe> | |s| == 256 witness seq(256, _ => 0)

  /** An element of R_q = Z_q[X] / (X^256 + 1), coefficient `i` of `X^i`. */
  datatype Polynomial = Polynomial(f: Coeffs)

  /** An element of T_q: 128 pairs `(f[2i], f[2i+1])`, each a residue of a
      polynomial modulo `X^2 - GAMMA[i]`. */
  datatype NttPolynomial = NttPolynomial(f: Coeffs)

  /** A vector of `K` polynomials. */
  datatype PolynomialVector = PolynomialVector(polys: seq<Polynomial>)

  /** A vector of `K` NTT-domain polynomials. */
  datatype NttVector = NttVector(polys: seq<NttPolynomial>)

  /** A `K x K` matrix of NTT-domain polynomials, stored as its rows. */
  datatype NttMatrix = NttMatrix(rows: seq<NttVector>)

  // ---------------------------------------------------------------------
  // Polynomial arithmetic
  // ---------------------------------------------------------------------

  /** `&Polynomial + &Polynomial`: the coefficient-wise field sum. */
  function PolyAdd(a: Polynomial, b: Polynomial): (r: Polynomial)
    ensures forall i | 0 <= i < 256 :: r.f[i] == Add(a.f[i], b.f[i])
  {
    Polynomial(Util.Zip(a.f, b.f, Add))
  }

  /** `&Polynomial - &Polynomial`: the coefficient-wise field difference. */
  function PolySub(a: Polynomial, b: Polynomial): (r: Polynomial)
    ensures forall i | 0 <= i < 256 :: r.f[i] == Sub(a.f[i], b.f[i])
  {
    Polynomial(Util.Zip(a.f, b.f, Sub))
  }

  /** `FieldElement * &Polynomial`: every coefficient times `c`. */
  function Scale(c: Fe, p: Polynomial): (r: Polynomial)
    ensures forall i | 0 <= i < 256 :: r.f[i] == Mul(c, p.f[i])
  {
    Polynomial(Util.Map(p.f, (x: Fe) => Mul(c, x)))
  }

  /** `FieldElement * &Polynomial` as the Rust code computes it: every
      coefficient is Barrett-multiplied by `c`. */
  method MultiplyScalar(c: Fe, p: Polynomial) returns (r: Polynomial)
    ensures r == Scale(c, p)
  {
    var out: seq<Fe> := [];
    for i := 0 to 256
      invariant |out| == i
      invariant forall k | 0 <= k < i :: out[k] == Mul(c, p.f[k])
    {
      var x := BarrettMul(c, p.f[i]);
      out := out + [x];
    }
    r := Polynomial(out);
    assert r.f == Scale(c, p).f;
  }

  /** Subtraction undoes addition and addition undoes subtraction. */
  lemma PolyAddSubInverse(a: Polynomial, b: Polynomial)
    ensures PolySub(PolyAdd(a, b), b) == a
    ensures PolyAdd(PolySub(a, b), b) == a
  {
    forall i | 0 <= i < 256
      ensures PolySub(PolyAdd(a, b), b).f[i] == a.f[i]
      ensures PolyAdd(PolySub(a, b), b).f[i] == a.f[i]
    {
      AddSubInverse(a.f[i], b.f[i]);
    }
  }

  /** Scaling distributes over the sum of polynomials. */
  lemma ScaleDistributes(c: Fe, a: Polynomial, b: Polynomial)
    ensures Scale(c, PolyAdd(a, b)) == PolyAdd(Scale(c, a), Scale(c, b))
  {
    forall i | 0 <= i < 256
      ensures Scale(c, PolyAdd(a, b)).f[i] == PolyAdd(Scale(c, a), Scale(c, b)).f[i]
    {
      MulDistributes(c, a.f[i], b.f[i]);
    }
  }

  /** Scaling twice scales by the product. */
  lemma ScaleScale(c: Fe, d: Fe, p: Polynomial)
    ensures Scale(c, Scale(d, p)) == Scale(Mul(c, d), p)
  {
    forall i | 0 <= i < 256
      ensures Scale(c, Scale(d, p)).f[i] == Scale(Mul(c, d), p).f[i]
    {
      MulAssociates(c, d, p.f[i]);
    }
  }

  lemma ScaleOne(p: Polynomial)
    ensures Scale(1, p) == p
  {
    forall i | 0 <= i < 256
      ensures Scale(1, p).f[i] == p.f[i]
    {
      MulOne(p.f[i]);
    }
  }

  /** The polynomial whose coefficient `i` is `m * i`, for `m <= 3`. */
  function Ramp(m: nat): (r: Polynomial)
    requires m <= 3
    ensures forall i | 0 <= i < 256 :: r.f[i] == m * i
  {
    Polynomial(seq(256, i requires 0 <= i < 256 => m * i))
  }

  /** With `f = (0, 1, 2, ...)`, `g = 2 f` and `sum = 3 f`: `f + g = sum`,
      `sum - g = f` and `3 * f = sum`. */
  lemma PolynomialOps()
    ensures PolyAdd(Ramp(1), Ramp(2)) == Ramp(3)
    ensures PolySub(Ramp(3), Ramp(2)) == Ramp(1)
    ensures Scale(3, Ramp(1)) == Ramp(3)
  {
    var f, g, sum := Ramp(1), Ramp(2), Ramp(3);
    assert PolyAdd(f, g).f == sum.f;
    assert PolySub(sum, g).f == f.f;
    assert Scale(3, f).f == sum.f;
  }

  // ---------------------------------------------------------------------
  // NTT-domain arithmetic
  // ---------------------------------------------------------------------

  /** `&NttPolynomial + &NttPolynomial`: the coefficient-wise field sum. */
  function NttAdd(a: NttPolynomial, b: NttPolynomial): (r: NttPolynomial)
    ensures forall i | 0 <= i < 256 :: r.f[i] == Add(a.f[i], b.f[i])
  {
    NttPolynomial(Util.Zip(a.f, b.f, Add))
  }

  /** The product of `a0 + a1 X` and `b0 + b1 X` modulo `X^2 - g`. */
  datatype Pair = Pair(c0: Fe, c1: Fe)

  function BaseCase(a0: Fe, a1: Fe, b0: Fe, b1: Fe, g: Fe): Pair
  {
    Pair(Add(Mul(a0, b0), Mul(Mul(a1, b1), g)), Add(Mul(a0, b1), Mul(a1, b0)))
  }

  /** `base_case_multiply`: the products are formed on `u32` values and
      Barrett-reduced once per output, after `b1 * GAMMA[i]` is reduced on
      its own; the results are the coefficients of `(a0 + a1 X)(b0 + b1 X)`
      modulo `X^2 - GAMMA[i]`. */
  method BaseCaseMultiply(a0: Fe, a1: Fe, b0: Fe, b1: Fe, i: nat) returns (c0: Fe, c1: Fe)
    requires i < 128
    ensures Pair(c0, c1) == BaseCase(a0, a1, b0, b1, Twiddles.Gamma(i))
  {
    var g := Twiddles.GammaEntry(i);
    var b1g := BarrettMul(b1, g);
    BaseCaseBounds(a0, a1, b0, b1, b1g);
    var r0 := BarrettReduce(a0 * b0 + a1 * b1g);
    var r1 := BarrettReduce(a0 * b1 + a1 * b0);
    BaseCaseSums(a0, a1, b0, b1, g, b1g);
    c0, c1 := r0, r1;
  }

  /** Both sums `base_case_multiply` reduces are within the range where
      Barrett reduction is exact. */
  lemma BaseCaseBounds(a0: Fe, a1: Fe, b0: Fe, b1: Fe, b1g: Fe)
    ensures 0 <= a0 * b0 + a1 * b1g <= BARRETT_BOUND
    ensures 0 <= a0 * b1 + a1 * b0 <= BARRETT_BOUND
  {
    ProductBound(a0, b0);
    ProductBound(a1, b1g);
    ProductBound(a0, b1);
    ProductBound(a1, b0);
    assert BARRETT_BOUND == 22151168;
  }

  /** The residues of the two sums `base_case_multiply` reduces. */
  lemma BaseCaseSums(a0: Fe, a1: Fe, b0: Fe, b1: Fe, g: Fe, b1g: Fe)
    requires b1g == Mul(b1, g)
    ensures (a0 * b0 + a1 * b1g) % Q == BaseCase(a0, a1, b0, b1, g).c0
    ensures (a0 * b1 + a1 * b0) % Q == BaseCase(a0, a1, b0, b1, g).c1
  {
    ModAddBoth(a0 * b0, a1 * b1g);
    ModAddBoth(a0 * b1, a1 * b0);
    MulAssociates(a1, b1, g);
  }

  /** Output `j` (0 or 1) of the base-case product of pair `i`. */
  function PairProduct(a: NttPolynomial, b: NttPolynomial, i: nat, j: nat): Fe
    requires i < 128
  {
    var p := BaseCase(a.f[2 * i], a.f[2 * i + 1], b.f[2 * i], b.f[2 * i + 1], Twiddles.Gamma(i));
    if j == 0 then p.c0 else p.c1
  }

  /** The NTT-domain product: pair `i` of the result is the base-case
      product of pair `i` of the operands. */
  function NttMul(a: NttPolynomial, b: NttPolynomial): NttPolynomial
  {
    NttPolynomial(seq(256, k requires 0 <= k < 256 => PairProduct(a, b, k / 2, k % 2)))
  }

  /** Pair `i` of the NTT-domain product. */
  lemma NttMulPair(a: NttPolynomial, b: NttPolynomial, i: nat)
    requires i < 128
    ensures NttMul(a, b).f[2 * i] == PairProduct(a, b, i, 0)
    ensures NttMul(a, b).f[2 * i + 1] == PairProduct(a, b, i, 1)
  {
    assert (2 * i) / 2 == i && (2 * i) % 2 == 0;
    assert (2 * i + 1) / 2 == i && (2 * i + 1) % 2 == 1;
  }

  /** Pair `m` of `out` holds the base-case product of pair `m` of the operands. */
  predicate PairDone(out: Coeffs, a: NttPolynomial, b: NttPolynomial, m: nat)
    requires m < 128
  {
    out[2 * m] == PairProduct(a, b, m, 0) && out[2 * m + 1] == PairProduct(a, b, m, 1)
  }

  /** `&NttPolynomial * &NttPolynomial`: a loop over the 128 pairs that
      stores the two outputs of `base_case_multiply`. */
  method MultiplyNtts(a: NttPolynomial, b: NttPolynomial) returns (r: NttPolynomial)
    ensures r == NttMul(a, b)
  {
    var out: seq<Fe> := seq(256, _ => 0);
    for i := 0 to 128
      invariant |out| == 256
      invariant forall m | 0 <= m < i :: PairDone(out, a, b, m)
    {
      var c0, c1 := BaseCaseMultiply(a.f[2 * i], a.f[2 * i + 1], b.f[2 * i], b.f[2 * i + 1], i);
      ghost var before := out;
      out := out[2 * i := c0][2 * i + 1 := c1];
      assert PairDone(out, a, b, i);
      forall m | 0 <= m < i
        ensures PairDone(out, a, b, m)
      {
        assert PairDone(before, a, b, m);
        assert out[2 * m] == before[2 * m] && out[2 * m + 1] == before[2 * m + 1];
      }
    }
    forall m | 0 <= m < 128
      ensures out[2 * m] == NttMul(a, b).f[2 * m] && out[2 * m + 1] == NttMul(a, b).f[2 * m + 1]
    {
      assert PairDone(out, a, b, m);
      NttMulPair(a, b, m);
    }
    NttMulPairs(out, NttMul(a, b).f);
    r := NttPolynomial(out);
  }

  /** The base-case product does not depend on the order of its operands. */
  lemma BaseCaseCommutes(a0: Fe, a1: Fe, b0: Fe, b1: Fe, g: Fe)
    ensures BaseCase(a0, a1, b0, b1, g) == BaseCase(b0, b1, a0, a1, g)
  {
    MulCommutes(a0, b0);
    MulCommutes(a1, b1);
    MulCommutes(a0, b1);
    MulCommutes(a1, b0);
    AddCommutes(Mul(a0, b1), Mul(a1, b0));
  }

  /** The NTT-domain product is commutative. */
  lemma NttMulCommutes(a: NttPolynomial, b: NttPolynomial)
    ensures NttMul(a, b) == NttMul(b, a)
  {
    forall i | 0 <= i < 128
      ensures NttMul(a, b).f[2 * i] == NttMul(b, a).f[2 * i]
      ensures NttMul(a, b).f[2 * i + 1] == NttMul(b, a).f[2 * i + 1]
    {
      NttMulPair(a, b, i);
      NttMulPair(b, a, i);
      BaseCaseCommutes(a.f[2 * i], a.f[2 * i + 1], b.f[2 * i], b.f[2 * i + 1], Twiddles.Gamma(i));
    }
    NttMulPairs(NttMul(a, b).f, NttMul(b, a).f);
  }

  /** The NTT of the constant polynomial `x`: `x` in every even slot and 0
      in every odd one (`Ntt.NttOfConstant` proves that the forward NTT
      produces it). */
  function ConstNtt(x: Fe): (r: NttPolynomial)
    ensures forall i | 0 <= i < 128 :: r.f[2 * i] == x && r.f[2 * i + 1] == 0
  {
    NttPolynomial(seq(256, k requires 0 <= k < 256 => if k % 2 == 0 then x else 0))
  }

  /** The constant polynomial `x`: `x` in coefficient 0 and 0 elsewhere. */
  function ConstPoly(x: Fe): Polynomial
  {
    Polynomial(seq(256, i requires 0 <= i < 256 => if i == 0 then x else 0))
  }

  /** Sums of constants in the NTT domain are constants. */
  lemma ConstNttAdd(x: Fe, y: Fe)
    ensures NttAdd(ConstNtt(x), ConstNtt(y)) == ConstNtt(Add(x, y))
  {
    assert NttAdd(ConstNtt(x), ConstNtt(y)).f == ConstNtt(Add(x, y)).f;
  }

  /** Products of constants in the NTT domain are constants. */
  lemma ConstNttMul(x: Fe, y: Fe)
    ensures NttMul(ConstNtt(x), ConstNtt(y)) == ConstNtt(Mul(x, y))
  {
    var cx, cy, cxy := ConstNtt(x), ConstNtt(y), ConstNtt(Mul(x, y));
    forall i | 0 <= i < 128
      ensures NttMul(cx, cy).f[2 * i] == cxy.f[2 * i]
      ensures NttMul(cx, cy).f[2 * i + 1] == cxy.f[2 * i + 1]
    {
      NttMulPair(cx, cy, i);
      BaseCaseConstant(x, y, Twiddles.Gamma(i));
    }
    NttMulPairs(NttMul(cx, cy).f, cxy.f);
  }

  lemma BaseCaseConstant(x: Fe, y: Fe, g: Fe)
    ensures BaseCase(x, 0, y, 0, g) == Pair(Mul(x, y), 0)
  {
  }

  /** Two coefficient sequences that agree on every pair are equal. */
  lemma NttMulPairs(s: Coeffs, t: Coeffs)
    requires forall i | 0 <= i < 128 :: s[2 * i] == t[2 * i] && s[2 * i + 1] == t[2 * i + 1]
    ensures s == t
  {
    forall k | 0 <= k < 256
      ensures s[k] == t[k]
    {
      var i := k / 2;
      assert k == 2 * i || k == 2 * i + 1;
    }
  }

  // ---------------------------------------------------------------------
  // Vectors and matrices
  // ---------------------------------------------------------------------

  /** `PolynomialVector + PolynomialVector`: the entry-wise sum. */
  function PolyVecAdd(v: PolynomialVector, w: PolynomialVector): (r: PolynomialVector)
    requires |v.polys| == |w.polys|
    ensures |r.polys| == |v.polys|
    ensures forall j | 0 <= j < |v.polys| :: r.polys[j] == PolyAdd(v.polys[j], w.polys[j])
  {
    PolynomialVector(Util.Zip(v.polys, w.polys, PolyAdd))
  }

  /** `&NttVector + &NttVector`: the entry-wise sum. */
  function NttVecAdd(v: NttVector, w: NttVector): (r: NttVector)
    requires |v.polys| == |w.polys|
    ensures |r.polys| == |v.polys|
    ensures forall j | 0 <= j < |v.polys| :: r.polys[j] == NttAdd(v.polys[j], w.polys[j])
  {
    NttVector(Util.Zip(v.polys, w.polys, NttAdd))
  }

  /** `&NttVector * &NttVector`: the entry-wise products, summed by a left
      fold. */
  function Dot(v: NttVector, w: NttVector): NttPolynomial
    requires |v.polys| == |w.polys| > 0
  {
    Util.Fold(Util.Zip(v.polys, w.polys, NttMul), NttAdd)
  }

  /** The dot product does not depend on the order of its operands. */
  lemma DotCommutes(v: NttVector, w: NttVector)
    requires |v.polys| == |w.polys| > 0
    ensures Dot(v, w) == Dot(w, v)
  {
    var s, t := Util.Zip(v.polys, w.polys, NttMul), Util.Zip(w.polys, v.polys, NttMul);
    forall j | 0 <= j < |s|
      ensures s[j] == t[j]
    {
      NttMulCommutes(v.polys[j], w.polys[j]);
    }
    assert s == t;
  }

  /** Every row has `K` entries, where `K` is the number of rows. */
  predicate Square(m: NttMatrix)
  {
    forall i | 0 <= i < |m.rows| :: |m.rows[i].polys| == |m.rows|
  }

  /** `&NttMatrix * &NttVector`: the rows mapped to their dot products with
      the vector. */
  function MatrixMulVec(m: NttMatrix, v: NttVector): (r: NttVector)
    requires Square(m) && |v.polys| == |m.rows| > 0
    ensures |r.polys| == |m.rows|
    ensures forall i | 0 <= i < |m.rows| :: r.polys[i] == Dot(m.rows[i], v)
  {
    NttVector(seq(|m.rows|, i requires 0 <= i < |m.rows| => Dot(m.rows[i], v)))
  }

  /** `NttMatrix::transpose`: entry `(i, j)` of the result is entry `(j, i)`
      of the matrix. */
  function Transpose(m: NttMatrix): (r: NttMatrix)
    requires Square(m)
    ensures Square(r) && |r.rows| == |m.rows|
    ensures forall i, j | 0 <= i < |m.rows| && 0 <= j < |m.rows| ::
      r.rows[i].polys[j] == m.rows[j].polys[i]
  {
    var k := |m.rows|;
    NttMatrix(seq(k, i requires 0 <= i < k =>
      NttVector(seq(k, j requires 0 <= j < k => m.rows[j].polys[i]))))
  }

  /** Transposing twice gives back the matrix. */
  lemma TransposeInvolution(m: NttMatrix)
    requires Square(m)
    ensures Transpose(Transpose(m)) == m
  {
    var t := Transpose(Transpose(m));
    forall i | 0 <= i < |m.rows|
      ensures t.rows[i] == m.rows[i]
    {
      assert t.rows[i].polys == m.rows[i].polys;
    }
    assert t.rows == m.rows;
  }

  // ---------------------------------------------------------------------
  // Linearity of the matrix-vector product
  // ---------------------------------------------------------------------

  /** The base-case product distributes over a sum in its second operand. */
  lemma BaseCaseDistributes(a0: Fe, a1: Fe, b0: Fe, b1: Fe, c0: Fe, c1: Fe, g: Fe)
    ensures BaseCase(a0, a1, Add(b0, c0), Add(b1, c1), g).c0
      == Add(BaseCase(a0, a1, b0, b1, g).c0, BaseCase(a0, a1, c0, c1, g).c0)
    ensures BaseCase(a0, a1, Add(b0, c0), Add(b1, c1), g).c1
      == Add(BaseCase(a0, a1, b0, b1, g).c1, BaseCase(a0, a1, c0, c1, g).c1)
  {
    MulDistributes(a0, b0, c0);
    MulDistributes(a0, b1, c1);
    MulDistributes(a1, b0, c0);
    MulDistributes(a1, b1, c1);
    var p, r := Mul(a1, b1), Mul(a1, c1);
    MulCommutes(Add(p, r), g);
    MulDistributes(g, p, r);
    MulCommutes(g, p);
    MulCommutes(g, r);
    AddInterchange(Mul(a0, b0), Mul(a0, c0), Mul(p, g), Mul(r, g));
    AddInterchange(Mul(a0, b1), Mul(a0, c1), Mul(a1, b0), Mul(a1, c0));
  }

  /** Pair `i` of the NTT-domain product of `a` with a sum. */
  lemma NttMulDistributesPair(a: NttPolynomial, b: NttPolynomial, c: NttPolynomial, i: nat)
    requires i < 128
    ensures NttMul(a, NttAdd(b, c)).f[2 * i] == NttAdd(NttMul(a, b), NttMul(a, c)).f[2 * i]
    ensures NttMul(a, NttAdd(b, c)).f[2 * i + 1] == NttAdd(NttMul(a, b), NttMul(a, c)).f[2 * i + 1]
  {
    NttMulPair(a, NttAdd(b, c), i);
    NttMulPair(a, b, i);
    NttMulPair(a, c, i);
    BaseCaseDistributes(a.f[2 * i], a.f[2 * i + 1], b.f[2 * i], b.f[2 * i + 1],
      c.f[2 * i], c.f[2 * i + 1], Twiddles.Gamma(i));
  }

  /** The NTT-domain product distributes over the NTT-domain sum. */
  lemma NttMulDistributes(a: NttPolynomial, b: NttPolynomial, c: NttPolynomial)
    ensures NttMul(a, NttAdd(b, c)) == NttAdd(NttMul(a, b), NttMul(a, c))
  {
    var s, t := NttMul(a, NttAdd(b, c)).f, NttAdd(NttMul(a, b), NttMul(a, c)).f;
    forall i | 0 <= i < 128
      ensures s[2 * i] == t[2 * i] && s[2 * i + 1] == t[2 * i + 1]
    {
      NttMulDistributesPair(a, b, c, i);
    }
    NttMulPairs(s, t);
  }

  /** Rearranging a sum of four NTT-domain polynomials. */
  lemma NttAddInterchange(a: NttPolynomial, b: NttPolynomial, c: NttPolynomial, d: NttPolynomial)
    ensures NttAdd(NttAdd(a, b), NttAdd(c, d)) == NttAdd(NttAdd(a, c), NttAdd(b, d))
  {
    var s, t := NttAdd(NttAdd(a, b), NttAdd(c, d)).f, NttAdd(NttAdd(a, c), NttAdd(b, d)).f;
    forall i | 0 <= i < 256
      ensures s[i] == t[i]
    {
      AddInterchange(a.f[i], b.f[i], c.f[i], d.f[i]);
    }
  }

  /** The first `n` entries of a vector. */
  function Prefix(v: NttVector, n: nat): (r: NttVector)
    requires n <= |v.polys|
    ensures |r.polys| == n
  {
    NttVector(v.polys[..n])
  }

  /** The dot product distributes over the vector sum in its second operand. */
  lemma {:induction false} DotDistributes(r: NttVector, v: NttVector, w: NttVector)
    requires |r.polys| == |v.polys| == |w.polys| > 0
    ensures Dot(r, NttVecAdd(v, w)) == NttAdd(Dot(r, v), Dot(r, w))
    decreases |r.polys|
  {
    var n := |r.polys|;
    var s := Util.Zip(r.polys, NttVecAdd(v, w).polys, NttMul);
    var sv, sw := Util.Zip(r.polys, v.polys, NttMul), Util.Zip(r.polys, w.polys, NttMul);
    NttMulDistributes(r.polys[n - 1], v.polys[n - 1], w.polys[n - 1]);
    assert s[n - 1] == NttAdd(sv[n - 1], sw[n - 1]);
    if n > 1 {
      var r', v', w' := Prefix(r, n - 1), Prefix(v, n - 1), Prefix(w, n - 1);
      DotDistributes(r', v', w');
      assert s[..n - 1] == Util.Zip(r'.polys, NttVecAdd(v', w').polys, NttMul);
      assert sv[..n - 1] == Util.Zip(r'.polys, v'.polys, NttMul);
      assert sw[..n - 1] == Util.Zip(r'.polys, w'.polys, NttMul);
      NttAddInterchange(Dot(r', v'), Dot(r', w'), sv[n - 1], sw[n - 1]);
    }
  }

  /** The matrix-vector product is linear in the vector: multiplying a sum
      is summing the products. */
  lemma MatrixMulVecLinear(m: NttMatrix, v: NttVector, w: NttVector)
    requires Square(m) && |v.polys| == |w.polys| == |m.rows| > 0
    ensures MatrixMulVec(m, NttVecAdd(v, w)) == NttVecAdd(MatrixMulVec(m, v), MatrixMulVec(m, w))
  {
    var lhs, rhs := MatrixMulVec(m, NttVecAdd(v, w)), NttVecAdd(MatrixMulVec(m, v), MatrixMulVec(m, w));
    forall i | 0 <= i < |m.rows|
      ensures lhs.polys[i] == rhs.polys[i]
    {
      DotDistributes(m.rows[i], v, w);
    }
    assert lhs.polys == rhs.polys;
  }

  // ---------------------------------------------------------------------
  // Vectors of constants
  // ---------------------------------------------------------------------

  /** The vector of NTT-domain constants `xs[0], xs[1], ...`. */
  function ConstVec(xs: seq<Fe>): (v: NttVector)
    ensures |v.polys| == |xs|
    ensures forall j | 0 <= j < |xs| :: v.polys[j] == ConstNtt(xs[j])
  {
    NttVector(seq(|xs|, j requires 0 <= j < |xs| => ConstNtt(xs[j])))
  }

  /** The dot product of two sequences of field elements, summed from the
      left. */
  function FieldDot(xs: seq<Fe>, ys: seq<Fe>): Fe
    requires |xs| == |ys| > 0
  {
    var n := |xs|;
    if n == 1 then Mul(xs[0], ys[0])
    else Add(FieldDot(xs[..n - 1], ys[..n - 1]), Mul(xs[n - 1], ys[n - 1]))
  }

  /** The dot product of vectors of constants is the constant of the dot
      product. */
  lemma {:induction false} DotConstants(xs: seq<Fe>, ys: seq<Fe>)
    requires |xs| == |ys| > 0
    ensures Dot(ConstVec(xs), ConstVec(ys)) == ConstNtt(FieldDot(xs, ys))
    decreases |xs|
  {
    var n := |xs|;
    var s := Util.Zip(ConstVec(xs).polys, ConstVec(ys).polys, NttMul);
    var last := Mul(xs[n - 1], ys[n - 1]);
    ConstNttMul(xs[n - 1], ys[n - 1]);
    assert s[n - 1] == ConstNtt(last);
    if n > 1 {
      var xs', ys' := xs[..n - 1], ys[..n - 1];
      DotConstants(xs', ys');
      var t := Util.Zip(ConstVec(xs').polys, ConstVec(ys').polys, NttMul);
      assert s[..n - 1] == t;
      assert Util.Fold(t, NttAdd) == ConstNtt(FieldDot(xs', ys'));
      ConstNttAdd(FieldDot(xs', ys'), last);
    }
  }

  /** The dot product of two vectors of three constants. */
  lemma DotOfThree(x0: Fe, x1: Fe, x2: Fe, y0: Fe, y1: Fe, y2: Fe, d: Fe)
    requires d == Add(Add(Mul(x0, y0), Mul(x1, y1)), Mul(x2, y2))
    ensures Dot(ConstVec([x0, x1, x2]), ConstVec([y0, y1, y2])) == ConstNtt(d)
  {
    var xs, ys := [x0, x1, x2], [y0, y1, y2];
    DotConstants(xs, ys);
    FieldDotThree(xs, ys);
  }

  lemma FieldDotThree(xs: seq<Fe>, ys: seq<Fe>)
    requires |xs| == |ys| == 3
    ensures FieldDot(xs, ys) == Add(Add(Mul(xs[0], ys[0]), Mul(xs[1], ys[1])), Mul(xs[2], ys[2]))
  {
    var xs2, ys2 := xs[..2], ys[..2];
    assert xs2[..1] == xs[..1] && ys2[..1] == ys[..1];
    assert FieldDot(xs[..1], ys[..1]) == Mul(xs[0], ys[0]);
    assert FieldDot(xs2, ys2) == Add(Mul(xs[0], ys[0]), Mul(xs[1], ys[1]));
  }

  /** The vector sum of the Rust test `ntt_vector`, with `v1`, `v2`, `v3`
      holding the constants 1, 2 and 3 three times. */
  lemma NttVectorSumExample()
    ensures NttVecAdd(ConstVec([1, 1, 1]), ConstVec([2, 2, 2])) == ConstVec([3, 3, 3])
  {
    ConstNttAdd(1, 2);
    assert NttVecAdd(ConstVec([1, 1, 1]), ConstVec([2, 2, 2])).polys == ConstVec([3, 3, 3]).polys;
  }

  /** The field arithmetic of the dot products in the Rust tests. */
  lemma ExampleDotSums()
    ensures Add(Add(Mul(1, 2), Mul(1, 2)), Mul(1, 2)) == 6
    ensures Add(Add(Mul(1, 3), Mul(1, 3)), Mul(1, 3)) == 9
    ensures Add(Add(Mul(2, 3), Mul(2, 3)), Mul(2, 3)) == 18
    ensures Add(Add(Mul(1, 1), Mul(2, 2)), Mul(3, 3)) == 14
    ensures Add(Add(Mul(4, 1), Mul(5, 2)), Mul(6, 3)) == 32
    ensures Add(Add(Mul(7, 1), Mul(8, 2)), Mul(9, 3)) == 50
  {
    var small := [1, 2, 3, 4, 5, 6, 7, 9, 10, 12, 14, 16, 18, 23, 27, 32, 50];
    forall x | x in small
      ensures x % Q == x
    {
      Bits.ModSmall(x, Q);
    }
  }

  /** The dot products of the Rust test `ntt_vector`. */
  lemma NttVectorDotExample()
    ensures Dot(ConstVec([1, 1, 1]), ConstVec([2, 2, 2])) == ConstNtt(6)
    ensures Dot(ConstVec([1, 1, 1]), ConstVec([3, 3, 3])) == ConstNtt(9)
    ensures Dot(ConstVec([2, 2, 2]), ConstVec([3, 3, 3])) == ConstNtt(18)
  {
    ExampleDotSums();
    DotOfThree(1, 1, 1, 2, 2, 2, 6);
    DotOfThree(1, 1, 1, 3, 3, 3, 9);
    DotOfThree(2, 2, 2, 3, 3, 3, 18);
  }

  /** The matrix of the Rust test `ntt_matrix`, whose rows hold the
      constants 1 2 3, 4 5 6 and 7 8 9. */
  function ExampleMatrix(): (m: NttMatrix)
    ensures Square(m) && |m.rows| == 3
  {
    NttMatrix([ConstVec([1, 2, 3]), ConstVec([4, 5, 6]), ConstVec([7, 8, 9])])
  }

  /** The matrix-vector product of the Rust test `ntt_matrix`. */
  lemma NttMatrixProductExample()
    ensures MatrixMulVec(ExampleMatrix(), ConstVec([1, 2, 3])) == ConstVec([14, 32, 50])
  {
    ExampleDotSums();
    ThreeByThree(1, 2, 3, 4, 5, 6, 7, 8, 9, 1, 2, 3, 14, 32, 50);
  }

  /** A product of a three-by-three matrix of constants with a vector of
      three constants. */
  lemma ThreeByThree(m00: Fe, m01: Fe, m02: Fe, m10: Fe, m11: Fe, m12: Fe, m20: Fe, m21: Fe, m22: Fe,
                     y0: Fe, y1: Fe, y2: Fe, d0: Fe, d1: Fe, d2: Fe)
    requires d0 == Add(Add(Mul(m00, y0), Mul(m01, y1)), Mul(m02, y2))
    requires d1 == Add(Add(Mul(m10, y0), Mul(m11, y1)), Mul(m12, y2))
    requires d2 == Add(Add(Mul(m20, y0), Mul(m21, y1)), Mul(m22, y2))
    ensures MatrixMulVec(NttMatrix([ConstVec([m00, m01, m02]), ConstVec([m10, m11, m12]), ConstVec([m20, m21, m22])]),
                         ConstVec([y0, y1, y2]))
         == ConstVec([d0, d1, d2])
  {
    DotOfThree(m00, m01, m02, y0, y1, y2, d0);
    DotOfThree(m10, m11, m12, y0, y1, y2, d1);
    DotOfThree(m20, m21, m22, y0, y1, y2, d2);
    ConstVecThree(d0, d1, d2);
    ThreeRows(ConstVec([m00, m01, m02]), ConstVec([m10, m11, m12]), ConstVec([m20, m21, m22]),
      ConstVec([y0, y1, y2]), ConstNtt(d0), ConstNtt(d1), ConstNtt(d2));
  }

  lemma ConstVecThree(x0: Fe, x1: Fe, x2: Fe)
    ensures ConstVec([x0, x1, x2]) == NttVector([ConstNtt(x0), ConstNtt(x1), ConstNtt(x2)])
  {
    assert ConstVec([x0, x1, x2]).polys == [ConstNtt(x0), ConstNtt(x1), ConstNtt(x2)];
  }

  /** A product with a three-row matrix, row by row. */
  lemma ThreeRows(r0: NttVector, r1: NttVector, r2: NttVector, v: NttVector,
                  d0: NttPolynomial, d1: NttPolynomial, d2: NttPolynomial)
    requires |r0.polys| == |r1.polys| == |r2.polys| == |v.polys| == 3
    requires Dot(r0, v) == d0 && Dot(r1, v) == d1 && Dot(r2, v) == d2
    ensures MatrixMulVec(NttMatrix([r0, r1, r2]), v) == NttVector([d0, d1, d2])
  {
    assert MatrixMulVec(NttMatrix([r0, r1, r2]), v).polys == [d0, d1, d2];
  }

  /** The transpose of the Rust test `ntt_matrix`. */
  lemma NttMatrixTransposeExample()
    ensures Transpose(ExampleMatrix())
      == NttMatrix([ConstVec([1, 4, 7]), ConstVec([2, 5, 8]), ConstVec([3, 6, 9])])
  {
    var t := Transpose(ExampleMatrix());
    var e := NttMatrix([ConstVec([1, 4, 7]), ConstVec([2, 5, 8]), ConstVec([3, 6, 9])]);
    forall i | 0 <= i < 3
      ensures t.rows[i] == e.rows[i]
    {
      assert t.rows[i].polys == e.rows[i].polys;
    }
    assert t.rows == e.rows;
  }
}
