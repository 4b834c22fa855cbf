/** The number-theoretic transform of ML-KEM (Algorithms 8 and 9 of FIPS 203,
    initial public draft): seven layers of butterflies over the 256
    coefficients, layer `l` pairing positions `Len(l) = 128 >> l` apart in
    `2^l` blocks, each block with its own power of zeta from
    `ZETA_POW_BITREV`.

    Each layer is first defined by value (`ForwardLayer`, `InverseLayer`,
    one butterfly per pair of positions) and the whole transform as the
    composition of its layers; the loop methods `NttLoop` and
    `NttInverseLoop` follow the Rust loops over `len`, `start` and `j`, with
    the running table index `k`, and are proved to compute the same arrays.
    The inverse transform undoes each forward layer up to a factor of 2,
    which the final multiplication by 3303 = 128^-1 mod q removes. */
module Ntt {
  import opened Bits
  import opened Field
  import opened Twiddles
  import opened Ring
  import Util

  // ---------------------------------------------------------------------
  // Layer geometry
  // ---------------------------------------------------------------------

  /** `len` in layer `l`: 128 in the first layer, halved in each next one. */
  function Len(l: nat): nat
    requires l < 7
  {
    Pow2(7 - l)
  }

  /** The blocks of layer `l` fill the array. */
  lemma LayerSize(l: nat)
    requires l < 7
    ensures 2 <= Len(l) && Pow2(l) * (2 * Len(l)) == 256
  {
    LayerGeometry(l);
  }

  /** The running table index of layer `l` stays within the table. */
  lemma LayerIndices(l: nat)
    requires l < 7
    ensures 2 <= Len(l) && Pow2(l) * (2 * Len(l)) == 256
    ensures Pow2(l + 1) == 2 * Pow2(l) <= 128
  {
    LayerGeometry(l);
  }

  lemma LayerGeometry(l: nat)
    requires l < 7
    ensures 2 <= Len(l) && 1 <= Pow2(l)
    ensures Pow2(l) * (2 * Len(l)) == 256
    ensures Pow2(l + 1) == 2 * Pow2(l) <= 128
    ensures l > 0 ==> Len(l - 1) == 2 * Len(l)
    ensures Len(l) == [128, 64, 32, 16, 8, 4, 2][l]
    ensures Len(l) == [2, 4, 8, 16, 32, 64, 128][6 - l]
  {
    Pow2Values();
    if l == 0 {
    } else if l == 1 {
    } else if l == 2 {
    } else if l == 3 {
    } else if l == 4 {
    } else if l == 5 {
    } else {
    }
  }

  /** Position `t` of block `b` of layer `l`; its butterfly partner is
      `Len(l)` further on. */
  function Pos(l: nat, b: nat, t: nat): (p: nat)
    requires l < 7 && b < Pow2(l) && t < Len(l)
    ensures p + Len(l) < 256
  {
    LayerGeometry(l);
    var w := 2 * Len(l);
    MulMono(w, b, Pow2(l) - 1);
    assert w * (Pow2(l) - 1) == 256 - w;
    w * b + t
  }

  /** Where the two positions of a butterfly sit in their block and in
      the blocks of the next layer. */
  lemma PairIndex(l: nat, b: nat, t: nat)
    requires l < 7 && b < Pow2(l) && t < Len(l)
    ensures Pos(l, b, t) / (2 * Len(l)) == b && Pos(l, b, t) % (2 * Len(l)) == t
    ensures (Pos(l, b, t) + Len(l)) / (2 * Len(l)) == b
    ensures (Pos(l, b, t) + Len(l)) % (2 * Len(l)) == t + Len(l)
    ensures Pos(l, b, t) % Len(l) == t && (Pos(l, b, t) + Len(l)) % Len(l) == t
  {
    assert Pos(l, b, t) == 2 * Len(l) * b + t;
    PairDivMod(Len(l), b, t);
  }

  /** Every position is one of the two positions of a butterfly. */
  lemma IndexPair(l: nat, i: nat) returns (b: nat, t: nat)
    requires l < 7 && i < 256
    ensures b < Pow2(l) && t < Len(l)
    ensures i == Pos(l, b, t) || i == Pos(l, b, t) + Len(l)
  {
    LayerSize(l);
    b, t := SplitIndex(i, Len(l), Pow2(l));
    assert Pos(l, b, t) == 2 * Len(l) * b + t;
  }

  /** The block index, the offset in the block and the partner of position
      `i` in layer `l`. */
  lemma LayerIndex(l: nat, i: nat)
    requires l < 7 && i < 256
    ensures 2 <= Len(l)
    ensures i / (2 * Len(l)) < Pow2(l)
    ensures i % (2 * Len(l)) < Len(l) ==> i + Len(l) < 256
    ensures i % (2 * Len(l)) >= Len(l) ==> i >= Len(l)
  {
    LayerGeometry(l);
    var b, t := IndexPair(l, i);
    PairIndex(l, b, t);
  }

  /** Two arrays that agree on both positions of every butterfly of a layer
      are equal. */
  lemma LayerPairs(l: nat, x: Coeffs, y: Coeffs)
    requires l < 7
    requires forall b: nat, t: nat | b < Pow2(l) && t < Len(l) ::
      x[Pos(l, b, t)] == y[Pos(l, b, t)] && x[Pos(l, b, t) + Len(l)] == y[Pos(l, b, t) + Len(l)]
    ensures x == y
  {
    forall i | 0 <= i < 256
      ensures x[i] == y[i]
    {
      var b, t := IndexPair(l, i);
    }
  }

  // ---------------------------------------------------------------------
  // The zetas of a layer
  // ---------------------------------------------------------------------

  /** The zeta of block `b` of layer `l` going forward: the running index
      `k` starts at 1 and counts up, so it is `2^l + b`. */
  function ForwardZeta(l: nat, b: nat): Fe
    requires l < 7 && b < Pow2(l)
  {
    LayerGeometry(l);
    ZetaPowBitrev(Pow2(l) + b)
  }

  /** The zeta of block `b` of layer `l` going back: the running index `k`
      starts at 127 and counts down from the last layer, so it is
      `2^(l+1) - 1 - b`. */
  function InverseZeta(l: nat, b: nat): Fe
    requires l < 7 && b < Pow2(l)
  {
    LayerGeometry(l);
    ZetaPowBitrev(Pow2(l + 1) - 1 - b)
  }

  /** The inverse reads the entry paired with the one the forward transform
      reads for the same block. */
  lemma InverseIndexPaired(l: nat, b: nat)
    requires l < 7 && b < Pow2(l)
    ensures 1 <= Pow2(l) + b < 128
    ensures PairedIndex(Pow2(l) + b) == Pow2(l + 1) - 1 - b
  {
    LayerGeometry(l);
    Pow2Values();
    if l == 0 {
    } else if l == 1 {
    } else if l == 2 {
    } else if l == 3 {
    } else if l == 4 {
    } else if l == 5 {
    } else {
    }
  }

  /** The two zetas of a block multiply to `-1`. */
  lemma ZetasPaired(l: nat, b: nat)
    requires l < 7 && b < Pow2(l)
    ensures Mul(ForwardZeta(l, b), InverseZeta(l, b)) == Q - 1
    ensures Mul(InverseZeta(l, b), ForwardZeta(l, b)) == Q - 1
  {
    InverseIndexPaired(l, b);
    ZetaPaired(Pow2(l) + b);
    MulCommutes(ForwardZeta(l, b), InverseZeta(l, b));
  }

  // ---------------------------------------------------------------------
  // One layer by value
  // ---------------------------------------------------------------------

  /** The block of layer `l` that position `i` belongs to. */
  function Block(l: nat, i: nat): (b: nat)
    requires l < 7 && i < 256
    ensures b < Pow2(l)
  {
    var w := 2 * Len(l);
    LayerSize(l);
    DivBelow(i, w, Pow2(l));
    i / w
  }

  /** Whether position `i` is the first position of its butterfly in layer `l`. */
  predicate Low(l: nat, i: nat)
    requires l < 7 && i < 256
  {
    LayerIndex(l, i);
    i % (2 * Len(l)) < Len(l)
  }

  /** The other position of the butterfly of position `i` in layer `l`. */
  function Partner(l: nat, i: nat): (p: nat)
    requires l < 7 && i < 256
    ensures p < 256
  {
    LayerIndex(l, i);
    if Low(l, i) then i + Len(l) else i - Len(l)
  }

  /** Output `i` of forward layer `l`: with `t = zeta * f[j + len]`, the
      butterfly on `(j, j + len)` stores `f[j] + t` at `j` and `f[j] - t` at
      `j + len`. */
  function ForwardAt(f: Coeffs, l: nat, i: nat): Fe
    requires l < 7 && i < 256
  {
    var zeta := ForwardZeta(l, Block(l, i));
    if Low(l, i) then Add(f[i], Mul(zeta, f[Partner(l, i)]))
    else Sub(f[Partner(l, i)], Mul(zeta, f[i]))
  }

  function ForwardLayer(f: Coeffs, l: nat): Coeffs
    requires l < 7
  {
    seq(256, i requires 0 <= i < 256 => ForwardAt(f, l, i))
  }

  /** Output `i` of inverse layer `l`: with `t = f[j]`, the butterfly on
      `(j, j + len)` stores `t + f[j + len]` at `j` and
      `zeta * (f[j + len] - t)` at `j + len`. */
  function InverseAt(f: Coeffs, l: nat, i: nat): Fe
    requires l < 7 && i < 256
  {
    var zeta := InverseZeta(l, Block(l, i));
    if Low(l, i) then Add(f[i], f[Partner(l, i)])
    else Mul(zeta, Sub(f[i], f[Partner(l, i)]))
  }

  function InverseLayer(f: Coeffs, l: nat): Coeffs
    requires l < 7
  {
    seq(256, i requires 0 <= i < 256 => InverseAt(f, l, i))
  }

  /** The butterfly of the forward layer on the pair `(Pos, Pos + len)`. */
  lemma ForwardPair(f: Coeffs, l: nat, b: nat, t: nat)
    requires l < 7 && b < Pow2(l) && t < Len(l)
    ensures ForwardLayer(f, l)[Pos(l, b, t)]
         == Add(f[Pos(l, b, t)], Mul(ForwardZeta(l, b), f[Pos(l, b, t) + Len(l)]))
    ensures ForwardLayer(f, l)[Pos(l, b, t) + Len(l)]
         == Sub(f[Pos(l, b, t)], Mul(ForwardZeta(l, b), f[Pos(l, b, t) + Len(l)]))
  {
    PairIndex(l, b, t);
  }

  /** The butterfly of the inverse layer on the pair `(Pos, Pos + len)`. */
  lemma InversePair(f: Coeffs, l: nat, b: nat, t: nat)
    requires l < 7 && b < Pow2(l) && t < Len(l)
    ensures InverseLayer(f, l)[Pos(l, b, t)] == Add(f[Pos(l, b, t)], f[Pos(l, b, t) + Len(l)])
    ensures InverseLayer(f, l)[Pos(l, b, t) + Len(l)]
         == Mul(InverseZeta(l, b), Sub(f[Pos(l, b, t) + Len(l)], f[Pos(l, b, t)]))
  {
    PairIndex(l, b, t);
  }

  // ---------------------------------------------------------------------
  // Butterfly algebra
  // ---------------------------------------------------------------------

  /** Swapping two factors of a product. */
  lemma MulSwap(x: Fe, y: Fe, s: Fe)
    ensures Mul(x, Mul(y, s)) == Mul(y, Mul(x, s))
  {
    MulAssociates(x, y, s);
    MulAssociates(y, x, s);
    MulCommutes(x, y);
  }

  /** The inverse butterfly with the paired zeta undoes the forward one up
      to a factor of 2. */
  lemma ButterflyRoundTrip(a: Fe, c: Fe, z: Fe, w: Fe)
    requires Mul(w, z) == Q - 1
    ensures Add(Add(a, Mul(z, c)), Sub(a, Mul(z, c))) == Mul(2, a)
    ensures Mul(w, Sub(Sub(a, Mul(z, c)), Add(a, Mul(z, c)))) == Mul(2, c)
  {
    var zc := Mul(z, c);
    ButterflySum(a, zc);
    MulTwo(a);
    ButterflyDifference(a, zc);
    MulNeg(w, Add(zc, zc));
    MulDistributes(w, zc, zc);
    MulAssociates(w, z, c);
    MulMinusOne(c);
    NegDouble(c);
    MulTwo(c);
  }

  /** The forward butterfly with the paired zeta undoes the inverse one up
      to a factor of 2. */
  lemma ButterflyRoundTripInverse(a: Fe, c: Fe, z: Fe, w: Fe)
    requires Mul(z, w) == Q - 1
    ensures Add(Add(a, c), Mul(z, Mul(w, Sub(c, a)))) == Mul(2, a)
    ensures Sub(Add(a, c), Mul(z, Mul(w, Sub(c, a)))) == Mul(2, c)
  {
    MulAssociates(z, w, Sub(c, a));
    MulMinusOne(Sub(c, a));
    SumAndNegatedDifference(a, c);
    MulTwo(a);
    MulTwo(c);
  }

  lemma SumAndNegatedDifference(a: Fe, c: Fe)
    ensures Add(Add(a, c), Sub(0, Sub(c, a))) == Add(a, a)
    ensures Sub(Add(a, c), Sub(0, Sub(c, a))) == Add(c, c)
  {
    var x: int := a;
    var y: int := c;
    ModSubBoth(0, y - x);
    ModAddBoth(x + y, x - y);
    ModSubBoth(x + y, x - y);
    assert (x + y) + (x - y) == x + x;
    assert (x + y) - (x - y) == y + y;
  }

  /** A forward butterfly commutes with scaling. */
  lemma ButterflyScale(k: Fe, a: Fe, c: Fe, z: Fe)
    ensures Add(Mul(k, a), Mul(z, Mul(k, c))) == Mul(k, Add(a, Mul(z, c)))
    ensures Sub(Mul(k, a), Mul(z, Mul(k, c))) == Mul(k, Sub(a, Mul(z, c)))
  {
    MulSwap(z, k, c);
    MulDistributes(k, a, Mul(z, c));
    MulDistributesSub(k, a, Mul(z, c));
  }

  /** An inverse butterfly commutes with scaling. */
  lemma InverseButterflyScale(k: Fe, a: Fe, c: Fe, w: Fe)
    ensures Add(Mul(k, a), Mul(k, c)) == Mul(k, Add(a, c))
    ensures Mul(w, Sub(Mul(k, c), Mul(k, a))) == Mul(k, Mul(w, Sub(c, a)))
  {
    MulDistributes(k, a, c);
    MulDistributesSub(k, c, a);
    MulSwap(w, k, Sub(c, a));
  }

  /** A forward butterfly is additive. */
  lemma ButterflyAdd(a: Fe, c: Fe, a': Fe, c': Fe, z: Fe)
    ensures Add(Add(a, a'), Mul(z, Add(c, c'))) == Add(Add(a, Mul(z, c)), Add(a', Mul(z, c')))
    ensures Sub(Add(a, a'), Mul(z, Add(c, c'))) == Add(Sub(a, Mul(z, c)), Sub(a', Mul(z, c')))
  {
    MulDistributes(z, c, c');
    AddInterchange(a, a', Mul(z, c), Mul(z, c'));
    SubInterchange(a, a', Mul(z, c), Mul(z, c'));
  }

  /** An inverse butterfly is additive. */
  lemma InverseButterflyAdd(a: Fe, c: Fe, a': Fe, c': Fe, w: Fe)
    ensures Add(Add(a, a'), Add(c, c')) == Add(Add(a, c), Add(a', c'))
    ensures Mul(w, Sub(Add(c, c'), Add(a, a'))) == Add(Mul(w, Sub(c, a)), Mul(w, Sub(c', a')))
  {
    AddInterchange(a, a', c, c');
    SubInterchange(c, c', a, a');
    MulDistributes(w, Sub(c, a), Sub(c', a'));
  }

  // ---------------------------------------------------------------------
  // Laws of one layer
  // ---------------------------------------------------------------------

  /** Inverse layer `l` undoes forward layer `l` up to a factor of 2. */
  lemma InverseForwardLayer(f: Coeffs, l: nat)
    requires l < 7
    ensures InverseLayer(ForwardLayer(f, l), l) == Scale(2, Polynomial(f)).f
  {
    var g := ForwardLayer(f, l);
    forall b: nat, t: nat | b < Pow2(l) && t < Len(l)
      ensures InverseLayer(g, l)[Pos(l, b, t)] == Scale(2, Polynomial(f)).f[Pos(l, b, t)]
      ensures InverseLayer(g, l)[Pos(l, b, t) + Len(l)] == Scale(2, Polynomial(f)).f[Pos(l, b, t) + Len(l)]
    {
      ForwardPair(f, l, b, t);
      InversePair(g, l, b, t);
      ZetasPaired(l, b);
      ButterflyRoundTrip(f[Pos(l, b, t)], f[Pos(l, b, t) + Len(l)], ForwardZeta(l, b), InverseZeta(l, b));
    }
    LayerPairs(l, InverseLayer(g, l), Scale(2, Polynomial(f)).f);
  }

  /** Forward layer `l` undoes inverse layer `l` up to a factor of 2. */
  lemma ForwardInverseLayer(f: Coeffs, l: nat)
    requires l < 7
    ensures ForwardLayer(InverseLayer(f, l), l) == Scale(2, Polynomial(f)).f
  {
    var g := InverseLayer(f, l);
    forall b: nat, t: nat | b < Pow2(l) && t < Len(l)
      ensures ForwardLayer(g, l)[Pos(l, b, t)] == Scale(2, Polynomial(f)).f[Pos(l, b, t)]
      ensures ForwardLayer(g, l)[Pos(l, b, t) + Len(l)] == Scale(2, Polynomial(f)).f[Pos(l, b, t) + Len(l)]
    {
      InversePair(f, l, b, t);
      ForwardPair(g, l, b, t);
      ZetasPaired(l, b);
      ButterflyRoundTripInverse(f[Pos(l, b, t)], f[Pos(l, b, t) + Len(l)], ForwardZeta(l, b), InverseZeta(l, b));
    }
    LayerPairs(l, ForwardLayer(g, l), Scale(2, Polynomial(f)).f);
  }

  /** A forward layer commutes with scaling. */
  lemma ForwardLayerScale(f: Coeffs, k: Fe, l: nat)
    requires l < 7
    ensures ForwardLayer(Scale(k, Polynomial(f)).f, l) == Scale(k, Polynomial(ForwardLayer(f, l))).f
  {
    var s := Scale(k, Polynomial(f)).f;
    forall b: nat, t: nat | b < Pow2(l) && t < Len(l)
      ensures ForwardLayer(s, l)[Pos(l, b, t)] == Scale(k, Polynomial(ForwardLayer(f, l))).f[Pos(l, b, t)]
      ensures ForwardLayer(s, l)[Pos(l, b, t) + Len(l)]
           == Scale(k, Polynomial(ForwardLayer(f, l))).f[Pos(l, b, t) + Len(l)]
    {
      ForwardPair(f, l, b, t);
      ForwardPair(s, l, b, t);
      ButterflyScale(k, f[Pos(l, b, t)], f[Pos(l, b, t) + Len(l)], ForwardZeta(l, b));
    }
    LayerPairs(l, ForwardLayer(s, l), Scale(k, Polynomial(ForwardLayer(f, l))).f);
  }

  /** An inverse layer commutes with scaling. */
  lemma InverseLayerScale(f: Coeffs, k: Fe, l: nat)
    requires l < 7
    ensures InverseLayer(Scale(k, Polynomial(f)).f, l) == Scale(k, Polynomial(InverseLayer(f, l))).f
  {
    var s := Scale(k, Polynomial(f)).f;
    forall b: nat, t: nat | b < Pow2(l) && t < Len(l)
      ensures InverseLayer(s, l)[Pos(l, b, t)] == Scale(k, Polynomial(InverseLayer(f, l))).f[Pos(l, b, t)]
      ensures InverseLayer(s, l)[Pos(l, b, t) + Len(l)]
           == Scale(k, Polynomial(InverseLayer(f, l))).f[Pos(l, b, t) + Len(l)]
    {
      InversePair(f, l, b, t);
      InversePair(s, l, b, t);
      InverseButterflyScale(k, f[Pos(l, b, t)], f[Pos(l, b, t) + Len(l)], InverseZeta(l, b));
    }
    LayerPairs(l, InverseLayer(s, l), Scale(k, Polynomial(InverseLayer(f, l))).f);
  }

  /** A forward layer is additive. */
  lemma ForwardLayerAdd(f: Coeffs, g: Coeffs, l: nat)
    requires l < 7
    ensures ForwardLayer(PolyAdd(Polynomial(f), Polynomial(g)).f, l)
         == PolyAdd(Polynomial(ForwardLayer(f, l)), Polynomial(ForwardLayer(g, l))).f
  {
    var s := PolyAdd(Polynomial(f), Polynomial(g)).f;
    var r := PolyAdd(Polynomial(ForwardLayer(f, l)), Polynomial(ForwardLayer(g, l))).f;
    forall b: nat, t: nat | b < Pow2(l) && t < Len(l)
      ensures ForwardLayer(s, l)[Pos(l, b, t)] == r[Pos(l, b, t)]
      ensures ForwardLayer(s, l)[Pos(l, b, t) + Len(l)] == r[Pos(l, b, t) + Len(l)]
    {
      ForwardPair(f, l, b, t);
      ForwardPair(g, l, b, t);
      ForwardPair(s, l, b, t);
      var p := Pos(l, b, t);
      ButterflyAdd(f[p], f[p + Len(l)], g[p], g[p + Len(l)], ForwardZeta(l, b));
    }
    LayerPairs(l, ForwardLayer(s, l), r);
  }

  /** An inverse layer is additive. */
  lemma InverseLayerAdd(f: Coeffs, g: Coeffs, l: nat)
    requires l < 7
    ensures InverseLayer(PolyAdd(Polynomial(f), Polynomial(g)).f, l)
         == PolyAdd(Polynomial(InverseLayer(f, l)), Polynomial(InverseLayer(g, l))).f
  {
    var s := PolyAdd(Polynomial(f), Polynomial(g)).f;
    var r := PolyAdd(Polynomial(InverseLayer(f, l)), Polynomial(InverseLayer(g, l))).f;
    forall b: nat, t: nat | b < Pow2(l) && t < Len(l)
      ensures InverseLayer(s, l)[Pos(l, b, t)] == r[Pos(l, b, t)]
      ensures InverseLayer(s, l)[Pos(l, b, t) + Len(l)] == r[Pos(l, b, t) + Len(l)]
    {
      InversePair(f, l, b, t);
      InversePair(g, l, b, t);
      InversePair(s, l, b, t);
      var p := Pos(l, b, t);
      InverseButterflyAdd(f[p], f[p + Len(l)], g[p], g[p + Len(l)], InverseZeta(l, b));
    }
    LayerPairs(l, InverseLayer(s, l), r);
  }

  // ---------------------------------------------------------------------
  // The transforms
  // ---------------------------------------------------------------------

  /** The first `n` forward layers, in order. */
  function NttLayers(f: Coeffs, n: nat): Coeffs
    requires n <= 7
  {
    if n == 0 then f else ForwardLayer(NttLayers(f, n - 1), n - 1)
  }

  /** The inverse layers `n - 1` down to 0, in that order. */
  function InverseLayers(f: Coeffs, n: nat): Coeffs
    requires n <= 7
    decreases n
  {
    if n == 0 then f else InverseLayers(InverseLayer(f, n - 1), n - 1)
  }

  /** `2^n` in the field. */
  function Doubling(n: nat): Fe
  {
    if n == 0 then 1 else Mul(2, Doubling(n - 1))
  }

  /** The factor that undoes the seven doublings of the inverse layers:
      `3303 * 128 == 1` modulo `Q`. */
  const INVERSE_SCALE: Fe := 3303

  /** `Polynomial::ntt`. */
  function Ntt(p: Polynomial): NttPolynomial
  {
    NttPolynomial(NttLayers(p.f, 7))
  }

  /** `NttPolynomial::ntt_inverse`: the inverse layers, then every
      coefficient times 3303. */
  function NttInverse(p: NttPolynomial): Polynomial
  {
    Scale(INVERSE_SCALE, Polynomial(InverseLayers(p.f, 7)))
  }

  lemma InverseScaleCancels()
    ensures Doubling(7) == 128
    ensures Mul(INVERSE_SCALE, Doubling(7)) == 1
  {
    assert Doubling(1) == 2;
    assert Doubling(2) == 4;
    assert Doubling(3) == 8;
    assert Doubling(4) == 16;
    assert Doubling(5) == 32;
    assert Doubling(6) == 64;
    assert Doubling(7) == 128;
    assert 3303 * 128 == 422784 == 127 * Q + 1;
  }

  lemma {:induction false} NttLayersScale(f: Coeffs, k: Fe, n: nat)
    requires n <= 7
    ensures NttLayers(Scale(k, Polynomial(f)).f, n) == Scale(k, Polynomial(NttLayers(f, n))).f
  {
    if n > 0 {
      NttLayersScale(f, k, n - 1);
      ForwardLayerScale(NttLayers(f, n - 1), k, n - 1);
    }
  }

  lemma {:induction false} InverseLayersScale(f: Coeffs, k: Fe, n: nat)
    requires n <= 7
    ensures InverseLayers(Scale(k, Polynomial(f)).f, n) == Scale(k, Polynomial(InverseLayers(f, n))).f
    decreases n
  {
    if n > 0 {
      InverseLayerScale(f, k, n - 1);
      InverseLayersScale(InverseLayer(f, n - 1), k, n - 1);
    }
  }

  lemma {:induction false} NttLayersAdd(f: Coeffs, g: Coeffs, n: nat)
    requires n <= 7
    ensures NttLayers(PolyAdd(Polynomial(f), Polynomial(g)).f, n)
         == PolyAdd(Polynomial(NttLayers(f, n)), Polynomial(NttLayers(g, n))).f
  {
    if n > 0 {
      NttLayersAdd(f, g, n - 1);
      ForwardLayerAdd(NttLayers(f, n - 1), NttLayers(g, n - 1), n - 1);
    }
  }

  lemma {:induction false} InverseLayersAdd(f: Coeffs, g: Coeffs, n: nat)
    requires n <= 7
    ensures InverseLayers(PolyAdd(Polynomial(f), Polynomial(g)).f, n)
         == PolyAdd(Polynomial(InverseLayers(f, n)), Polynomial(InverseLayers(g, n))).f
    decreases n
  {
    if n > 0 {
      InverseLayerAdd(f, g, n - 1);
      InverseLayersAdd(InverseLayer(f, n - 1), InverseLayer(g, n - 1), n - 1);
    }
  }

  /** The inverse layers undo the forward layers up to a factor of `2^n`. */
  lemma {:induction false} InverseAfterForward(f: Coeffs, n: nat)
    requires n <= 7
    ensures InverseLayers(NttLayers(f, n), n) == Scale(Doubling(n), Polynomial(f)).f
  {
    if n == 0 {
      ScaleOne(Polynomial(f));
    } else {
      var x := NttLayers(f, n - 1);
      InverseForwardLayer(x, n - 1);
      assert InverseLayers(NttLayers(f, n), n) == InverseLayers(Scale(2, Polynomial(x)).f, n - 1);
      InverseLayersScale(x, 2, n - 1);
      InverseAfterForward(f, n - 1);
      assert Polynomial(InverseLayers(x, n - 1)) == Scale(Doubling(n - 1), Polynomial(f));
      ScaleScale(2, Doubling(n - 1), Polynomial(f));
    }
  }

  /** The forward layers undo the inverse layers up to a factor of `2^n`. */
  lemma {:induction false} ForwardAfterInverse(g: Coeffs, n: nat)
    requires n <= 7
    ensures NttLayers(InverseLayers(g, n), n) == Scale(Doubling(n), Polynomial(g)).f
    decreases n
  {
    if n == 0 {
      ScaleOne(Polynomial(g));
    } else {
      var y := InverseLayer(g, n - 1);
      ForwardAfterInverse(y, n - 1);
      ForwardLayerScale(y, Doubling(n - 1), n - 1);
      ForwardInverseLayer(g, n - 1);
      ScaleScale(Doubling(n - 1), 2, Polynomial(g));
      MulCommutes(Doubling(n - 1), 2);
    }
  }

  /** `ntt_inverse(ntt(f)) == f`. */
  lemma NttRoundTrip(p: Polynomial)
    ensures NttInverse(Ntt(p)) == p
  {
    InverseAfterForward(p.f, 7);
    InverseScaleCancels();
    ScaleScale(INVERSE_SCALE, Doubling(7), p);
    ScaleOne(p);
  }

  /** `ntt(ntt_inverse(g)) == g`: the transform is a bijection. */
  lemma NttInverseRoundTrip(g: NttPolynomial)
    ensures Ntt(NttInverse(g)) == g
  {
    var x := InverseLayers(g.f, 7);
    NttLayersScale(x, INVERSE_SCALE, 7);
    ForwardAfterInverse(g.f, 7);
    InverseScaleCancels();
    ScaleScale(INVERSE_SCALE, Doubling(7), Polynomial(g.f));
    ScaleOne(Polynomial(g.f));
  }

  /** The NTT is additive. */
  lemma NttAdditive(f: Polynomial, g: Polynomial)
    ensures Ntt(PolyAdd(f, g)) == NttAdd(Ntt(f), Ntt(g))
  {
    NttLayersAdd(f.f, g.f, 7);
  }

  /** The inverse NTT is additive. */
  lemma NttInverseAdditive(a: NttPolynomial, b: NttPolynomial)
    ensures NttInverse(NttAdd(a, b)) == PolyAdd(NttInverse(a), NttInverse(b))
  {
    InverseLayersAdd(a.f, b.f, 7);
    ScaleDistributes(INVERSE_SCALE, Polynomial(InverseLayers(a.f, 7)), Polynomial(InverseLayers(b.f, 7)));
  }

  /** The sum of two transforms transforms back to the sum of the
      polynomials, as the Rust test `ntt` checks. */
  lemma NttSumRoundTrip(f: Polynomial, g: Polynomial)
    ensures NttInverse(NttAdd(Ntt(f), Ntt(g))) == PolyAdd(f, g)
  {
    NttAdditive(f, g);
    NttRoundTrip(PolyAdd(f, g));
  }

  // ---------------------------------------------------------------------
  // The transform of a constant
  // ---------------------------------------------------------------------

  /** `x` at every multiple of `m`, 0 elsewhere. */
  function Spread(x: Fe, m: nat): Coeffs
    requires m > 0
  {
    seq(256, i requires 0 <= i < 256 => if i % m == 0 then x else 0)
  }

  /** One butterfly of forward layer `l` on a constant spread `2 * len`
      apart: the odd half is 0, so both outputs copy the even input. */
  lemma SpreadPair(x: Fe, l: nat, b: nat, t: nat)
    requires l < 7 && b < Pow2(l) && t < Len(l)
    ensures Len(l) > 0
    ensures ForwardLayer(Spread(x, 2 * Len(l)), l)[Pos(l, b, t)] == Spread(x, Len(l))[Pos(l, b, t)]
    ensures ForwardLayer(Spread(x, 2 * Len(l)), l)[Pos(l, b, t) + Len(l)]
         == Spread(x, Len(l))[Pos(l, b, t) + Len(l)]
  {
    LayerGeometry(l);
    var len, p := Len(l), Pos(l, b, t);
    var s, r := Spread(x, 2 * len), Spread(x, len);
    PairIndex(l, b, t);
    SpreadValues(x, len, p, t);
    ForwardPair(s, l, b, t);
    ZeroButterfly(s[p], s[p + len], ForwardZeta(l, b));
  }

  /** A butterfly whose second input is 0 copies its first input to both outputs. */
  lemma ZeroButterfly(a: Fe, c: Fe, z: Fe)
    requires c == 0
    ensures Add(a, Mul(z, c)) == a && Sub(a, Mul(z, c)) == a
  {
    assert z * c == 0;
  }

  /** The entries of spread constants at the two positions of a butterfly. */
  lemma SpreadValues(x: Fe, len: nat, p: nat, t: nat)
    requires 0 < len && t < len && p + len < 256
    requires p % (2 * len) == t && (p + len) % (2 * len) == t + len
    requires p % len == t && (p + len) % len == t
    ensures Spread(x, 2 * len)[p] == (if t == 0 then x else 0) && Spread(x, 2 * len)[p + len] == 0
    ensures Spread(x, len)[p] == (if t == 0 then x else 0)
    ensures Spread(x, len)[p + len] == (if t == 0 then x else 0)
  {
  }

  /** Forward layer `l` halves the spacing of a spread constant. */
  lemma SpreadLayer(x: Fe, l: nat)
    requires l < 7
    ensures Len(l) > 0
    ensures ForwardLayer(Spread(x, 2 * Len(l)), l) == Spread(x, Len(l))
  {
    LayerGeometry(l);
    forall b: nat, t: nat | b < Pow2(l) && t < Len(l)
      ensures ForwardLayer(Spread(x, 2 * Len(l)), l)[Pos(l, b, t)] == Spread(x, Len(l))[Pos(l, b, t)]
      ensures ForwardLayer(Spread(x, 2 * Len(l)), l)[Pos(l, b, t) + Len(l)]
           == Spread(x, Len(l))[Pos(l, b, t) + Len(l)]
    {
      SpreadPair(x, l, b, t);
    }
    LayerPairs(l, ForwardLayer(Spread(x, 2 * Len(l)), l), Spread(x, Len(l)));
  }

  /** After `n` layers the constant `x` is spread `256 >> n` apart. */
  lemma {:induction false} NttLayersOfConstant(x: Fe, n: nat)
    requires 0 < n <= 7
    ensures Len(n - 1) > 0
    ensures NttLayers(ConstPoly(x).f, n) == Spread(x, Len(n - 1))
  {
    LayerGeometry(n - 1);
    if n == 1 {
      assert ConstPoly(x).f == Spread(x, 2 * Len(0));
    } else {
      NttLayersOfConstant(x, n - 1);
      LayerGeometry(n - 2);
    }
    SpreadLayer(x, n - 1);
  }

  /** The NTT of the constant polynomial `x` is `ConstNtt(x)`: `x` in every
      even slot, 0 in every odd one. */
  lemma NttOfConstant(x: Fe)
    ensures Ntt(ConstPoly(x)) == ConstNtt(x)
  {
    NttLayersOfConstant(x, 7);
    LayerGeometry(6);
  }

  // ---------------------------------------------------------------------
  // The Rust loops
  // ---------------------------------------------------------------------

  /** The blocks of a layer start `2 * len` apart and fill the array. */
  lemma BlockStarts(l: nat, b: nat)
    requires l < 7 && b <= Pow2(l)
    ensures 2 * Len(l) * (b + 1) == 2 * Len(l) * b + 2 * Len(l)
    ensures 2 * Len(l) * b < 256 <==> b < Pow2(l)
    ensures 2 * Len(l) * b >= 256 ==> b == Pow2(l)
    ensures b < Pow2(l) ==> 2 * Len(l) * b + 2 * Len(l) <= 256
  {
    LayerGeometry(l);
    var w := 2 * Len(l);
    assert w * (b + 1) == w * b + w;
    if b < Pow2(l) {
      MulMono(w, b + 1, Pow2(l));
      assert w * Pow2(l) == 256;
    } else {
      assert w * b == 256;
    }
  }

  /** Both outputs of the forward butterfly on `(p, p + len)` with `zeta`,
      on input `g`, are in place in `h`. */
  predicate ButterflyDone(h: Coeffs, g: Coeffs, p: nat, len: nat, zeta: Fe)
    requires p + len < 256
  {
    h[p] == Add(g[p], Mul(zeta, g[p + len])) && h[p + len] == Sub(g[p], Mul(zeta, g[p + len]))
  }

  /** Both outputs of the inverse butterfly on `(p, p + len)` with `zeta`,
      on input `g`, are in place in `h`. */
  predicate InverseButterflyDone(h: Coeffs, g: Coeffs, p: nat, len: nat, zeta: Fe)
    requires p + len < 256
  {
    h[p] == Add(g[p], g[p + len]) && h[p + len] == Mul(zeta, Sub(g[p + len], g[p]))
  }

  /** The forward butterfly `(b, t)` of layer `l` is done. */
  predicate ForwardDone(h: Coeffs, g: Coeffs, l: nat, b: nat, t: nat)
    requires l < 7 && b < Pow2(l) && t < Len(l)
  {
    ButterflyDone(h, g, Pos(l, b, t), Len(l), ForwardZeta(l, b))
  }

  /** The inverse butterfly `(b, t)` of layer `l` is done. */
  predicate InverseDone(h: Coeffs, g: Coeffs, l: nat, b: nat, t: nat)
    requires l < 7 && b < Pow2(l) && t < Len(l)
  {
    InverseButterflyDone(h, g, Pos(l, b, t), Len(l), InverseZeta(l, b))
  }

  /** An array holding the output of every forward butterfly of a layer is
      the layer's output. */
  lemma ForwardLayerDone(h: Coeffs, g: Coeffs, l: nat)
    requires l < 7
    requires forall b: nat, t: nat | b < Pow2(l) && t < Len(l) :: ForwardDone(h, g, l, b, t)
    ensures h == ForwardLayer(g, l)
  {
    forall b: nat, t: nat | b < Pow2(l) && t < Len(l)
      ensures h[Pos(l, b, t)] == ForwardLayer(g, l)[Pos(l, b, t)]
      ensures h[Pos(l, b, t) + Len(l)] == ForwardLayer(g, l)[Pos(l, b, t) + Len(l)]
    {
      assert ForwardDone(h, g, l, b, t);
      ForwardPair(g, l, b, t);
    }
    LayerPairs(l, h, ForwardLayer(g, l));
  }

  /** An array holding the output of every inverse butterfly of a layer is
      the layer's output. */
  lemma InverseLayerDone(h: Coeffs, g: Coeffs, l: nat)
    requires l < 7
    requires forall b: nat, t: nat | b < Pow2(l) && t < Len(l) :: InverseDone(h, g, l, b, t)
    ensures h == InverseLayer(g, l)
  {
    forall b: nat, t: nat | b < Pow2(l) && t < Len(l)
      ensures h[Pos(l, b, t)] == InverseLayer(g, l)[Pos(l, b, t)]
      ensures h[Pos(l, b, t) + Len(l)] == InverseLayer(g, l)[Pos(l, b, t) + Len(l)]
    {
      assert InverseDone(h, g, l, b, t);
      InversePair(g, l, b, t);
    }
    LayerPairs(l, h, InverseLayer(g, l));
  }

  /** The butterflies of earlier blocks lie before the start of block `b`,
      and block `b` ends within the array. */
  lemma EarlierBlocks(l: nat, b: nat)
    requires l < 7 && b < Pow2(l)
    ensures Pos(l, b, 0) + 2 * Len(l) <= 256
    ensures forall c: nat, t: nat | c < b && t < Len(l) :: Pos(l, c, t) + Len(l) < Pos(l, b, 0)
    ensures forall t: nat | t < Len(l) :: Pos(l, b, t) == Pos(l, b, 0) + t
  {
    LayerGeometry(l);
    var w := 2 * Len(l);
    MulMono(w, b + 1, Pow2(l));
    assert w * (b + 1) == w * b + w;
    forall c: nat, t: nat | c < b && t < Len(l)
      ensures Pos(l, c, t) + Len(l) < Pos(l, b, 0)
    {
      MulMono(w, c + 1, b);
      assert w * (c + 1) == w * c + w;
    }
  }

  /** After block `b` of a forward layer, the butterflies of blocks `0 .. b`
      are done: the block's own are in place and the earlier ones, which lie
      before it, are untouched. */
  lemma ForwardBlockStep(h: Coeffs, h': Coeffs, f: Coeffs, l: nat, b: nat, start: nat, zeta: Fe)
    requires l < 7 && b < Pow2(l) && start == 2 * Len(l) * b && zeta == ForwardZeta(l, b)
    requires start + 2 * Len(l) <= 256
    requires forall c: nat, t: nat | c < b && t < Len(l) :: ForwardDone(h, f, l, c, t)
    requires forall j | start <= j < start + Len(l) :: ButterflyDone(h', f, j, Len(l), zeta)
    requires forall i | 0 <= i < start :: h'[i] == h[i]
    ensures forall c: nat, t: nat | c <= b && t < Len(l) :: ForwardDone(h', f, l, c, t)
  {
    var len := Len(l);
    EarlierBlocks(l, b);
    forall c: nat, t: nat | c <= b && t < len
      ensures ForwardDone(h', f, l, c, t)
    {
      if c < b {
        var p := Pos(l, c, t);
        assert ForwardDone(h, f, l, c, t);
        assert p + len < start;
        assert h'[p] == h[p] && h'[p + len] == h[p + len];
      } else {
        assert Pos(l, b, t) == start + t;
        assert ButterflyDone(h', f, start + t, len, zeta);
      }
    }
  }

  /** The `j` loop of `ntt` over one block: `len` butterflies with the same
      `zeta`, on the array `f` that holds the layer's input `g` on the
      block. */
  method ForwardBlock(f: Coeffs, g: Coeffs, start: nat, len: nat, zeta: Fe) returns (h: Coeffs)
    requires start + 2 * len <= 256
    requires forall i | start <= i < start + 2 * len :: f[i] == g[i]
    ensures forall j | start <= j < start + len :: ButterflyDone(h, g, j, len, zeta)
    ensures forall i | 0 <= i < 256 && !(start <= i < start + 2 * len) :: h[i] == f[i]
  {
    h := f;
    for j := start to start + len
      invariant forall p | start <= p < j :: ButterflyDone(h, g, p, len, zeta)
      invariant forall i | 0 <= i < 256 && !(start <= i < j || start + len <= i < j + len) :: h[i] == f[i]
    {
      ghost var h0 := h;
      assert h0[j] == g[j] && h0[j + len] == g[j + len];
      var t := BarrettMul(zeta, h[j + len]);
      h := h[j + len := ReducedSub(h[j], t)];
      h := h[j := ReducedAdd(h[j], t)];
      forall p | start <= p < j
        ensures ButterflyDone(h, g, p, len, zeta)
      {
        assert ButterflyDone(h0, g, p, len, zeta);
        assert h[p] == h0[p] && h[p + len] == h0[p + len];
      }
    }
  }

  /** The `start` loop of `ntt` over the blocks of layer `l`: block `b`
      reads `ZETA_POW_BITREV[k]` and the running index `k` counts up from
      `2^l` to `2^(l+1)`. */
  method ForwardLayerLoop(f: Coeffs, l: nat, len: nat, k: nat) returns (h: Coeffs, k': nat)
    requires l < 7 && len == Len(l) && k == Pow2(l)
    ensures h == ForwardLayer(f, l) && k' == Pow2(l + 1)
  {
    LayerIndices(l);
    h, k' := f, k;
    var start, b := 0, 0;
    while start < 256
      invariant b <= Pow2(l) && start == 2 * len * b && k' == Pow2(l) + b
      invariant forall c: nat, t: nat | c < b && t < len :: ForwardDone(h, f, l, c, t)
      invariant forall i | start <= i < 256 :: h[i] == f[i]
      decreases 256 - start
    {
      BlockStarts(l, b);
      var zeta := ZetaPowBitrevEntry(k');
      k' := k' + 1;
      var h' := ForwardBlock(h, f, start, len, zeta);
      ForwardBlockStep(h, h', f, l, b, start, zeta);
      h := h';
      start := start + 2 * len;
      b := b + 1;
    }
    BlockStarts(l, b);
    ForwardLayerDone(h, f, l);
  }

  /** `Polynomial::ntt` as written: the layers for `len` = 128 down to 2,
      with the table index `k` running from 1 to 127. */
  method NttLoop(p: Polynomial) returns (r: NttPolynomial)
    ensures r == Ntt(p)
  {
    var f := p.f;
    var k := 1;
    var lens := [128, 64, 32, 16, 8, 4, 2];
    for l := 0 to 7
      invariant f == NttLayers(p.f, l) && k == Pow2(l)
    {
      LayerGeometry(l);
      f, k := ForwardLayerLoop(f, l, lens[l], k);
    }
    r := NttPolynomial(f);
  }

  /** After block `b` of a inverse layer, the butterflies of blocks `0 .. b`
      are done: the block's own are in place and the earlier ones, which lie
      before it, are untouched. */
  lemma InverseBlockStep(h: Coeffs, h': Coeffs, f: Coeffs, l: nat, b: nat, start: nat, zeta: Fe)
    requires l < 7 && b < Pow2(l) && start == 2 * Len(l) * b && zeta == InverseZeta(l, b)
    requires start + 2 * Len(l) <= 256
    requires forall c: nat, t: nat | c < b && t < Len(l) :: InverseDone(h, f, l, c, t)
    requires forall j | start <= j < start + Len(l) :: InverseButterflyDone(h', f, j, Len(l), zeta)
    requires forall i | 0 <= i < start :: h'[i] == h[i]
    ensures forall c: nat, t: nat | c <= b && t < Len(l) :: InverseDone(h', f, l, c, t)
  {
    var len := Len(l);
    EarlierBlocks(l, b);
    forall c: nat, t: nat | c <= b && t < len
      ensures InverseDone(h', f, l, c, t)
    {
      if c < b {
        var p := Pos(l, c, t);
        assert InverseDone(h, f, l, c, t);
        assert p + len < start;
        assert h'[p] == h[p] && h'[p + len] == h[p + len];
      } else {
        assert Pos(l, b, t) == start + t;
        assert InverseButterflyDone(h', f, start + t, len, zeta);
      }
    }
  }

  /** The `j` loop of `ntt_inverse` over one block, on the array `f` that
      holds the layer's input `g` on the block. */
  method InverseBlock(f: Coeffs, g: Coeffs, start: nat, len: nat, zeta: Fe) returns (h: Coeffs)
    requires start + 2 * len <= 256
    requires forall i | start <= i < start + 2 * len :: f[i] == g[i]
    ensures forall j | start <= j < start + len :: InverseButterflyDone(h, g, j, len, zeta)
    ensures forall i | 0 <= i < 256 && !(start <= i < start + 2 * len) :: h[i] == f[i]
  {
    h := f;
    for j := start to start + len
      invariant forall p | start <= p < j :: InverseButterflyDone(h, g, p, len, zeta)
      invariant forall i | 0 <= i < 256 && !(start <= i < j || start + len <= i < j + len) :: h[i] == f[i]
    {
      ghost var h0 := h;
      assert h0[j] == g[j] && h0[j + len] == g[j + len];
      var t := h[j];
      h := h[j := ReducedAdd(t, h[j + len])];
      var d := ReducedSub(h[j + len], t);
      var m := BarrettMul(zeta, d);
      h := h[j + len := m];
      forall p | start <= p < j
        ensures InverseButterflyDone(h, g, p, len, zeta)
      {
        assert InverseButterflyDone(h0, g, p, len, zeta);
        assert h[p] == h0[p] && h[p + len] == h0[p + len];
      }
    }
  }

  /** The `start` loop of `ntt_inverse` over the blocks of layer `l`: the
      running index `k` counts down from `2^(l+1) - 1` to `2^l - 1`. */
  method InverseLayerLoop(f: Coeffs, l: nat, len: nat, k: nat) returns (h: Coeffs, k': nat)
    requires l < 7 && len == Len(l) && k == Pow2(l + 1) - 1
    ensures h == InverseLayer(f, l) && k' == Pow2(l) - 1
  {
    LayerIndices(l);
    h, k' := f, k;
    var start, b := 0, 0;
    while start < 256
      invariant b <= Pow2(l) && start == 2 * len * b && k' == Pow2(l + 1) - 1 - b
      invariant forall c: nat, t: nat | c < b && t < len :: InverseDone(h, f, l, c, t)
      invariant forall i | start <= i < 256 :: h[i] == f[i]
      decreases 256 - start
    {
      BlockStarts(l, b);
      var zeta := ZetaPowBitrevEntry(k');
      k' := k' - 1;
      var h' := InverseBlock(h, f, start, len, zeta);
      InverseBlockStep(h, h', f, l, b, start, zeta);
      h := h';
      start := start + 2 * len;
      b := b + 1;
    }
    BlockStarts(l, b);
    InverseLayerDone(h, f, l);
  }

  /** `NttPolynomial::ntt_inverse` as written: the layers for `len` = 2 up
      to 128, with the table index `k` running from 127 down to 1, then
      every coefficient times 3303. */
  method NttInverseLoop(g: NttPolynomial) returns (r: Polynomial)
    ensures r == NttInverse(g)
  {
    var f: Coeffs := Util.FastClone(g.f);
    var k := 127;
    var lens := [2, 4, 8, 16, 32, 64, 128];
    Pow2Values();
    for m := 0 to 7
      invariant InverseLayers(f, 7 - m) == InverseLayers(g.f, 7)
      invariant k == Pow2(7 - m) - 1
    {
      var l := 6 - m;
      LayerGeometry(l);
      f, k := InverseLayerLoop(f, l, lens[m], k);
    }
    r := MultiplyScalar(INVERSE_SCALE, Polynomial(f));
  }

  // ---------------------------------------------------------------------
  // Vectors
  // ---------------------------------------------------------------------

  /** `PolynomialVector::ntt`: every entry transformed. */
  function VecNtt(v: PolynomialVector): (r: NttVector)
    ensures |r.polys| == |v.polys|
  {
    NttVector(Util.Map(v.polys, Ntt))
  }

  /** `NttVector::ntt_inverse`: every entry transformed back. */
  function VecNttInverse(v: NttVector): (r: PolynomialVector)
    ensures |r.polys| == |v.polys|
  {
    PolynomialVector(Util.Map(v.polys, NttInverse))
  }

  /** The vector transforms are inverse bijections, entry by entry. */
  lemma VecNttRoundTrip(v: PolynomialVector, w: NttVector)
    ensures VecNttInverse(VecNtt(v)) == v
    ensures VecNtt(VecNttInverse(w)) == w
  {
    forall i | 0 <= i < |v.polys|
      ensures VecNttInverse(VecNtt(v)).polys[i] == v.polys[i]
    {
      NttRoundTrip(v.polys[i]);
    }
    forall i | 0 <= i < |w.polys|
      ensures VecNtt(VecNttInverse(w)).polys[i] == w.polys[i]
    {
      NttInverseRoundTrip(w.polys[i]);
    }
  }

  /** The vector transform is additive. */
  lemma VecNttAdditive(v: PolynomialVector, w: PolynomialVector)
    requires |v.polys| == |w.polys|
    ensures VecNtt(PolyVecAdd(v, w)) == NttVecAdd(VecNtt(v), VecNtt(w))
  {
    forall i | 0 <= i < |v.polys|
      ensures VecNtt(PolyVecAdd(v, w)).polys[i] == NttVecAdd(VecNtt(v), VecNtt(w)).polys[i]
    {
      NttAdditive(v.polys[i], w.polys[i]);
    }
  }
}
