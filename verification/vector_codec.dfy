/** The `Encode` implementations for polynomials, NTT-domain polynomials and
    vectors of either. A polynomial encodes to `ByteEncode_d` of its
    coefficients. A vector of `k` polynomials encodes each entry and
    concatenates the `k` encodings of `32 * d` bytes each. Decoding cuts the
    bytes back into `k` equal parts and decodes each part. */
module VectorCodec {
  import opened Bits
  import opened Field
  import opened Ring
  import opened Util
  import opened Codec

  // ---------------------------------------------------------------------
  // Polynomials
  // ---------------------------------------------------------------------

  /** `Encode::encode` for `Polynomial`. */
  function EncodePoly(p: Polynomial, d: nat): (r: seq<Byte>)
    requires ValidWidth(d)
    ensures |r| == 32 * d
  {
    ByteEncode(p.f, d)
  }

  /** `Encode::decode` for `Polynomial`. */
  function DecodePoly(enc: seq<Byte>, d: nat): Polynomial
    requires ValidWidth(d) && |enc| == 32 * d
  {
    Polynomial(ByteDecode(enc, d))
  }

  /** `Encode::encode` for `NttPolynomial`. */
  function EncodeNttPoly(p: NttPolynomial, d: nat): (r: seq<Byte>)
    requires ValidWidth(d)
    ensures |r| == 32 * d
  {
    ByteEncode(p.f, d)
  }

  /** `Encode::decode` for `NttPolynomial`. */
  function DecodeNttPoly(enc: seq<Byte>, d: nat): NttPolynomial
    requires ValidWidth(d) && |enc| == 32 * d
  {
    NttPolynomial(ByteDecode(enc, d))
  }

  /** Every coefficient of the polynomial is below `2^d`. */
  predicate PolyFits(p: Polynomial, d: nat)
  {
    Fits(p.f, d)
  }

  predicate NttPolyFits(p: NttPolynomial, d: nat)
  {
    Fits(p.f, d)
  }

  /** A polynomial whose coefficients fit in `d` bits survives encoding and
      decoding; the bytes survive decoding and re-encoding exactly when they
      are canonical. */
  lemma PolyRoundTrip(p: Polynomial, enc: seq<Byte>, d: nat)
    requires ValidWidth(d) && |enc| == 32 * d
    ensures PolyFits(p, d) ==> DecodePoly(EncodePoly(p, d), d) == p
    ensures EncodePoly(DecodePoly(enc, d), d) == enc <==> Canonical(enc, d)
  {
    if PolyFits(p, d) {
      DecodeEncode(p.f, d);
    }
    EncodeDecodeCanonical(enc, d);
  }

  /** The same for NTT-domain polynomials. */
  lemma NttPolyRoundTrip(p: NttPolynomial, enc: seq<Byte>, d: nat)
    requires ValidWidth(d) && |enc| == 32 * d
    ensures NttPolyFits(p, d) ==> DecodeNttPoly(EncodeNttPoly(p, d), d) == p
    ensures EncodeNttPoly(DecodeNttPoly(enc, d), d) == enc <==> Canonical(enc, d)
  {
    if NttPolyFits(p, d) {
      DecodeEncode(p.f, d);
    }
    EncodeDecodeCanonical(enc, d);
  }

  // ---------------------------------------------------------------------
  // Vectors of coefficient arrays
  // ---------------------------------------------------------------------

  /** The `32 * d`-byte encodings of the entries, in order. */
  function Encodings(vs: seq<Coeffs>, d: nat): (r: seq<seq<Byte>>)
    requires ValidWidth(d)
    ensures |r| == |vs| && Uniform(r, 32 * d)
  {
    seq(|vs|, i requires 0 <= i < |vs| => ByteEncode(vs[i], d))
  }

  /** The entries' encodings, concatenated. */
  function EncodeAll(vs: seq<Coeffs>, d: nat): (r: seq<Byte>)
    requires ValidWidth(d)
    ensures |r| == 32 * d * |vs|
  {
    Flatten(Encodings(vs, d), 32 * d)
  }

  /** `k` encodings of `32 * d` bytes, cut apart and decoded. */
  function DecodeAll(enc: seq<Byte>, d: nat, k: nat): (r: seq<Coeffs>)
    requires ValidWidth(d) && k > 0 && |enc| == 32 * d * k
    ensures |r| == k
  {
    MultipleMod(32 * d, k);
    var parts := Unflatten(enc, k);
    seq(k, i requires 0 <= i < k => ByteDecode(parts[i], d))
  }

  /** Entry `i` of a vector encodes to bytes `32 * d * i` up to
      `32 * d * (i + 1)` of the vector's encoding. */
  lemma EncodeAllPart(vs: seq<Coeffs>, d: nat, i: nat)
    requires ValidWidth(d) && i < |vs|
    ensures i * (32 * d) + 32 * d <= |EncodeAll(vs, d)|
    ensures EncodeAll(vs, d)[i * (32 * d)..i * (32 * d) + 32 * d] == ByteEncode(vs[i], d)
  {
    FlattenPart(Encodings(vs, d), 32 * d, i);
  }

  /** Entry `i` of a decoded vector is the decoding of bytes `32 * d * i`
      up to `32 * d * (i + 1)`. */
  lemma DecodeAllPart(enc: seq<Byte>, d: nat, k: nat, i: nat)
    requires ValidWidth(d) && k > 0 && |enc| == 32 * d * k && i < k
    ensures i * (32 * d) + 32 * d <= |enc|
    ensures DecodeAll(enc, d, k)[i] == ByteDecode(enc[i * (32 * d)..i * (32 * d) + 32 * d], d)
  {
    MultipleMod(32 * d, k);
    UnflattenPart(enc, k, i);
  }

  /** Decoding an encoded vector gives back every entry whose values fit. */
  lemma DecodeEncodeAll(vs: seq<Coeffs>, d: nat)
    requires ValidWidth(d) && |vs| > 0
    requires forall i | 0 <= i < |vs| :: Fits(vs[i], d)
    ensures DecodeAll(EncodeAll(vs, d), d, |vs|) == vs
  {
    var parts := Encodings(vs, d);
    UnflattenFlatten(parts, 32 * d);
    var r := DecodeAll(EncodeAll(vs, d), d, |vs|);
    forall i | 0 <= i < |vs|
      ensures r[i] == vs[i]
    {
      DecodeEncode(vs[i], d);
    }
  }

  /** Every `32 * d`-byte part of the bytes is canonical. */
  predicate AllCanonical(enc: seq<Byte>, d: nat, k: nat)
    requires k > 0 && |enc| % k == 0
  {
    var parts := Unflatten(enc, k);
    forall i | 0 <= i < k :: Canonical(parts[i], d)
  }

  /** Decoding and re-encoding a vector gives the bytes back exactly when
      every part is canonical; for d < 12 always. */
  lemma EncodeDecodeAll(enc: seq<Byte>, d: nat, k: nat)
    requires ValidWidth(d) && k > 0 && |enc| == 32 * d * k
    ensures |enc| % k == 0
    ensures EncodeAll(DecodeAll(enc, d, k), d) == enc <==> AllCanonical(enc, d, k)
  {
    MultipleMod(32 * d, k);
    var parts := Unflatten(enc, k);
    var ws := DecodeAll(enc, d, k);
    if AllCanonical(enc, d, k) {
      CanonicalParts(enc, d, k);
    } else if EncodeAll(ws, d) == enc {
      ReencodedParts(enc, d, k);
      assert false;
    }
  }

  lemma CanonicalParts(enc: seq<Byte>, d: nat, k: nat)
    requires ValidWidth(d) && k > 0 && |enc| == 32 * d * k
    requires |enc| % k == 0 && AllCanonical(enc, d, k)
    ensures EncodeAll(DecodeAll(enc, d, k), d) == enc
  {
    MultipleMod(32 * d, k);
    var parts := Unflatten(enc, k);
    var ws := DecodeAll(enc, d, k);
    var es := Encodings(ws, d);
    forall i | 0 <= i < k
      ensures es[i] == parts[i]
    {
      EncodeDecodeCanonical(parts[i], d);
    }
    assert es == parts;
    FlattenUnflatten(enc, k);
  }

  lemma ReencodedParts(enc: seq<Byte>, d: nat, k: nat)
    requires ValidWidth(d) && k > 0 && |enc| == 32 * d * k
    requires EncodeAll(DecodeAll(enc, d, k), d) == enc
    ensures |enc| % k == 0 && AllCanonical(enc, d, k)
  {
    MultipleMod(32 * d, k);
    var parts := Unflatten(enc, k);
    var ws := DecodeAll(enc, d, k);
    var es := Encodings(ws, d);
    UnflattenFlatten(es, 32 * d);
    assert parts == es;
    forall i | 0 <= i < k
      ensures Canonical(parts[i], d)
    {
      EncodeDecodeCanonical(parts[i], d);
    }
  }

  // ---------------------------------------------------------------------
  // Vectors of polynomials
  // ---------------------------------------------------------------------

  function Coefficients(v: PolynomialVector): (r: seq<Coeffs>)
    ensures |r| == |v.polys|
  {
    seq(|v.polys|, i requires 0 <= i < |v.polys| => v.polys[i].f)
  }

  function NttCoefficients(v: NttVector): (r: seq<Coeffs>)
    ensures |r| == |v.polys|
  {
    seq(|v.polys|, i requires 0 <= i < |v.polys| => v.polys[i].f)
  }

  /** `Encode::encode` for `PolynomialVector`. */
  function EncodePolyVec(v: PolynomialVector, d: nat): (r: seq<Byte>)
    requires ValidWidth(d)
    ensures |r| == 32 * d * |v.polys|
  {
    EncodeAll(Coefficients(v), d)
  }

  /** `Encode::decode` for `PolynomialVector` of `k` entries. */
  function DecodePolyVec(enc: seq<Byte>, d: nat, k: nat): (v: PolynomialVector)
    requires ValidWidth(d) && k > 0 && |enc| == 32 * d * k
    ensures |v.polys| == k
  {
    var cs := DecodeAll(enc, d, k);
    PolynomialVector(seq(k, i requires 0 <= i < k => Polynomial(cs[i])))
  }

  /** `Encode::encode` for `NttVector`. */
  function EncodeNttVec(v: NttVector, d: nat): (r: seq<Byte>)
    requires ValidWidth(d)
    ensures |r| == 32 * d * |v.polys|
  {
    EncodeAll(NttCoefficients(v), d)
  }

  /** `Encode::decode` for `NttVector` of `k` entries. */
  function DecodeNttVec(enc: seq<Byte>, d: nat, k: nat): (v: NttVector)
    requires ValidWidth(d) && k > 0 && |enc| == 32 * d * k
    ensures |v.polys| == k
  {
    var cs := DecodeAll(enc, d, k);
    NttVector(seq(k, i requires 0 <= i < k => NttPolynomial(cs[i])))
  }

  /** Entry `i` of a polynomial vector is encoded, on its own, at bytes
      `32 * d * i` up to `32 * d * (i + 1)`, and decoded from there. */
  lemma PolyVecLayout(v: PolynomialVector, enc: seq<Byte>, d: nat, k: nat, i: nat)
    requires ValidWidth(d) && i < |v.polys|
    requires k > 0 && |enc| == 32 * d * k && i < k
    ensures i * (32 * d) + 32 * d <= |EncodePolyVec(v, d)|
    ensures EncodePolyVec(v, d)[i * (32 * d)..i * (32 * d) + 32 * d] == EncodePoly(v.polys[i], d)
    ensures i * (32 * d) + 32 * d <= |enc|
    ensures DecodePolyVec(enc, d, k).polys[i] == DecodePoly(enc[i * (32 * d)..i * (32 * d) + 32 * d], d)
  {
    EncodeAllPart(Coefficients(v), d, i);
    DecodeAllPart(enc, d, k, i);
  }

  /** The same for NTT-domain vectors. */
  lemma NttVecLayout(v: NttVector, enc: seq<Byte>, d: nat, k: nat, i: nat)
    requires ValidWidth(d) && i < |v.polys|
    requires k > 0 && |enc| == 32 * d * k && i < k
    ensures i * (32 * d) + 32 * d <= |EncodeNttVec(v, d)|
    ensures EncodeNttVec(v, d)[i * (32 * d)..i * (32 * d) + 32 * d] == EncodeNttPoly(v.polys[i], d)
    ensures i * (32 * d) + 32 * d <= |enc|
    ensures DecodeNttVec(enc, d, k).polys[i] == DecodeNttPoly(enc[i * (32 * d)..i * (32 * d) + 32 * d], d)
  {
    EncodeAllPart(NttCoefficients(v), d, i);
    DecodeAllPart(enc, d, k, i);
  }

  /** A non-empty polynomial vector whose coefficients fit in `d` bits
      survives encoding and decoding; bytes survive decoding and re-encoding
      exactly when every part is canonical. */
  lemma PolyVecRoundTrip(v: PolynomialVector, enc: seq<Byte>, d: nat, k: nat)
    requires ValidWidth(d) && k > 0 && |enc| == 32 * d * k
    ensures |enc| % k == 0
    ensures |v.polys| == k && (forall i | 0 <= i < k :: PolyFits(v.polys[i], d)) ==>
              DecodePolyVec(EncodePolyVec(v, d), d, k) == v
    ensures EncodePolyVec(DecodePolyVec(enc, d, k), d) == enc <==> AllCanonical(enc, d, k)
  {
    MultipleMod(32 * d, k);
    if |v.polys| == k && (forall i | 0 <= i < k :: PolyFits(v.polys[i], d)) {
      DecodeEncodeAll(Coefficients(v), d);
      var w := DecodePolyVec(EncodePolyVec(v, d), d, k);
      assert w.polys == v.polys;
    }
    var w := DecodePolyVec(enc, d, k);
    assert Coefficients(w) == DecodeAll(enc, d, k);
    EncodeDecodeAll(enc, d, k);
  }

  /** The same for NTT-domain vectors. */
  lemma NttVecRoundTrip(v: NttVector, enc: seq<Byte>, d: nat, k: nat)
    requires ValidWidth(d) && k > 0 && |enc| == 32 * d * k
    ensures |enc| % k == 0
    ensures |v.polys| == k && (forall i | 0 <= i < k :: NttPolyFits(v.polys[i], d)) ==>
              DecodeNttVec(EncodeNttVec(v, d), d, k) == v
    ensures EncodeNttVec(DecodeNttVec(enc, d, k), d) == enc <==> AllCanonical(enc, d, k)
  {
    MultipleMod(32 * d, k);
    if |v.polys| == k && (forall i | 0 <= i < k :: NttPolyFits(v.polys[i], d)) {
      DecodeEncodeAll(NttCoefficients(v), d);
      var w := DecodeNttVec(EncodeNttVec(v, d), d, k);
      assert w.polys == v.polys;
    }
    var w := DecodeNttVec(enc, d, k);
    assert NttCoefficients(w) == DecodeAll(enc, d, k);
    EncodeDecodeAll(enc, d, k);
  }

  // ---------------------------------------------------------------------
  // Known answers
  // ---------------------------------------------------------------------

  /** `k` copies of `x`. */
  function Replicate<T>(x: T, k: nat): (r: seq<T>)
    ensures |r| == k && forall i | 0 <= i < k :: r[i] == x
  {
    seq(k, _ => x)
  }

  /** `k` copies of one polynomial. */
  function Copies(p: Polynomial, k: nat): (v: PolynomialVector)
    ensures |v.polys| == k
  {
    PolynomialVector(Replicate(p, k))
  }

  /** `k` copies of `c` repetitions of a pattern, concatenated, are
      `c * k` repetitions of the pattern. */
  lemma FlattenRepeat<T>(s: seq<T>, c: nat, k: nat)
    requires |s| > 0
    ensures Uniform(Replicate(Repeat(s, c), k), |s| * c)
    ensures Flatten(Replicate(Repeat(s, c), k), |s| * c) == Repeat(s, c * k)
  {
    var parts := Replicate(Repeat(s, c), k);
    var flat := Flatten(parts, |s| * c);
    var rep := Repeat(s, c * k);
    IntMulAssociates(|s|, c, k);
    assert |flat| == |rep|;
    forall i | 0 <= i < |flat|
      ensures flat[i] == rep[i]
    {
      FlattenRepeatAt(s, c, k, i);
    }
  }

  lemma FlattenRepeatAt<T>(s: seq<T>, c: nat, k: nat, i: nat)
    requires |s| > 0 && i < |s| * c * k
    ensures Uniform(Replicate(Repeat(s, c), k), |s| * c)
    ensures i < |Flatten(Replicate(Repeat(s, c), k), |s| * c)|
    ensures Flatten(Replicate(Repeat(s, c), k), |s| * c)[i] == s[i % |s|]
  {
    var m := |s| * c;
    var parts := Replicate(Repeat(s, c), k);
    var b, j := SplitBlock(i, m, k);
    FlattenIndex(parts, m, b, j);
    SameResidue(i, |s|, c, b, j);
  }

  /** Position `b * (n * c) + j` of a repetition of a pattern of length `n`
      holds the same pattern element as position `j`. */
  lemma SameResidue(i: nat, n: nat, c: nat, b: nat, j: nat)
    requires n > 0 && i == b * (n * c) + j
    ensures i % n == j % n
  {
    var t := b * c + j / n;
    assert j == n * (j / n) + j % n;
    assert b * (n * c) == n * (b * c);
    DivModUnique(i, n, t, j % n);
  }

  /** The Rust vector codec test at d = 5, for any number `k` of copies of
      the test polynomial (the test takes k = 2, 3 and 4): the vector
      encodes to `32 * k` copies of the five bytes `20 88 41 8a 39`, and
      those decode back to the vector. */
  lemma VectorKnownAnswer(k: nat)
    requires k > 0
    ensures EncodePolyVec(Copies(Polynomial(Repeat(Ramp8, 32)), k), 5)
              == Repeat<Byte>([0x20, 0x88, 0x41, 0x8a, 0x39], 32 * k)
    ensures DecodePolyVec(Repeat<Byte>([0x20, 0x88, 0x41, 0x8a, 0x39], 32 * k), 5, k)
              == Copies(Polynomial(Repeat(Ramp8, 32)), k)
  {
    var e: seq<Byte> := [0x20, 0x88, 0x41, 0x8a, 0x39];
    var p := Polynomial(Repeat(Ramp8, 32));
    var v := Copies(p, k);
    CopiesEncoding(p, e, k);
    RampFits(5);
    RepeatFits(Ramp8, 5, 32);
    PolyVecRoundTrip(v, EncodePolyVec(v, 5), 5, k);
  }

  lemma CopiesEncoding(p: Polynomial, e: seq<Byte>, k: nat)
    requires p == Polynomial(Repeat(Ramp8, 32)) && e == [0x20, 0x88, 0x41, 0x8a, 0x39]
    ensures EncodePolyVec(Copies(p, k), 5) == Repeat(e, 32 * k)
  {
    KnownAnswer5();
    var es := Encodings(Coefficients(Copies(p, k)), 5);
    assert es == Replicate(Repeat(e, 32), k);
    FlattenRepeat(e, 32, k);
    assert 32 * k == k * 32;
  }
}
