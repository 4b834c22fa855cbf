/** The two samplers of ML-KEM with their byte streams as inputs:
    `sample_cbd` (Algorithm 7, SamplePolyCBD, of FIPS 203, initial public
    draft) and the field-element reader behind `sample_uniform`
    (Algorithm 6, SampleNTT). The PRF and XOF that produce the bytes are
    not modelled; the uniform sampler reads a finite byte sequence standing
    for everything the XOF would deliver. */
module Sample {
  import opened Bits
  import opened Field
  import opened Ring
  import opened Codec
  import opened VectorCodec

  // ---------------------------------------------------------------------
  // Centred binomial sampling
  // ---------------------------------------------------------------------

  /** `count_ones`: the number of set bits of `x`. */
  function Popcount(x: nat): nat
  {
    if x == 0 then 0 else x % 2 + Popcount(x / 2)
  }

  /** The Rust `Polynomial::ONES` lookup table, row `i`, column `j`. */
  const ONES: seq<seq<Fe>> := [
    [0, 3328, 3328, 3327, 3328, 3327, 3327, 3326],
    [1, 0, 0, 3328, 0, 3328, 3328, 3327],
    [1, 0, 0, 3328, 0, 3328, 3328, 3327],
    [2, 1, 1, 0, 1, 0, 0, 3328],
    [1, 0, 0, 3328, 0, 3328, 3328, 3327],
    [2, 1, 1, 0, 1, 0, 0, 3328],
    [2, 1, 1, 0, 1, 0, 0, 3328],
    [3, 2, 2, 1, 2, 1, 1, 0]
  ]

  /** The popcounts of `0, ..., 7`. */
  const SMALL_POPCOUNTS: seq<nat> := [0, 1, 1, 2, 1, 2, 2, 3]

  lemma PopcountSmall(i: nat)
    requires i < 8
    ensures Popcount(i) == SMALL_POPCOUNTS[i]
  {
    if i == 0 {
    } else if i == 1 {
    } else if i == 2 {
    } else if i == 3 {
    } else if i == 4 {
    } else if i == 5 {
    } else if i == 6 {
    } else {
    }
  }

  lemma OnesRow(i: nat, j: nat)
    requires i < 8 && j < 8
    ensures ONES[i][j] == Sub(SMALL_POPCOUNTS[i], SMALL_POPCOUNTS[j])
  {
    if i == 0 {
    } else if i == 1 {
    } else if i == 2 {
    } else if i == 3 {
    } else if i == 4 {
    } else if i == 5 {
    } else if i == 6 {
    } else {
    }
  }

  /** `ONES[i][j] = popcount(i) - popcount(j) mod Q`, the formula of the
      table's generator. */
  lemma OnesTable(i: nat, j: nat)
    requires i < 8 && j < 8
    ensures |ONES| == 8 && |ONES[i]| == 8
    ensures Popcount(i) <= 3 && Popcount(j) <= 3
    ensures ONES[i][j] == Sub(Popcount(i), Popcount(j))
  {
    PopcountSmall(i);
    PopcountSmall(j);
    OnesRow(i, j);
  }

  /** The CBD parameters: eta = 2 or 3, sampled from `2 * eta`-bit values. */
  predicate ValidEta(eta: nat)
  {
    eta == 2 || eta == 3
  }

  /** The two table indices of a `2 * eta`-bit value: its low `eta` bits,
      `val & ((1 << eta) - 1)`, and its high `eta` bits, `val >> eta`. */
  lemma CbdIndices(val: nat, eta: nat)
    requires ValidEta(eta) && val < Pow2(2 * eta)
    ensures BitAnd(val, Pow2(eta) - 1) == val % Pow2(eta) < Pow2(eta) <= 8
    ensures val / Pow2(eta) < Pow2(eta)
  {
    BitAndLowMask(val, eta);
    Pow2Values();
    PowAdd(2, eta, eta);
    DivBelow(val, Pow2(eta), Pow2(eta));
  }

  /** One coefficient of `sample_cbd`: `ONES` read at the low and the high
      `eta` bits of a decoded value, which is the sum of the value's low
      `eta` bits minus the sum of its high `eta` bits, modulo `Q`. */
  function CbdCoefficient(val: nat, eta: nat): (r: Fe)
    requires ValidEta(eta) && val < Pow2(2 * eta)
    ensures r == Sub(BitSum(val, eta), BitSum(Shr(val, eta), eta))
  {
    CbdIndices(val, eta);
    var x := BitAnd(val, Pow2(eta) - 1);
    var y := Shr(val, eta);
    OnesTable(x, y);
    PopcountHalves(val, eta, y);
    ONES[x][y]
  }

  /** The popcounts of the two halves of a `2 * eta`-bit value are the bit
      sums of its low and its high `eta` bits. */
  lemma PopcountHalves(val: nat, eta: nat, high: nat)
    requires ValidEta(eta) && val < Pow2(2 * eta) && high == Shr(val, eta)
    ensures Popcount(val % Pow2(eta)) == BitSum(val, eta)
    ensures Popcount(high) == BitSum(high, eta)
  {
    CbdIndices(val, eta);
    PopcountLow(val, eta);
    HighPopcount(high, eta);
  }

  lemma HighPopcount(y: nat, eta: nat)
    requires y < Pow2(eta)
    ensures Popcount(y) == BitSum(y, eta)
  {
    PopcountLow(y, eta);
    ModSmall(y, Pow2(eta));
  }

  /** `Polynomial::sample_cbd`: the `64 * eta` PRF bytes are decoded as a
      polynomial of `2 * eta`-bit values, and each value becomes one
      coefficient. */
  function SampleCbd(b: seq<Byte>, eta: nat): (p: Polynomial)
    requires ValidEta(eta) && |b| == 64 * eta
  {
    var vals := DecodePoly(b, 2 * eta);
    DecodeFits(b, 2 * eta);
    Polynomial(seq(256, i requires 0 <= i < 256 => CbdCoefficient(vals.f[i], eta)))
  }

  /** The sum of the `n` low bits of `x`. */
  function BitSum(x: nat, n: nat): (r: nat)
    ensures r <= n
  {
    if n == 0 then 0 else x % 2 + BitSum(x / 2, n - 1)
  }

  /** The bit offset of coefficient `i`: each takes `2 * eta` bits. */
  function Offset(eta: nat, i: nat): nat
  {
    MulMono(2 * eta, 0, i);
    2 * eta * i
  }

  /** SamplePolyCBD as the standard states it: coefficient `i` is the sum of
      bits `2 * eta * i` to `2 * eta * i + eta - 1` of the byte string,
      minus the sum of the next `eta` bits, modulo `Q`. */
  function CbdReference(b: seq<Byte>, eta: nat): (p: Polynomial)
    requires ValidEta(eta)
  {
    var x := FromDigits(b, 256);
    Polynomial(seq(256, i requires 0 <= i < 256 =>
      Sub(BitSum(Shr(x, Offset(eta, i)), eta), BitSum(Shr(x, Offset(eta, i) + eta), eta))))
  }

  /** `sample_cbd` computes SamplePolyCBD. */
  lemma SampleCbdMatchesReference(b: seq<Byte>, eta: nat)
    requires ValidEta(eta) && |b| == 64 * eta
    ensures SampleCbd(b, eta) == CbdReference(b, eta)
  {
    forall i | 0 <= i < 256
      ensures SampleCbd(b, eta).f[i] == CbdReference(b, eta).f[i]
    {
      CbdAt(b, eta, i);
    }
  }

  lemma CbdAt(b: seq<Byte>, eta: nat, i: nat)
    requires ValidEta(eta) && |b| == 64 * eta && i < 256
    ensures SampleCbd(b, eta).f[i] == CbdReference(b, eta).f[i]
  {
    var x := FromDigits(b, 256);
    DecodedCoefficient(b, eta, i);
    CbdField(x, eta, i);
    ReferenceCoefficient(b, eta, i);
  }

  /** Coefficient `i` of the reference, named. */
  lemma ReferenceCoefficient(b: seq<Byte>, eta: nat, i: nat)
    requires ValidEta(eta) && i < 256
    ensures var x := FromDigits(b, 256);
      CbdReference(b, eta).f[i] == Sub(BitSum(Shr(x, Offset(eta, i)), eta), BitSum(Shr(x, Offset(eta, i) + eta), eta))
  {
  }

  /** Coefficient `i` of `sample_cbd` in terms of field `i` of the bytes. */
  lemma DecodedCoefficient(b: seq<Byte>, eta: nat, i: nat)
    requires ValidEta(eta) && |b| == 64 * eta && i < 256
    ensures var v := BitField(FromDigits(b, 256), 2 * eta, i);
      SampleCbd(b, eta).f[i] == Sub(BitSum(v, eta), BitSum(Shr(v, eta), eta))
  {
    DecodeMatchesReference(b, 2 * eta);
    assert ByteDecode(b, 2 * eta)[i] == ReducedField(FromDigits(b, 256), 2 * eta, i);
  }

  /** The low and the high half of the `2 * eta`-bit field `i` hold bits
      `2 * eta * i` onwards and `2 * eta * i + eta` onwards. */
  lemma CbdField(x: nat, eta: nat, i: nat)
    requires ValidEta(eta)
    ensures BitSum(BitField(x, 2 * eta, i), eta) == BitSum(Shr(x, Offset(eta, i)), eta)
    ensures BitSum(Shr(BitField(x, 2 * eta, i), eta), eta) == BitSum(Shr(x, Offset(eta, i) + eta), eta)
  {
    var s := Offset(eta, i);
    var z := Shr(x, s);
    assert BitField(x, 2 * eta, i) == z % Pow2(2 * eta);
    LowHalfSum(z, eta);
    HighHalfSum(x, z, eta, s);
  }

  lemma LowHalfSum(z: nat, eta: nat)
    ensures BitSum(z % Pow2(2 * eta), eta) == BitSum(z, eta)
  {
    PowAdd(2, eta, eta);
    ModNarrow(z, Pow2(eta), Pow2(eta));
    BitSumLow(z % Pow2(2 * eta), eta);
    BitSumLow(z, eta);
  }

  lemma HighHalfSum(x: nat, z: nat, eta: nat, s: nat)
    requires z == Shr(x, s)
    ensures BitSum(Shr(z % Pow2(2 * eta), eta), eta) == BitSum(Shr(x, s + eta), eta)
  {
    PowAdd(2, eta, eta);
    HighHalf(z, Pow2(eta), Pow2(2 * eta));
    BitSumLow(Shr(z, eta), eta);
    DivDiv(x, Pow2(s), Pow2(eta));
    PowAdd(2, s, eta);
  }

  /** The sum of the `n` low bits depends on those bits only. */
  lemma BitSumLow(z: nat, n: nat)
    ensures BitSum(z % Pow2(n), n) == BitSum(z, n)
  {
    var p := Pow2(n);
    PopcountLow(z % p, n);
    PopcountLow(z, n);
    DivModUnique(z % p, p, 0, z % p);
  }

  /** The high half of a value below `p * p` is the next `p`-digit. */
  lemma HighHalf(z: nat, p: nat, pp: nat)
    requires p > 0 && pp == p * p
    ensures (z % pp) / p == (z / p) % p
  {
    var low := z % pp;
    var high := low / p;
    DivModWindow(z, p, p, 1);
    assert p * p * 1 == pp;
    assert low < p * p;
    DivBelow(low, p, p);
    ModSmall(high, p);
  }

  /** The popcount of the `n` low bits is their sum. */
  lemma {:induction false} PopcountLow(z: nat, n: nat)
    ensures Popcount(z % Pow2(n)) == BitSum(z, n)
    decreases n
  {
    if n > 0 {
      var p := Pow2(n - 1);
      assert Pow2(n) == 2 * p;
      ModDouble(z, p);
      PopcountLow(z / 2, n - 1);
      PopcountDouble((z / 2) % p, z % 2);
    }
  }

  lemma PopcountDouble(m: nat, bit: nat)
    requires bit < 2
    ensures Popcount(2 * m + bit) == bit + Popcount(m)
  {
    if 2 * m + bit != 0 {
      assert (2 * m + bit) / 2 == m && (2 * m + bit) % 2 == bit;
    }
  }

  /** Every coefficient of `sample_cbd` lies in `{Q - eta, ..., Q - 1, 0,
      ..., eta}`, the support of the centred binomial distribution. */
  lemma SampleCbdSupport(b: seq<Byte>, eta: nat)
    requires ValidEta(eta) && |b| == 64 * eta
    ensures forall i | 0 <= i < 256 :: SampleCbd(b, eta).f[i] <= eta || SampleCbd(b, eta).f[i] >= Q - eta
  {
    forall i | 0 <= i < 256
      ensures SampleCbd(b, eta).f[i] <= eta || SampleCbd(b, eta).f[i] >= Q - eta
    {
      CbdSupportAt(b, eta, i);
    }
  }

  lemma CbdSupportAt(b: seq<Byte>, eta: nat, i: nat)
    requires ValidEta(eta) && |b| == 64 * eta && i < 256
    ensures SampleCbd(b, eta).f[i] <= eta || SampleCbd(b, eta).f[i] >= Q - eta
  {
    CbdAt(b, eta, i);
    ReferenceSupport(b, eta, i);
  }

  lemma ReferenceSupport(b: seq<Byte>, eta: nat, i: nat)
    requires ValidEta(eta) && i < 256
    ensures CbdReference(b, eta).f[i] <= eta || CbdReference(b, eta).f[i] >= Q - eta
  {
    var x := FromDigits(b, 256);
    var low := BitSum(Shr(x, Offset(eta, i)), eta);
    var high := BitSum(Shr(x, Offset(eta, i) + eta), eta);
    assert CbdReference(b, eta).f[i] == Sub(low, high);
    SmallDifference(low, high, eta);
  }

  /** The difference of two counts up to `eta`, modulo `Q`. */
  lemma SmallDifference(a: nat, b: nat, eta: nat)
    requires a <= eta && b <= eta && eta <= 3
    ensures Sub(a, b) <= eta || Sub(a, b) >= Q - eta
  {
    if a < b {
      DivModUnique(a - b, Q, -1, Q + a - b);
    } else {
      DivModUnique(a - b, Q, 0, a - b);
    }
  }

  // ---------------------------------------------------------------------
  // Uniform sampling by rejection
  // ---------------------------------------------------------------------

  datatype Option<T> = None | Some(value: T)

  /** The two 12-bit candidates of a 3-byte chunk, as `FieldElementReader`
      computes them in `u16`: `d1 = b0 + ((b1 & 0xf) << 8)` and
      `d2 = (b1 >> 4) + (b2 << 4)`. They are the low and the high 12 bits of
      the chunk read as a little-endian 24-bit number. */
  function Candidates(b0: Byte, b1: Byte, b2: Byte): (r: (nat, nat))
    ensures r.0 < 4096 && r.1 < 4096
    ensures r.0 + 4096 * r.1 == b0 + 256 * b1 + 65536 * b2
  {
    LowNibble(b1);
    (b0 + BitAnd(b1, 0xf) * 256, b1 / 16 + b2 * 16)
  }

  lemma LowNibble(b: Byte)
    ensures BitAnd(b, 0xf) == b % 16
  {
    BitAndLowMask(b, 4);
    Pow2Values();
  }

  /** The state of `FieldElementReader`: the bytes of the stream, the
      position of the next unread chunk, and the buffered second candidate
      of the last chunk, if it was accepted as well. */
  datatype Reader = Reader(stream: seq<Byte>, start: nat, next: Option<Fe>)

  predicate ValidReader(r: Reader)
  {
    r.start <= |r.stream|
  }

  /** `FieldElementReader::new`. */
  function NewReader(stream: seq<Byte>): (r: Reader)
    ensures ValidReader(r)
  {
    Reader(stream, 0, None)
  }

  /** `FieldElementReader::next`: the buffered value if there is one;
      otherwise chunks are read until one yields a candidate below `Q`.
      When both candidates of a chunk are below `Q`, the first is returned
      and the second buffered. `None` when the stream runs out. */
  function Next(r: Reader): (res: Option<(Fe, Reader)>)
    requires ValidReader(r)
    ensures res.Some? ==> ValidReader(res.value.1) && res.value.1.stream == r.stream
    decreases |r.stream| - r.start
  {
    if r.next.Some? then
      Some((r.next.value, r.(next := None)))
    else if |r.stream| - r.start < 3 then
      None
    else
      var d := Candidates(r.stream[r.start], r.stream[r.start + 1], r.stream[r.start + 2]);
      var after := r.(start := r.start + 3);
      if d.0 < Q then
        Some((d.0, after.(next := if d.1 < Q then Some(d.1) else None)))
      else if d.1 < Q then
        Some((d.1, after))
      else
        Next(after)
  }

  /** `n` successive calls of `next`. */
  function Take(r: Reader, n: nat): (res: Option<(seq<Fe>, Reader)>)
    requires ValidReader(r)
    ensures res.Some? ==> |res.value.0| == n && ValidReader(res.value.1)
    decreases n
  {
    if n == 0 then
      Some(([], r))
    else
      match Next(r)
      case None => None
      case Some((v, r1)) =>
        match Take(r1, n - 1)
        case None => None
        case Some((vs, r2)) => Some(([v] + vs, r2))
  }

  /** `NttPolynomial::sample_uniform`: 256 values from a fresh reader. */
  function SampleUniform(stream: seq<Byte>): Option<NttPolynomial>
  {
    match Take(NewReader(stream), 256)
    case None => None
    case Some((vs, _)) => Some(NttPolynomial(vs))
  }

  /** A candidate is kept when it is below `Q`. */
  function Keep(d: nat): seq<Fe>
  {
    if d < Q then [d] else []
  }

  /** SampleNTT as the standard states it: every 3-byte chunk of the stream
      gives two candidates, first `d1` then `d2`, and the candidates below
      `Q` are the coefficients, in order. */
  function Accepted(s: seq<Byte>): seq<Fe>
    decreases |s|
  {
    if |s| < 3 then []
    else
      var d := Candidates(s[0], s[1], s[2]);
      Keep(d.0) + Keep(d.1) + Accepted(s[3..])
  }

  /** The values a reader has yet to return: the buffered one, then the
      accepted candidates of the unread bytes. */
  function Pending(r: Reader): seq<Fe>
    requires ValidReader(r)
  {
    (if r.next.Some? then [r.next.value] else []) + Accepted(r.stream[r.start..])
  }

  /** `next` returns the first pending value and leaves the rest pending;
      it fails exactly when nothing is pending. */
  lemma {:induction false} NextPending(r: Reader)
    requires ValidReader(r)
    ensures Next(r).None? <==> Pending(r) == []
    ensures Next(r).Some? ==> Pending(r) != [] && Next(r).value.0 == Pending(r)[0]
                              && Pending(Next(r).value.1) == Pending(r)[1..]
    decreases |r.stream| - r.start
  {
    if r.next.None? && |r.stream| - r.start >= 3 {
      var s := r.stream[r.start..];
      var d := Candidates(s[0], s[1], s[2]);
      var after := r.(start := r.start + 3);
      assert s[3..] == after.stream[after.start..];
      assert Pending(r) == Keep(d.0) + Keep(d.1) + Pending(after);
      if d.0 >= Q && d.1 >= Q {
        NextPending(after);
      }
    }
  }

  /** `n` calls of `next` return the first `n` pending values, and fail
      exactly when fewer are pending. */
  lemma {:induction false} TakePending(r: Reader, n: nat)
    requires ValidReader(r)
    ensures Take(r, n).Some? <==> |Pending(r)| >= n
    ensures Take(r, n).Some? ==> Take(r, n).value.0 == Pending(r)[..n]
    decreases n
  {
    if n > 0 {
      NextPending(r);
      if Next(r).Some? {
        var v, r1 := Next(r).value.0, Next(r).value.1;
        TakePending(r1, n - 1);
        TakeStep(r, n);
      }
    }
  }

  lemma TakeStep(r: Reader, n: nat)
    requires ValidReader(r) && n > 0 && Next(r).Some?
    requires Pending(r) != [] && Next(r).value.0 == Pending(r)[0]
    requires Pending(Next(r).value.1) == Pending(r)[1..]
    requires var r1 := Next(r).value.1;
      (Take(r1, n - 1).Some? <==> |Pending(r1)| >= n - 1) &&
      (Take(r1, n - 1).Some? ==> Take(r1, n - 1).value.0 == Pending(r1)[..n - 1])
    ensures Take(r, n).Some? <==> |Pending(r)| >= n
    ensures Take(r, n).Some? ==> Take(r, n).value.0 == Pending(r)[..n]
  {
    TakeCons(r, n);
    if |Pending(r)| >= n {
      PrefixStep(Pending(r), n);
    }
  }

  lemma PrefixStep<T>(s: seq<T>, n: nat)
    requires 0 < n <= |s|
    ensures s[..n] == [s[0]] + s[1..][..n - 1]
  {
    assert s[1..][..n - 1] == s[1..n];
  }

  /** `n` calls of `next` are one call followed by `n - 1` more. */
  lemma TakeCons(r: Reader, n: nat)
    requires ValidReader(r) && n > 0 && Next(r).Some?
    ensures var r1 := Next(r).value.1;
      (Take(r, n).Some? <==> Take(r1, n - 1).Some?) &&
      (Take(r, n).Some? ==> Take(r, n).value.0 == [Next(r).value.0] + Take(r1, n - 1).value.0)
  {
    var v, r1 := Next(r).value.0, Next(r).value.1;
    assert Next(r) == Some((v, r1));
  }

  /** `sample_uniform` succeeds exactly when the stream holds at least 256
      candidates below `Q`, and then returns the first 256 of them in
      order. */
  lemma SampleUniformMatchesReference(stream: seq<Byte>)
    ensures SampleUniform(stream).Some? <==> |Accepted(stream)| >= 256
    ensures SampleUniform(stream).Some? ==> SampleUniform(stream).value.f == Accepted(stream)[..256]
  {
    var r := NewReader(stream);
    assert Pending(r) == Accepted(stream) by {
      assert stream[0..] == stream;
    }
    TakePending(r, 256);
  }
}
