/** The bit-packing codec of ML-KEM: `ByteEncode_d` and `ByteDecode_d`
    (Algorithms 4 and 5 of FIPS 203, initial public draft) for the widths
    d = 1, 4, 5, 6, 10, 11 and 12, on one array of 256 field elements.

    The Rust code packs the 256 values in chunks: a chunk of `ValueStep`
    values fills exactly `ByteStep` bytes, `ValueStep * d == ByteStep * 8 ==
    lcm(d, 8)`. Each chunk is assembled into a `u128` by shifting and OR-ing,
    and its low `ByteStep` bytes are written out little-endian; decoding
    reads the bytes back into a `u128` and cuts it into `d`-bit fields.
    `ByteEncode` and `ByteDecode` follow that chunked computation. The
    reference `Packed` / `BitField` reads the whole array as one little-endian
    number, which is how the standard defines the bit order, and the two are
    proved to agree. */
module Codec {
  import opened Bits
  import opened Field
  import opened Ring
  import Util

  /** A `u8`. */
  type Byte = x: int | 0 <= x < 256

  /** The widths `d` the ML-KEM parameter sets encode with. */
  predicate ValidWidth(d: nat)
  {
    d == 1 || d == 4 || d == 5 || d == 6 || d == 10 || d == 11 || d == 12
  }

  /** `lcm(d, 8)`: the bit length of one chunk. */
  function ChunkBits(d: nat): nat
    requires ValidWidth(d)
  {
    if d == 1 || d == 4 then 8
    else if d == 5 || d == 10 then 40
    else if d == 6 || d == 12 then 24
    else 88
  }

  /** `D::ValueStep`: the values in one chunk. */
  function ValueStep(d: nat): nat
    requires ValidWidth(d)
  {
    ChunkBits(d) / d
  }

  /** `D::ByteStep`: the bytes in one chunk. */
  function ByteStep(d: nat): nat
    requires ValidWidth(d)
  {
    ChunkBits(d) / 8
  }

  /** The number of chunks in a polynomial. */
  function Chunks(d: nat): nat
    requires ValidWidth(d)
  {
    256 / ValueStep(d)
  }

  /** The chunk geometry: a chunk of values fills whole bytes, the chunks
      tile the 256 values and the `32 * d` bytes of an encoded polynomial,
      and a chunk fits the `u128` the Rust code assembles it in. */
  lemma StepFacts(d: nat)
    requires ValidWidth(d)
    ensures ChunkBits(d) == ValueStep(d) * d == ByteStep(d) * 8
    ensures 0 < ValueStep(d) <= 8 && 8 % ValueStep(d) == 0
    ensures 0 < ByteStep(d) <= 11 && ChunkBits(d) <= 88
    ensures 0 < Chunks(d) && Chunks(d) * ValueStep(d) == 256
    ensures Chunks(d) * ByteStep(d) == 32 * d
    ensures 256 % Chunks(d) == 0 && 256 / Chunks(d) == ValueStep(d)
    ensures (32 * d) % Chunks(d) == 0 && (32 * d) / Chunks(d) == ByteStep(d)
    ensures 2 <= Pow2(d) <= 4096 && (d < 12 ==> Pow2(d) <= 2048) && (d == 12 ==> Pow2(d) == 4096)
  {
    Pow2Values();
  }

  // ---------------------------------------------------------------------
  // byte_encode
  // ---------------------------------------------------------------------

  /** The inner loop of `byte_encode`: `x |= u128::from(v[j]) << (D * j)`
      for each value of the chunk, in order. */
  function Pack(w: seq<Fe>, d: nat): nat
    decreases |w|
  {
    if w == [] then 0
    else BitOr(Pack(w[..|w| - 1], d), w[|w| - 1] * Pow2(d * (|w| - 1)))
  }

  /** `x.to_le_bytes()[..n]`: the `n` low bytes of `x`, least significant
      first. */
  function LeBytes(x: nat, n: nat): (r: seq<Byte>)
    ensures |r| == n
  {
    ToDigits(x, 256, n)
  }

  /** One chunk of `byte_encode`: the low `ByteStep` bytes of the packed
      chunk. */
  function EncodeChunk(w: seq<Fe>, d: nat): (r: seq<Byte>)
    requires ValidWidth(d)
    ensures |r| == ByteStep(d)
  {
    LeBytes(Pack(w, d), ByteStep(d))
  }

  /** `byte_encode`: the values cut into chunks of `ValueStep` and the bytes
      of each chunk written in chunk order. The values are not masked: the
      callers pass values below `2^d` (below `Q` for d = 12). */
  function ByteEncode(vals: Coeffs, d: nat): (r: seq<Byte>)
    requires ValidWidth(d)
    ensures |r| == 32 * d
  {
    StepFacts(d);
    var n := Chunks(d);
    var chunks := Util.Unflatten(vals, n);
    Util.Flatten(seq(n, c requires 0 <= c < n => EncodeChunk(chunks[c], d)), ByteStep(d))
  }

  // ---------------------------------------------------------------------
  // byte_decode
  // ---------------------------------------------------------------------

  /** `u128::from_le_bytes` of the chunk's bytes followed by zero bytes up to
      16. */
  function Unpack(b: seq<Byte>): nat
    requires |b| <= 16
  {
    FromDigits(b + Zeros(16 - |b|), 256)
  }

  /** `n` zero bytes. */
  function Zeros(n: nat): (r: seq<Byte>)
    ensures |r| == n && forall i | 0 <= i < n :: r[i] == 0
  {
    seq(n, _ => 0)
  }

  /** Field `j` of width `d` of `x`: its bits `d * j` to `d * j + d - 1`. */
  function BitField(x: nat, d: nat, j: nat): nat
  {
    (x / Pow2(d * j)) % Pow2(d)
  }

  /** Value `j` of a chunk as `byte_decode` computes it: `x >> (D * j)`
      truncated to `u16`, masked with `(1 << D) - 1`, and for d = 12
      reduced modulo `Q`: field `j` of `x`, reduced when d = 12. */
  function DecodeValue(x: nat, d: nat, j: nat): (v: Fe)
    requires ValidWidth(d)
    ensures v < Pow2(d)
    ensures d < 12 ==> v == BitField(x, d, j)
    ensures d == 12 ==> v == BitField(x, d, j) % Q
  {
    StepFacts(d);
    var val := Util.Truncate(x / Pow2(d * j), 16);
    BitAndLowMask(val, d);
    ModNarrow(x / Pow2(d * j), Pow2(d), Pow2(16 - d));
    PowAdd(2, d, 16 - d);
    var m := BitAnd(val, Pow2(d) - 1);
    if d == 12 then m % Q else m
  }

  /** One chunk of `byte_decode`. */
  function DecodeChunk(b: seq<Byte>, d: nat): (r: seq<Fe>)
    requires ValidWidth(d) && |b| == ByteStep(d)
    ensures |r| == ValueStep(d)
  {
    StepFacts(d);
    var x := Unpack(b);
    seq(ValueStep(d), j requires 0 <= j < ValueStep(d) => DecodeValue(x, d, j))
  }

  /** `byte_decode`: the bytes cut into chunks of `ByteStep` and the values
      of each chunk written in chunk order. Nothing is rejected: for
      d = 12 a field of `Q` or more is reduced modulo `Q`. */
  function ByteDecode(bytes: seq<Byte>, d: nat): (r: Coeffs)
    requires ValidWidth(d) && |bytes| == 32 * d
  {
    StepFacts(d);
    var n := Chunks(d);
    var chunks := Util.Unflatten(bytes, n);
    Util.Flatten(seq(n, c requires 0 <= c < n => DecodeChunk(chunks[c], d)), ValueStep(d))
  }

  // ---------------------------------------------------------------------
  // One chunk
  // ---------------------------------------------------------------------

  /** Every value is below `2^d`. */
  predicate Fits(w: seq<Fe>, d: nat)
  {
    forall j | 0 <= j < |w| :: w[j] < Pow2(d)
  }

  /** `Pow2(d)^n` is `2^(d * n)`. */
  lemma PowOfPow2(d: nat, n: nat)
    ensures Pow(Pow2(d), n) == Pow2(d * n)
  {
    PowMul(2, d, n);
  }

  /** Values below `2^d` occupy disjoint bit ranges, so the OR of the
      shifted values is the number whose base-`2^d` digits they are. */
  lemma {:induction false} PackValue(w: seq<Fe>, d: nat)
    requires Fits(w, d)
    ensures Pack(w, d) == FromDigits(w, Pow2(d))
    decreases |w|
  {
    if w != [] {
      var n := |w| - 1;
      PackValue(w[..n], d);
      PackStep(w, d);
      DigitsStep(w, d);
    }
  }

  /** The last value of a chunk lands above the bits of the others. */
  lemma PackStep(w: seq<Fe>, d: nat)
    requires Fits(w, d) && w != []
    requires Pack(w[..|w| - 1], d) == FromDigits(w[..|w| - 1], Pow2(d))
    ensures Pack(w, d) == FromDigits(w[..|w| - 1], Pow2(d)) + w[|w| - 1] * Pow2(d * (|w| - 1))
  {
    var n := |w| - 1;
    var front, shifted := w[..n], w[n] * Pow2(d * n);
    PowOfPow2(d, n);
    FromDigitsBound(front, Pow2(d));
    MultipleMod(w[n], Pow2(d * n));
    BitOrDisjoint(Pack(front, d), shifted, d * n);
  }

  /** The last digit of a digit string is worth `base^(length - 1)`. */
  lemma DigitsStep(w: seq<Fe>, d: nat)
    requires w != []
    ensures FromDigits(w, Pow2(d)) == FromDigits(w[..|w| - 1], Pow2(d)) + w[|w| - 1] * Pow2(d * (|w| - 1))
  {
    var n := |w| - 1;
    var front, last := w[..n], w[n];
    assert w == front + [last];
    FromDigitsAppend(front, [last], Pow2(d));
    assert FromDigits([last], Pow2(d)) == last;
    PowOfPow2(d, n);
  }

  /** The zero padding of `Unpack` does not change the value. */
  lemma UnpackValue(b: seq<Byte>)
    requires |b| <= 16
    ensures Unpack(b) == FromDigits(b, 256)
  {
    var zeros := Zeros(16 - |b|);
    FromDigitsAppend(b, zeros, 256);
    FromDigitsZeros(zeros, 256);
  }

  /** The bytes of a chunk and the `d`-bit fields of a chunk describe the
      same number: `256^ByteStep == 2^(d * ValueStep)`. */
  lemma ChunkPowers(d: nat)
    requires ValidWidth(d)
    ensures Pow(256, ByteStep(d)) == Pow(Pow2(d), ValueStep(d)) == Pow2(ChunkBits(d))
  {
    StepFacts(d);
    PowOfPow2(8, ByteStep(d));
    PowOfPow2(d, ValueStep(d));
    Pow2Values();
  }

  /** Field `j` of a number whose base-`2^d` digits are `w` is `w[j]`. */
  lemma FieldOfDigits(w: seq<Fe>, d: nat, j: nat)
    requires Fits(w, d) && j < |w|
    ensures BitField(FromDigits(w, Pow2(d)), d, j) == w[j]
  {
    DigitAt(w, Pow2(d), j);
    PowOfPow2(d, j);
  }

  /** The number a chunk packs, read back from its bytes. */
  lemma ChunkValue(w: seq<Fe>, d: nat)
    requires ValidWidth(d) && |w| == ValueStep(d) && Fits(w, d)
    ensures Unpack(EncodeChunk(w, d)) == FromDigits(w, Pow2(d))
  {
    var x := Pack(w, d);
    PackValue(w, d);
    FromDigitsBound(w, Pow2(d));
    ChunkPowers(d);
    UnpackValue(EncodeChunk(w, d));
    ValueOfDigits(x, 256, ByteStep(d));
  }

  // ---------------------------------------------------------------------
  // The reference: one little-endian number
  // ---------------------------------------------------------------------

  /** The value a decoded field takes: field `j` of width `d` of `x`,
      reduced modulo `Q` when d = 12. */
  function ReducedField(x: nat, d: nat, j: nat): (v: Fe)
    requires ValidWidth(d)
  {
    StepFacts(d);
    var f := BitField(x, d, j);
    if d == 12 then f % Q else f
  }

  /** `ByteEncode_d` as the standard defines it: the values are the base-`2^d`
      digits of one number, and the bytes are its `32 * d` little-endian
      base-256 digits. */
  function EncodeReference(vals: Coeffs, d: nat): seq<Byte>
  {
    LeBytes(FromDigits(vals, Pow2(d)), 32 * d)
  }

  /** `ByteDecode_d` as the standard defines it: value `i` is bits
      `d * i .. d * i + d - 1` of the little-endian number the bytes spell,
      reduced modulo `Q` for d = 12. */
  function DecodeReference(bytes: seq<Byte>, d: nat): Coeffs
    requires ValidWidth(d)
  {
    var x := FromDigits(bytes, 256);
    seq(256, i requires 0 <= i < 256 => ReducedField(x, d, i))
  }

  /** Field `j` of block `c` of a number made of `k`-bit blocks, `k = s * d`,
      is field `c * s + j` of the whole number. */
  lemma FieldOfBlocks(ys: seq<nat>, k: nat, d: nat, s: nat, c: nat, j: nat)
    requires d > 0 && k == s * d && j < s && c < |ys| && DigitsBelow(ys, Pow2(k))
    ensures BitField(FromDigits(ys, Pow2(k)), d, c * s + j) == BitField(ys[c], d, j)
  {
    var x := FromDigits(ys, Pow2(k));
    var rest := BlockSplit(k, d, s, c, j);
    assert (x / Pow2(k * c)) % Pow2(k) == ys[c] by {
      DigitAt(ys, Pow2(k), c);
      PowOfPow2(k, c);
    }
    Window(x, Pow2(k * c), Pow2(d * j), Pow2(d), Pow2(rest), ys[c]);
  }

  /** The exponent arithmetic of `FieldOfBlocks`: the field starts `k * c + d * j`
      bits in, and the `k`-bit block splits into the `d * j` bits below the
      field, the field and `rest` bits above it. */
  lemma BlockSplit(k: nat, d: nat, s: nat, c: nat, j: nat) returns (rest: nat)
    requires k == s * d && j < s
    ensures Pow2(d * (c * s + j)) == Pow2(k * c) * Pow2(d * j)
    ensures Pow2(d * j) * Pow2(d) * Pow2(rest) == Pow2(k)
  {
    MulMono(d, j + 1, s);
    rest := k - d * j - d;
    assert d * (c * s + j) == k * c + d * j;
    PowAdd(2, k * c, d * j);
    PowAdd(2, d * j, d);
    PowAdd(2, d * j + d, rest);
  }

  /** A field that lies inside one block of `x` is the field of that block. */
  lemma Window(x: nat, p: nat, a: nat, m: nat, r: nat, block: nat)
    requires p > 0 && a > 0 && m > 0 && r > 0 && (x / p) % (a * m * r) == block
    ensures (x / (p * a)) % m == (block / a) % m
  {
    DivDiv(x, p, a);
    DivModWindow(x / p, a, m, r);
  }

  /** The chunks of the values and the chunks of the bytes: chunk `c` of
      `ByteEncode` is `EncodeChunk` of the `c`-th `ValueStep` values. */
  lemma EncodedChunk(vals: Coeffs, d: nat, c: nat)
    requires ValidWidth(d) && c < Chunks(d)
    ensures c * ValueStep(d) + ValueStep(d) <= 256
    ensures c * ByteStep(d) + ByteStep(d) <= 32 * d
    ensures ByteEncode(vals, d)[c * ByteStep(d)..c * ByteStep(d) + ByteStep(d)]
      == EncodeChunk(vals[c * ValueStep(d)..c * ValueStep(d) + ValueStep(d)], d)
  {
    StepFacts(d);
    var n := Chunks(d);
    var chunks := Util.Unflatten(vals, n);
    Util.UnflattenPart(vals, n, c);
    Util.FlattenPart(seq(n, c requires 0 <= c < n => EncodeChunk(chunks[c], d)), ByteStep(d), c);
  }

  /** The number `ByteEncode` writes out is the one whose base-`2^d` digits
      are the values. */
  lemma EncodedValue(vals: Coeffs, d: nat)
    requires ValidWidth(d) && Fits(vals, d)
    ensures FromDigits(ByteEncode(vals, d), 256) == FromDigits(vals, Pow2(d))
  {
    StepFacts(d);
    var n, vs, bs := Chunks(d), ValueStep(d), ByteStep(d);
    var bytes := ByteEncode(vals, d);
    var byteBlocks, valueBlocks := BlockValues(bytes, bs, n, 256), BlockValues(vals, vs, n, Pow2(d));
    forall c | 0 <= c < n
      ensures byteBlocks[c] == valueBlocks[c]
    {
      EncodedBlock(vals, d, c);
    }
    assert byteBlocks == valueBlocks;
    FromDigitsBlocks(bytes, bs, n, 256);
    FromDigitsBlocks(vals, vs, n, Pow2(d));
    ChunkPowers(d);
  }

  /** Chunk `c` of the encoding spells the same number as chunk `c` of the
      values. */
  lemma EncodedBlock(vals: Coeffs, d: nat, c: nat)
    requires ValidWidth(d) && Fits(vals, d) && c < Chunks(d)
    ensures c * ValueStep(d) + ValueStep(d) <= 256
    ensures c * ByteStep(d) + ByteStep(d) <= 32 * d
    ensures FromDigits(ByteEncode(vals, d)[c * ByteStep(d)..c * ByteStep(d) + ByteStep(d)], 256)
      == FromDigits(vals[c * ValueStep(d)..c * ValueStep(d) + ValueStep(d)], Pow2(d))
  {
    var vs := ValueStep(d);
    EncodedChunk(vals, d, c);
    var w := vals[c * vs..c * vs + vs];
    assert Fits(w, d) by {
      forall j | 0 <= j < vs
        ensures w[j] < Pow2(d)
      {
        assert w[j] == vals[c * vs + j];
      }
    }
    ChunkValue(w, d);
    UnpackValue(EncodeChunk(w, d));
  }

  /** The chunked `byte_encode` agrees with the reference encoding, for
      values below `2^d` (every reduced value, for d = 12). */
  lemma EncodeMatchesReference(vals: Coeffs, d: nat)
    requires ValidWidth(d) && Fits(vals, d)
    ensures ByteEncode(vals, d) == EncodeReference(vals, d)
  {
    EncodedValue(vals, d);
    DigitsOfValue(ByteEncode(vals, d), 256);
  }

  /** The chunked `byte_decode` agrees with the reference decoding. */
  lemma DecodeMatchesReference(bytes: seq<Byte>, d: nat)
    requires ValidWidth(d) && |bytes| == 32 * d
    ensures ByteDecode(bytes, d) == DecodeReference(bytes, d)
  {
    forall i | 0 <= i < 256
      ensures ByteDecode(bytes, d)[i] == DecodeReference(bytes, d)[i]
    {
      DecodedAt(bytes, d, i);
    }
  }

  /** Value `i` of `byte_decode` is value `i` of the reference decoding. */
  lemma DecodedAt(bytes: seq<Byte>, d: nat, i: nat)
    requires ValidWidth(d) && |bytes| == 32 * d && i < 256
    ensures ByteDecode(bytes, d)[i] == DecodeReference(bytes, d)[i]
  {
    StepFacts(d);
    var c, j := SplitBlock(i, ValueStep(d), Chunks(d));
    DecodedChunk(bytes, d, c, j);
    BytesField(bytes, d, c, j);
  }

  /** Value `j` of chunk `c` of `ByteDecode` is field `j` of the number the
      chunk's bytes spell. */
  lemma DecodedChunk(bytes: seq<Byte>, d: nat, c: nat, j: nat)
    requires ValidWidth(d) && |bytes| == 32 * d && c < Chunks(d) && j < ValueStep(d)
    ensures c * ValueStep(d) + j < 256
    ensures c * ByteStep(d) + ByteStep(d) <= |bytes|
    ensures ByteDecode(bytes, d)[c * ValueStep(d) + j]
      == ReducedField(FromDigits(bytes[c * ByteStep(d)..c * ByteStep(d) + ByteStep(d)], 256), d, j)
  {
    StepFacts(d);
    var n, vs := Chunks(d), ValueStep(d);
    var chunks := Util.Unflatten(bytes, n);
    var decoded := seq(n, c requires 0 <= c < n => DecodeChunk(chunks[c], d));
    Util.FlattenIndex(decoded, vs, c, j);
    Util.UnflattenPart(bytes, n, c);
    UnpackValue(chunks[c]);
  }

  /** Field `j` of chunk `c` of the bytes is field `c * ValueStep + j` of the
      whole array. */
  lemma BytesField(bytes: seq<Byte>, d: nat, c: nat, j: nat)
    requires ValidWidth(d) && |bytes| == 32 * d && c < Chunks(d) && j < ValueStep(d)
    ensures c * ByteStep(d) + ByteStep(d) <= |bytes|
    ensures BitField(FromDigits(bytes, 256), d, c * ValueStep(d) + j)
      == BitField(FromDigits(bytes[c * ByteStep(d)..c * ByteStep(d) + ByteStep(d)], 256), d, j)
  {
    var m, s := ByteStep(d), ValueStep(d);
    StepFacts(d);
    ChunkPowers(d);
    BlockField(bytes, m, Chunks(d), ChunkBits(d), d, s, c, j);
  }

  /** `FieldOfBlocks` for blocks of `m` bytes holding `k` bits. */
  lemma BlockField(a: seq<nat>, m: nat, n: nat, k: nat, d: nat, s: nat, c: nat, j: nat)
    requires |a| == n * m && DigitsBelow(a, 256) && Pow(256, m) == Pow2(k)
    requires d > 0 && k == s * d && j < s && c < n
    ensures 0 <= c * m && c * m + m <= |a| && 0 <= c * s
    ensures BitField(FromDigits(a, 256), d, c * s + j) == BitField(FromDigits(a[c * m..c * m + m], 256), d, j)
  {
    MulMono(c, 0, m);
    MulMono(c, 0, s);
    BlockBounds(n, m, c);
    FromDigitsBlocks(a, m, n, 256);
    BlockValuesBelow(a, m, n, 256);
    FieldOfBlocks(BlockValues(a, m, n, 256), k, d, s, c, j);
  }

  // ---------------------------------------------------------------------
  // Properties of the codec
  // ---------------------------------------------------------------------

  /** Every decoded value is below `2^d`: the mask keeps `d` bits. */
  lemma DecodeFits(bytes: seq<Byte>, d: nat)
    requires ValidWidth(d) && |bytes| == 32 * d
    ensures Fits(ByteDecode(bytes, d), d)
  {
    DecodeMatchesReference(bytes, d);
    StepFacts(d);
    var x := FromDigits(bytes, 256);
    forall i | 0 <= i < 256
      ensures ByteDecode(bytes, d)[i] < Pow2(d)
    {
      assert ByteDecode(bytes, d)[i] == ReducedField(x, d, i);
    }
  }

  /** Decoding an encoding gives back the values, for values below `2^d`
      (every reduced value, for d = 12). */
  lemma DecodeEncode(vals: Coeffs, d: nat)
    requires ValidWidth(d) && Fits(vals, d)
    ensures ByteDecode(ByteEncode(vals, d), d) == vals
  {
    var bytes := ByteEncode(vals, d);
    EncodedValue(vals, d);
    DecodeMatchesReference(bytes, d);
    var x := FromDigits(vals, Pow2(d));
    forall i | 0 <= i < 256
      ensures ByteDecode(bytes, d)[i] == vals[i]
    {
      FieldOfDigits(vals, d, i);
      DivModUnique(vals[i], Q, 0, vals[i]);
      assert ByteDecode(bytes, d)[i] == ReducedField(x, d, i);
    }
  }

  /** Re-encoding decoded bytes gives back the bytes when every field came
      out of the decoder unreduced. */
  lemma EncodeDecodeFields(bytes: seq<Byte>, d: nat)
    requires ValidWidth(d) && |bytes| == 32 * d
    requires forall i | 0 <= i < 256 :: ByteDecode(bytes, d)[i] == BitField(FromDigits(bytes, 256), d, i)
    ensures ByteEncode(ByteDecode(bytes, d), d) == bytes
  {
    var w := ByteDecode(bytes, d);
    StepFacts(d);
    assert w == ToDigits(FromDigits(bytes, 256), Pow2(d), 256) by {
      forall i | 0 <= i < 256
        ensures w[i] == ToDigits(FromDigits(bytes, 256), Pow2(d), 256)[i]
      {
        PowOfPow2(d, i);
      }
    }
    EncodeDigits(bytes, w, d);
  }

  /** Values that are the base-`2^d` digits of the bytes' number encode
      back to the bytes. */
  lemma EncodeDigits(bytes: seq<Byte>, w: Coeffs, d: nat)
    requires ValidWidth(d) && |bytes| == 32 * d
    requires w == ToDigits(FromDigits(bytes, 256), Pow2(d), 256)
    ensures ByteEncode(w, d) == bytes
  {
    var x := FromDigits(bytes, 256);
    assert FromDigits(w, Pow2(d)) == x by {
      StepFacts(d);
      BytesBelow(bytes, d);
      ValueOfDigits(x, Pow2(d), 256);
    }
    assert Fits(w, d);
    EncodedValue(w, d);
    SameValueSameBytes(ByteEncode(w, d), bytes);
  }

  /** Byte strings of one length that spell the same number are equal. */
  lemma SameValueSameBytes(a: seq<Byte>, b: seq<Byte>)
    requires |a| == |b| && FromDigits(a, 256) == FromDigits(b, 256)
    ensures a == b
  {
    DigitsOfValue(a, 256);
    DigitsOfValue(b, 256);
  }

  /** The `32 * d` bytes spell a number of at most `256 * d` bits. */
  lemma BytesBelow(bytes: seq<Byte>, d: nat)
    requires |bytes| == 32 * d
    ensures FromDigits(bytes, 256) < Pow(Pow2(d), 256)
  {
    FromDigitsBound(bytes, 256);
    PowOfPow2(8, 32 * d);
    PowOfPow2(d, 256);
    assert Pow2(8) == 256 by {
      Pow2Values();
    }
  }

  /** Encoding decoded bytes gives back the bytes, for d < 12. */
  lemma EncodeDecode(bytes: seq<Byte>, d: nat)
    requires ValidWidth(d) && d < 12 && |bytes| == 32 * d
    ensures ByteEncode(ByteDecode(bytes, d), d) == bytes
  {
    DecodeMatchesReference(bytes, d);
    EncodeDecodeFields(bytes, d);
  }

  /** For d = 12 the decoder reduces instead of rejecting, so the bytes
      survive a decode and re-encode exactly when every 12-bit field is
      already below `Q`. */
  lemma EncodeDecode12(bytes: seq<Byte>)
    requires |bytes| == 384
    ensures ByteEncode(ByteDecode(bytes, 12), 12) == bytes <==> Canonical12(bytes)
  {
    if Canonical12(bytes) {
      Unreduced12(bytes);
      EncodeDecodeFields(bytes, 12);
    } else if ByteEncode(ByteDecode(bytes, 12), 12) == bytes {
      Reencoded12(bytes);
      assert false;
    }
  }

  /** Every 12-bit field of the bytes is below `Q`: the bytes are the
      encoding of reduced values. */
  predicate Canonical12(bytes: seq<Byte>)
  {
    forall i | 0 <= i < 256 :: BitField(FromDigits(bytes, 256), 12, i) < Q
  }

  /** The bytes are an encoding of reduced values: always for d < 12, and
      for d = 12 when every field is below `Q`. */
  predicate Canonical(bytes: seq<Byte>, d: nat)
  {
    d != 12 || Canonical12(bytes)
  }

  /** Decoding and re-encoding gives the bytes back exactly when they are
      canonical. */
  lemma EncodeDecodeCanonical(bytes: seq<Byte>, d: nat)
    requires ValidWidth(d) && |bytes| == 32 * d
    ensures ByteEncode(ByteDecode(bytes, d), d) == bytes <==> Canonical(bytes, d)
  {
    if d == 12 {
      EncodeDecode12(bytes);
    } else {
      EncodeDecode(bytes, d);
    }
  }

  /** Fields below `Q` come out of the d = 12 decoder unreduced. */
  lemma Unreduced12(bytes: seq<Byte>)
    requires |bytes| == 384 && Canonical12(bytes)
    ensures forall i | 0 <= i < 256 :: ByteDecode(bytes, 12)[i] == BitField(FromDigits(bytes, 256), 12, i)
  {
    DecodeMatchesReference(bytes, 12);
    var x := FromDigits(bytes, 256);
    forall i | 0 <= i < 256
      ensures ByteDecode(bytes, 12)[i] == BitField(x, 12, i)
    {
      var f := BitField(x, 12, i);
      assert f < Q;
      DivModUnique(f, Q, 0, f);
      assert ByteDecode(bytes, 12)[i] == ReducedField(x, 12, i);
    }
  }

  /** Bytes that an encoding of reduced values reproduces hold only fields
      below `Q`. */
  lemma Reencoded12(bytes: seq<Byte>)
    requires |bytes| == 384 && ByteEncode(ByteDecode(bytes, 12), 12) == bytes
    ensures Canonical12(bytes)
  {
    var w := ByteDecode(bytes, 12);
    DecodeFits(bytes, 12);
    EncodedValue(w, 12);
    forall i | 0 <= i < 256
      ensures BitField(FromDigits(bytes, 256), 12, i) < Q
    {
      FieldOfDigits(w, 12, i);
    }
  }

  // ---------------------------------------------------------------------
  // The u128 accumulator
  // ---------------------------------------------------------------------

  /** `ValueStep` reduced values, each shifted by `D * j`, stay below `2^128`:
      neither the shifts nor the ORs of `byte_encode` lose a bit of the
      `u128` accumulator, so `Pack` over unbounded naturals is the Rust
      computation. */
  lemma PackFitsU128(w: seq<Fe>, d: nat)
    requires ValidWidth(d) && |w| == ValueStep(d)
    ensures Pack(w, d) < Pow2(128)
    ensures forall j | 0 <= j < |w| :: w[j] * Pow2(d * j) < Pow2(128)
  {
    ChunkWidth(d);
    PackFits(w, d);
  }

  /** The same for any chunk of at most 116 bits. */
  lemma PackFits(w: seq<Fe>, d: nat)
    requires d * |w| + 12 <= 128
    ensures Pack(w, d) < Pow2(128)
    ensures forall j | 0 <= j < |w| :: w[j] * Pow2(d * j) < Pow2(128)
  {
    MulMono(d, 0, |w|);
    var k: nat := d * |w|;
    PackBound(w, d);
    PowMonotone(2, k + 12, 128);
    ShiftsFitU128(w, d);
  }

  /** Every value of a chunk of at most 116 bits, shifted into place, fits a `u128`. */
  lemma ShiftsFitU128(w: seq<Fe>, d: nat)
    requires d * |w| + 12 <= 128
    ensures forall j | 0 <= j < |w| :: w[j] * Pow2(d * j) < Pow2(128)
  {
    forall j: nat | j < |w|
      ensures w[j] * Pow2(d * j) < Pow2(128)
    {
      ShiftedFitsU128(w[j], d, j, |w|);
    }
  }

  /** A chunk of `ValueStep(d)` values spans at most 88 bits. */
  lemma ChunkWidth(d: nat)
    requires ValidWidth(d)
    ensures d * ValueStep(d) + 12 <= 128
  {
    StepFacts(d);
  }

  lemma ShiftedFitsU128(v: Fe, d: nat, j: nat, n: nat)
    requires j < n && d * n + 12 <= 128
    ensures v * Pow2(d * j) < Pow2(128)
  {
    ShiftedBound(v, d * j);
    MulMono(d, j, n);
    PowMonotone(2, d * j + 12, 128);
  }

  /** A reduced value shifted by `s` bits is below `2^(s + 12)`. */
  lemma ShiftedBound(v: Fe, s: nat)
    ensures v * Pow2(s) < Pow2(s + 12)
  {
    Pow2Values();
    PowAdd(2, s, 12);
    MulMono(Pow2(s), v, 4095);
  }

  /** The packed chunk of `n` reduced values is below `2^(d * n + 12)`. */
  lemma {:induction false} PackBound(w: seq<Fe>, d: nat)
    ensures Pack(w, d) < Pow2(d * |w| + 12)
    decreases |w|
  {
    if w == [] {
      Pow2Values();
    } else {
      var n := |w| - 1;
      PackBound(w[..n], d);
      ShiftedBound(w[n], d * n);
      assert d * |w| == d * n + d;
      PowMonotone(2, d * n + 12, d * |w| + 12);
      BitOrBound(Pack(w[..n], d), w[n] * Pow2(d * n), d * |w| + 12);
    }
  }

  // ---------------------------------------------------------------------
  // Known answers
  // ---------------------------------------------------------------------

  /** The Rust tests' `Repeat::repeat`: `k` copies of `s`, element `i` being
      `s[i % |s|]`. */
  function Repeat<T>(s: seq<T>, k: nat): (r: seq<T>)
    requires |s| > 0
    ensures |r| == |s| * k
    ensures forall i | 0 <= i < |r| :: r[i] == s[i % |s|]
  {
    seq(|s| * k, i requires 0 <= i < |s| * k => s[i % |s|])
  }

  /** Thirty-two copies of a pattern of eight values encode to thirty-two
      copies of a pattern of `d` bytes, and those decode back, whenever both
      patterns spell the same number `v`. */
  lemma KnownAnswer(pattern: seq<Fe>, e: seq<Byte>, d: nat, v: nat)
    requires ValidWidth(d) && |pattern| == 8 && |e| == d && Fits(pattern, d)
    requires FromDigits(e, 256) == v && FromDigits(pattern, Pow2(d)) == v
    ensures ByteEncode(Repeat(pattern, 32), d) == Repeat(e, 32)
    ensures ByteDecode(Repeat(e, 32), d) == Repeat(pattern, 32)
  {
    var vals: Coeffs := Repeat(pattern, 32);
    RepeatFits(pattern, d, 32);
    EncodedValue(vals, d);
    RepeatValue(pattern, e, d);
    SameValueSameBytes(ByteEncode(vals, d), Repeat(e, 32));
    DecodeEncode(vals, d);
  }

  lemma RepeatFits(pattern: seq<Fe>, d: nat, k: nat)
    requires |pattern| > 0 && Fits(pattern, d)
    ensures Fits(Repeat(pattern, k), d)
  {
    var r := Repeat(pattern, k);
    forall i | 0 <= i < |r|
      ensures r[i] < Pow2(d)
    {
      assert r[i] == pattern[i % |pattern|];
    }
  }

  /** Repetitions of two patterns that spell the same number spell the same
      number. */
  lemma RepeatValue(pattern: seq<Fe>, e: seq<Byte>, d: nat)
    requires |pattern| == 8 && |e| == d > 0
    requires FromDigits(e, 256) == FromDigits(pattern, Pow2(d))
    ensures FromDigits(Repeat(pattern, 32), Pow2(d)) == FromDigits(Repeat(e, 32), 256)
  {
    var a, b := Repeat(pattern, 32), Repeat(e, 32);
    PatternPowers(d);
    assert |a| == 32 * |pattern| && |b| == 32 * |e|;
    assert Periodic(a, pattern) && Periodic(b, e);
    PeriodicValue(a, pattern, Pow2(d), b, e, 256, 32);
  }

  /** Eight `d`-bit digits span as many bits as `d` bytes. */
  lemma PatternPowers(d: nat)
    ensures Pow(Pow2(d), 8) == Pow(256, d)
  {
    PowOfPow2(d, 8);
    PowOfPow2(8, d);
    Pow2Values();
    assert d * 8 == 8 * d;
  }

  /** The values `0, 1, ..., 7` of the Rust codec tests. */
  const Ramp8: seq<Fe> := [0, 1, 2, 3, 4, 5, 6, 7]

  /** The ramp fits in every width of at least three bits. */
  lemma RampFits(d: nat)
    requires 3 <= d
    ensures Fits(Ramp8, d)
  {
    Pow2Values();
    PowMonotone(2, 3, d);
  }

  /** Four repetitions of `0, 1`: the d = 1 test's values, eight at a time. */
  const Alternating8: seq<Fe> := [0, 1, 0, 1, 0, 1, 0, 1]

  /** d = 1: alternating 0 and 1 pack to bytes `0xaa`. */
  lemma KnownAnswer1()
    ensures ByteEncode(Repeat<Fe>([0, 1], 128), 1) == Repeat<Byte>([0xaa], 32)
    ensures ByteDecode(Repeat<Byte>([0xaa], 32), 1) == Repeat<Fe>([0, 1], 128)
  {
    AlternatingRepeat();
    AlternatingDigits();
    KnownAnswer(Alternating8, [0xaa], 1, 0xaa);
  }

  lemma AlternatingRepeat()
    ensures Repeat<Fe>([0, 1], 128) == Repeat(Alternating8, 32)
  {
    forall i | 0 <= i < 256
      ensures Repeat<Fe>([0, 1], 128)[i] == Repeat(Alternating8, 32)[i]
    {
      ModNarrow(i, 2, 4);
    }
  }

  lemma AlternatingDigits()
    ensures Fits(Alternating8, 1)
    ensures FromDigits(Alternating8, Pow2(1)) == 0xaa && FromDigits([0xaa], 256) == 0xaa
  {
    Pow2Values();
  }

  /** d = 4: the values `0, 1, ..., 7` pack into the four bytes `10 32 54 76`. */
  lemma KnownAnswer4()
    ensures ByteEncode(Repeat(Ramp8, 32), 4) == Repeat<Byte>([0x10, 0x32, 0x54, 0x76], 32)
    ensures ByteDecode(Repeat<Byte>([0x10, 0x32, 0x54, 0x76], 32), 4) == Repeat(Ramp8, 32)
  {
    RampFits(4);
    RampDigits4();
    ByteDigits4();
    KnownAnswer(Ramp8, [0x10, 0x32, 0x54, 0x76], 4, 0x76543210);
  }

  lemma RampDigits4()
    ensures FromDigits(Ramp8, Pow2(4)) == 0x76543210
  {
    Pow2Values();
  }

  lemma ByteDigits4()
    ensures FromDigits([0x10, 0x32, 0x54, 0x76], 256) == 0x76543210
  {
  }

  /** d = 5: the values `0, 1, ..., 7` pack into the five bytes `20 88 41 8a 39`. */
  lemma KnownAnswer5()
    ensures ByteEncode(Repeat(Ramp8, 32), 5) == Repeat<Byte>([0x20, 0x88, 0x41, 0x8a, 0x39], 32)
    ensures ByteDecode(Repeat<Byte>([0x20, 0x88, 0x41, 0x8a, 0x39], 32), 5) == Repeat(Ramp8, 32)
  {
    RampFits(5);
    RampDigits5();
    ByteDigits5();
    KnownAnswer(Ramp8, [0x20, 0x88, 0x41, 0x8a, 0x39], 5, 0x398a418820);
  }

  lemma RampDigits5()
    ensures FromDigits(Ramp8, Pow2(5)) == 0x398a418820
  {
    Pow2Values();
  }

  lemma ByteDigits5()
    ensures FromDigits([0x20, 0x88, 0x41, 0x8a, 0x39], 256) == 0x398a418820
  {
  }

  /** d = 6: the values `0, 1, ..., 7` pack into the six bytes `40 20 0c 44 61 1c`. */
  lemma KnownAnswer6()
    ensures ByteEncode(Repeat(Ramp8, 32), 6) == Repeat<Byte>([0x40, 0x20, 0x0c, 0x44, 0x61, 0x1c], 32)
    ensures ByteDecode(Repeat<Byte>([0x40, 0x20, 0x0c, 0x44, 0x61, 0x1c], 32), 6) == Repeat(Ramp8, 32)
  {
    RampFits(6);
    RampDigits6();
    ByteDigits6();
    KnownAnswer(Ramp8, [0x40, 0x20, 0x0c, 0x44, 0x61, 0x1c], 6, 0x1c61440c2040);
  }

  lemma RampDigits6()
    ensures FromDigits(Ramp8, Pow2(6)) == 0x1c61440c2040
  {
    Pow2Values();
  }

  lemma ByteDigits6()
    ensures FromDigits([0x40, 0x20, 0x0c, 0x44, 0x61, 0x1c], 256) == 0x1c61440c2040
  {
  }

  /** d = 10: the values `0, 1, ..., 7` pack into the ten bytes `00 04 20 c0 00 04 14 60 c0 01`. */
  lemma KnownAnswer10()
    ensures ByteEncode(Repeat(Ramp8, 32), 10) == Repeat<Byte>([0x00, 0x04, 0x20, 0xc0, 0x00, 0x04, 0x14, 0x60, 0xc0, 0x01], 32)
    ensures ByteDecode(Repeat<Byte>([0x00, 0x04, 0x20, 0xc0, 0x00, 0x04, 0x14, 0x60, 0xc0, 0x01], 32), 10) == Repeat(Ramp8, 32)
  {
    RampFits(10);
    RampDigits10();
    ByteDigits10();
    KnownAnswer(Ramp8, [0x00, 0x04, 0x20, 0xc0, 0x00, 0x04, 0x14, 0x60, 0xc0, 0x01], 10, 0x1c060140400c0200400);
  }

  lemma RampDigits10()
    ensures FromDigits(Ramp8, Pow2(10)) == 0x1c060140400c0200400
  {
    Pow2Values();
  }

  lemma ByteDigits10()
    ensures FromDigits([0x00, 0x04, 0x20, 0xc0, 0x00, 0x04, 0x14, 0x60, 0xc0, 0x01], 256) == 0x1c060140400c0200400
  {
  }

  /** d = 11: the values `0, 1, ..., 7` pack into the eleven bytes `00 08 80 00 06 40 80 02 18 e0 00`. */
  lemma KnownAnswer11()
    ensures ByteEncode(Repeat(Ramp8, 32), 11) == Repeat<Byte>([0x00, 0x08, 0x80, 0x00, 0x06, 0x40, 0x80, 0x02, 0x18, 0xe0, 0x00], 32)
    ensures ByteDecode(Repeat<Byte>([0x00, 0x08, 0x80, 0x00, 0x06, 0x40, 0x80, 0x02, 0x18, 0xe0, 0x00], 32), 11) == Repeat(Ramp8, 32)
  {
    RampFits(11);
    RampDigits11();
    ByteDigits11();
    KnownAnswer(Ramp8, [0x00, 0x08, 0x80, 0x00, 0x06, 0x40, 0x80, 0x02, 0x18, 0xe0, 0x00], 11, 0xe0180280400600800800);
  }

  lemma RampDigits11()
    ensures FromDigits(Ramp8, Pow2(11)) == 0xe0180280400600800800
  {
    Pow2Values();
  }

  lemma ByteDigits11()
    ensures FromDigits([0x00, 0x08, 0x80, 0x00, 0x06, 0x40, 0x80, 0x02, 0x18, 0xe0, 0x00], 256) == 0xe0180280400600800800
  {
  }

  /** d = 12: the values `0, 1, ..., 7` pack into the twelve bytes `00 10 00 02 30 00 04 50 00 06 70 00`. */
  lemma KnownAnswer12()
    ensures ByteEncode(Repeat(Ramp8, 32), 12) == Repeat<Byte>([0x00, 0x10, 0x00, 0x02, 0x30, 0x00, 0x04, 0x50, 0x00, 0x06, 0x70, 0x00], 32)
    ensures ByteDecode(Repeat<Byte>([0x00, 0x10, 0x00, 0x02, 0x30, 0x00, 0x04, 0x50, 0x00, 0x06, 0x70, 0x00], 32), 12) == Repeat(Ramp8, 32)
  {
    RampFits(12);
    RampDigits12();
    ByteDigits12();
    KnownAnswer(Ramp8, [0x00, 0x10, 0x00, 0x02, 0x30, 0x00, 0x04, 0x50, 0x00, 0x06, 0x70, 0x00], 12, 0x7006005004003002001000);
  }

  lemma RampDigits12()
    ensures FromDigits(Ramp8, Pow2(12)) == 0x7006005004003002001000
  {
    Pow2Values();
  }

  lemma ByteDigits12()
    ensures FromDigits([0x00, 0x10, 0x00, 0x02, 0x30, 0x00, 0x04, 0x50, 0x00, 0x06, 0x70, 0x00], 256) == 0x7006005004003002001000
  {
  }

  /** d = 12 reduces: 384 bytes `0xff` hold 256 fields `0xfff`, each of
      which decodes to `0xfff mod Q`. */
  lemma KnownAnswer12Reduced()
    ensures ByteDecode(Repeat<Byte>([0xff], 384), 12) == Repeat<Fe>([0xfff % Q], 256)
  {
    var r := ByteDecode(Repeat<Byte>([0xff], 384), 12);
    var e := Repeat<Fe>([0xfff % Q], 256);
    forall i | 0 <= i < 256
      ensures r[i] == e[i]
    {
      AllOnesDecoded(i);
    }
  }

  lemma AllOnesDecoded(i: nat)
    requires i < 256
    ensures ByteDecode(Repeat<Byte>([0xff], 384), 12)[i] == 0xfff % Q
    ensures Repeat<Fe>([0xfff % Q], 256)[i] == 0xfff % Q
  {
    var bytes := Repeat<Byte>([0xff], 384);
    DecodeMatchesReference(bytes, 12);
    AllOnesValue();
    AllOnesField(i);
    assert DecodeReference(bytes, 12)[i] == ReducedField(FromDigits(bytes, 256), 12, i);
  }

  /** 384 bytes `0xff` and 256 digits `0xfff` spell the same number. */
  lemma AllOnesValue()
    ensures FromDigits(Repeat<Byte>([0xff], 384), 256) == FromDigits(Repeat<nat>([0xfff], 256), 4096)
  {
    var bytes := Repeat<Byte>([0xff], 384);
    var w := Repeat<nat>([0xfff], 256);
    assert Periodic(w, [0xfff, 0xfff]);
    assert Periodic(bytes, [0xff, 0xff, 0xff]);
    assert FromDigits([0xfff, 0xfff], 4096) == FromDigits([0xff, 0xff, 0xff], 256);
    assert Pow(4096, 2) == Pow(256, 3);
    PeriodicValue(w, [0xfff, 0xfff], 4096, bytes, [0xff, 0xff, 0xff], 256, 128);
  }

  /** Every 12-bit field of 256 digits `0xfff` is `0xfff`. */
  lemma AllOnesField(i: nat)
    requires i < 256
    ensures BitField(FromDigits(Repeat<nat>([0xfff], 256), 4096), 12, i) == 0xfff
  {
    var w := Repeat<nat>([0xfff], 256);
    assert DigitsBelow(w, 4096);
    DigitAt(w, 4096, i);
    PowOfPow2(12, i);
    Pow2Values();
  }
}
