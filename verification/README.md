# ML-KEM arithmetic and encoding core, in Dafny

This project models the arithmetic and encoding core of the Rust `ml-kem` crate and proves properties of that model. The crate implements ML-KEM as described in FIPS 203 (initial public draft). The core covers three source files:

- `algebra.rs`: the field GF(3329), polynomials and their NTT-domain form, vectors and square matrices, and the two samplers.
- `encode.rs`: the `ByteEncode_d` / `ByteDecode_d` codec and the encodings of polynomials and vectors.
- `util.rs`: the array helpers (`map`, `zip`, `fold`, `truncate`, `flatten`, `unflatten`).

The modules follow the program's structure:

| module | file | contents |
|---|---|---|
| `Bits` | bits.dfy | powers of two, digit expansions, `&`, `|`, shifts |
| `Util` | util.dfy | `util.rs` |
| `Field` | field.dfy | `FieldElement` |
| `Twiddles` | twiddles.dfy | the `ZETA_POW_BITREV` and `GAMMA` tables |
| `Ring` | ring.dfy | polynomial, vector and matrix arithmetic |
| `Ntt` | ntt.dfy | `ntt` / `ntt_inverse` |
| `Codec` | codec.dfy | `byte_encode` / `byte_decode` |
| `VectorCodec` | vector_codec.dfy | the `Encode` impls |
| `Sample` | sample.dfy | `sample_cbd` and `FieldElementReader` |

Each Rust routine is written twice:

- as the code computes it: `u16`/`u32`/`u64`/`u128` widths, Barrett reduction, chunked packing into a `u128`, and the nested NTT loops with the running table index `k`;
- by value, in the terms of the standard.

The two forms are proved equal for every input the core passes. Two operations have such a limit. `byte_encode` is proved equal to the reference only for values below `2^d`; above that the OR of overlapping shifted values differs from the digit expansion. `barrett_reduce` is proved to return `x mod q` only for `x <= 2(q-1)^2`, the largest input its callers give it. The algebraic properties (round trips, linearity, tables against their defining formulas) are then proved about the value-level form.

For d = 12 the decoder reduces every 12-bit field modulo `q` (`encode.rs:57-59`), as `ByteDecode_12` of FIPS 203 does, and the model does the same. Nothing is rejected at this level. Rejecting a non-canonical encoding is the callers' job: the encapsulation-key modulus check of FIPS 203 tests `ByteEncode_12(ByteDecode_12(ek)) == ek`, and that check is outside this core. `Codec.EncodeDecodeCanonical` states exactly when re-encoding gives the input back: when every 12-bit field is below `q`.

## Model

| member | source | states |
|---|---|---|
| Util.Map | ml-kem/src/util.rs:57-63 | `map` applies the function at every index and keeps the length |
| Util.Zip | ml-kem/src/util.rs:65-71 | `zip` combines the two arrays index by index |
| Util.FoldLoop | ml-kem/src/util.rs:73-83 | the `fold` loop (start with element 0, combine with elements 1..N-1) computes the left fold; one element is returned unchanged |
| Util.FastClone | ml-kem/src/util.rs:21-29 | `fast_clone` returns an equal array |
| Util.Truncate | ml-kem/src/util.rs:91-109 | `truncate` keeps the low `width` bits (the value mod 2^width) and loses nothing when the value already fits |
| Util.Flatten | ml-kem/src/util.rs:118-132 | `flatten` of `N` parts of `M` elements has `M * N` elements; `Util.FlattenIndex` and `Util.FlattenPart` say where each element lands |
| Util.Unflatten | ml-kem/src/util.rs:144-161 | `unflatten` into `M` parts gives `M` parts of `N / M` elements each; `Util.UnflattenPart` says which elements |
| Util.FlattenIndex | ml-kem/src/util.rs:118-132 | element `j` of part `i` lands at position `i * m + j` of the flattened array |
| Util.FlattenPart | ml-kem/src/util.rs:118-132 | part `i` is the slice `[i*m, i*m + m)` of the flattened array |
| Util.UnflattenPart | ml-kem/src/util.rs:144-161 | part `i` of `unflatten` is the slice of length `N / M` at `i * (N / M)`, for `N % M == 0` |
| Util.UnflattenRef | ml-kem/src/util.rs:163-184 | the by-reference `unflatten`, with its advancing cursor, gives the same parts as the owned one |
| Util.FlattenUnflatten | ml-kem/src/util.rs:118-161 | flattening the unflattened array gives the array back |
| Util.UnflattenFlatten | ml-kem/src/util.rs:118-161 | unflattening a flattened array of equal-size parts gives the parts back |
| Util.FlattenExample | ml-kem/src/util.rs:191-228 | the test `flatten`: ten numbers as 5 pairs and as 2 halves, both flattening and unflattening |
| Field.SmallReduce | ml-kem/src/algebra.rs:28-34 | `small_reduce` keeps the residue, returns a reduced value exactly when the input is below `2q`, and is then `x mod q` |
| Field.BarrettReduce | ml-kem/src/algebra.rs:36-41 | `barrett_reduce`, written with its 64-, 32- and 16-bit truncations, returns `x mod q` for every input up to `2(q-1)^2` |
| Field.BarrettRemainder | ml-kem/src/algebra.rs:36-41 | the `u32` subtraction `x - quotient*q` never wraps, and below the bound it is a residue of `x` smaller than `2q` |
| Field.BarrettQuotient | ml-kem/src/algebra.rs:36-39 | the estimate `(x * 5039) >> 24` fits 32 bits, never exceeds `x / q`, and is at most one below it up to the bound |
| Field.BarrettEstimate | ml-kem/src/algebra.rs:37-38 | the `u64` product `x * 5039` of a 32-bit input never overflows 64 bits |
| Field.BarrettTruncation | ml-kem/src/algebra.rs:38-39 | truncating the shifted 64-bit product to `u32` loses nothing |
| Field.LowHalf | ml-kem/src/algebra.rs:40 | truncating the remainder to `u16` keeps it whenever it is below `2q` |
| Field.ReducedAdd | ml-kem/src/algebra.rs:66-72 | `FieldElement + FieldElement` on `u16` is the field sum |
| Field.ReducedSub | ml-kem/src/algebra.rs:74-81 | adding `Q` before subtracting keeps the `u16` difference positive and below `2q`, and the result is the field difference |
| Field.BarrettMul | ml-kem/src/algebra.rs:83-91 | `FieldElement * FieldElement` is the field product, and the `u32` product it reduces is at most the Barrett bound `2(q-1)^2` |
| Field.AddSubInverse | ml-kem/src/algebra.rs:66-81 | subtraction undoes addition and addition undoes subtraction |
| Field.AddInterchange | ml-kem/src/algebra.rs:66-72 | sums can be regrouped, which the linearity of the NTT rests on |
| Field.MulDistributes | ml-kem/src/algebra.rs:66-91 | the product distributes over the sum |
| Field.MulDistributesSub | ml-kem/src/algebra.rs:74-91 | the product distributes over the difference |
| Field.MulAssociates | ml-kem/src/algebra.rs:83-91 | the product is associative |
| Field.MulCommutes | ml-kem/src/algebra.rs:83-91 | the product is commutative |
| Twiddles.ZetaPowBitrevTableAgrees | ml-kem/src/algebra.rs:283-450 | entry `i` of `ZETA_POW_BITREV` is `17^BitRev7(i) mod q`, as the generator comment defines it |
| Twiddles.GammaTableAgrees | ml-kem/src/algebra.rs:283-580 | entry `i` of the `GAMMA` literals (lines 451-580) is `17^(2*BitRev7(i)+1) mod q`, as the generator comment (lines 283-320) defines it |
| Twiddles.GammaIsSquareTimesZeta | ml-kem/src/algebra.rs:315-319 | `GAMMA[i] = ZETA_POW_BITREV[i]^2 * 17`, the generator's own formula |
| Twiddles.PowersAgree | ml-kem/src/algebra.rs:302-307 | the helper table `pow[e] = pow[e-1] * 17` holds `17^e mod q` for every `e < 256`; it extends the generator's 128-entry table, because `GAMMA` needs exponents up to 255 |
| Twiddles.ZetaPowAdd | ml-kem/src/algebra.rs:302-307 | powers of zeta multiply by adding exponents |
| Twiddles.ZetaPowHalf | ml-kem/src/algebra.rs:618-662 | `17^128 = -1 mod q`: zeta is a primitive 256th root of unity |
| Twiddles.ZetaPaired | ml-kem/src/algebra.rs:646-650 | the zeta entry the inverse transform uses for a block times the forward one is `-1` |
| Twiddles.ZetaPowBitrevEntry | ml-kem/src/algebra.rs:321-450 | a lookup in `ZETA_POW_BITREV` returns `zeta^BitRev7(k)` |
| Twiddles.GammaEntry | ml-kem/src/algebra.rs:451-580 | a lookup in `GAMMA` returns `zeta^(2*BitRev7(i)+1)` |
| Ring.PolyAdd | ml-kem/src/algebra.rs:101-107 | polynomial sum, coefficient by coefficient |
| Ring.PolySub | ml-kem/src/algebra.rs:109-115 | polynomial difference, coefficient by coefficient |
| Ring.Scale | ml-kem/src/algebra.rs:117-123 | `FieldElement * &Polynomial` multiplies every coefficient |
| Ring.MultiplyScalar | ml-kem/src/algebra.rs:117-123 | the scalar product through `map` is the coefficient-wise product |
| Ring.PolyAddSubInverse | ml-kem/src/algebra.rs:101-115 | polynomial subtraction and addition undo each other |
| Ring.ScaleDistributes | ml-kem/src/algebra.rs:101-123 | scaling distributes over the polynomial sum |
| Ring.ScaleScale | ml-kem/src/algebra.rs:117-123 | scaling twice is scaling by the product |
| Ring.PolynomialOps | ml-kem/src/algebra.rs:772-780 | the test `polynomial_ops`: `i + 2i = 3i`, `3i - 2i = i`, `3 * i = 3i` |
| Ring.NttAdd | ml-kem/src/algebra.rs:211-217 | the NTT-domain sum, coefficient by coefficient |
| Ring.BaseCaseMultiply | ml-kem/src/algebra.rs:47-59 | `base_case_multiply` with its `u32` sums and three Barrett reductions computes `(a0 + a1 X)(b0 + b1 X) mod (X^2 - GAMMA[i])` |
| Ring.BaseCaseBounds | ml-kem/src/algebra.rs:56-57 | both sums handed to `barrett_reduce` are within its exact range |
| Ring.MultiplyNtts | ml-kem/src/algebra.rs:582-604 | the loop over the 128 pairs computes the NTT-domain product, one base-case product per pair |
| Ring.NttMulPair | ml-kem/src/algebra.rs:589-600 | output pair `i` is the base-case product of input pair `i` with `GAMMA[i]` |
| Ring.NttMulCommutes | ml-kem/src/algebra.rs:583-604 | the NTT-domain product is commutative |
| Ring.PolyVecAdd | ml-kem/src/algebra.rs:182-188 | vector sum, polynomial by polynomial |
| Ring.NttVecAdd | ml-kem/src/algebra.rs:682-688 | NTT-vector sum, polynomial by polynomial |
| Ring.Dot | ml-kem/src/algebra.rs:690-696 | `&NttVector * &NttVector`: entry-wise NTT-domain products summed by a left fold; `Ring.DotCommutes`, `Ring.DotDistributes` and `Ring.DotConstants` give its meaning |
| Ring.DotCommutes | ml-kem/src/algebra.rs:690-696 | the dot product (zip with product, fold with sum) is symmetric |
| Ring.DotConstants | ml-kem/src/algebra.rs:690-696 | the dot product of two vectors of constants is the constant of the field dot product |
| Ring.NttMulDistributes | ml-kem/src/algebra.rs:582-604 | the NTT-domain product distributes over the NTT-domain sum, for all inputs |
| Ring.DotDistributes | ml-kem/src/algebra.rs:690-696 | the dot product distributes over the vector sum, for all vectors of equal length |
| Ring.MatrixMulVec | ml-kem/src/algebra.rs:715-721 | entry `i` of the matrix-vector product is the dot product of row `i` with the vector |
| Ring.MatrixMulVecLinear | ml-kem/src/algebra.rs:715-721 | the matrix-vector product is linear in the vector: `A(v + w) = Av + Aw` for every square matrix |
| Ring.Transpose | ml-kem/src/algebra.rs:730-734 | entry `(i, j)` of the transpose is entry `(j, i)` of the matrix |
| Ring.TransposeInvolution | ml-kem/src/algebra.rs:730-734 | transposing twice gives the matrix back |
| Ring.ConstNtt | ml-kem/src/algebra.rs:765-770 | `const_ntt(x)` is `x` in every even slot and 0 in every odd slot |
| Ring.ConstNttAdd | ml-kem/src/algebra.rs:765-770 | constants add as field elements in the NTT domain |
| Ring.ConstNttMul | ml-kem/src/algebra.rs:765-770 | constants multiply as field elements in the NTT domain |
| Ring.NttVectorSumExample | ml-kem/src/algebra.rs:806-812 | the test `ntt_vector`: `[1,1,1] + [2,2,2] = [3,3,3]` |
| Ring.NttVectorDotExample | ml-kem/src/algebra.rs:814-817 | the test `ntt_vector`: the dot products 6, 9 and 18 |
| Ring.NttMatrixProductExample | ml-kem/src/algebra.rs:820-830 | the test `ntt_matrix`: the 3x3 matrix times `[1,2,3]` is `[14,32,50]` |
| Ring.NttMatrixTransposeExample | ml-kem/src/algebra.rs:832-838 | the test `ntt_matrix`: the transpose of the 3x3 matrix |
| Ntt.Ntt | ml-kem/src/algebra.rs:618-640 | `Polynomial::ntt` by value: the seven forward layers; `Ntt.NttLoop` ties it to the loops and `Ntt.NttRoundTrip` / `Ntt.NttAdditive` give its meaning |
| Ntt.NttInverse | ml-kem/src/algebra.rs:641-662 | `NttPolynomial::ntt_inverse` by value: the seven inverse layers, then times 3303; `Ntt.NttInverseLoop` ties it to the loops and `Ntt.NttInverseRoundTrip` gives its meaning |
| Ntt.NttLoop | ml-kem/src/algebra.rs:618-640 | the three nested loops of `ntt`, with `k` running from 1, compute the seven butterfly layers |
| Ntt.ForwardLayerLoop | ml-kem/src/algebra.rs:624-634 | one pass of the `start` loop computes one forward layer and advances `k` from `2^l` to `2^(l+1)` |
| Ntt.NttInverseLoop | ml-kem/src/algebra.rs:641-662 | the loops of `ntt_inverse`, with `k` running down from 127, followed by the multiplication by 3303, compute the inverse transform |
| Ntt.InverseLayerLoop | ml-kem/src/algebra.rs:647-657 | one pass of the inverse `start` loop computes one inverse layer and moves `k` down by `2^l` |
| Ntt.ForwardPair | ml-kem/src/algebra.rs:629-633 | the forward butterfly: `f[j] + zeta*f[j+len]` and `f[j] - zeta*f[j+len]` |
| Ntt.InversePair | ml-kem/src/algebra.rs:652-656 | the inverse butterfly: `f[j] + f[j+len]` and `zeta*(f[j+len] - f[j])` |
| Ntt.InverseForwardLayer | ml-kem/src/algebra.rs:618-662 | an inverse layer after the forward layer of the same length doubles every coefficient |
| Ntt.InverseScaleCancels | ml-kem/src/algebra.rs:660 | seven doublings give 128, and `3303 * 128 = 1 mod q` |
| Ntt.NttRoundTrip | ml-kem/src/algebra.rs:789-791 | `ntt_inverse(ntt(f)) = f` for every polynomial, as the test `ntt` checks for one |
| Ntt.NttInverseRoundTrip | ml-kem/src/algebra.rs:618-662 | `ntt(ntt_inverse(g)) = g` for every NTT-domain polynomial |
| Ntt.NttAdditive | ml-kem/src/algebra.rs:793-797 | the NTT maps sums to sums |
| Ntt.NttInverseAdditive | ml-kem/src/algebra.rs:642-662 | the inverse NTT maps sums to sums |
| Ntt.NttSumRoundTrip | ml-kem/src/algebra.rs:793-797 | the test `ntt`: the inverse of `ntt(f) + ntt(g)` is `f + g`, for every `f` and `g` |
| Ntt.NttOfConstant | ml-kem/src/algebra.rs:765-770 | the NTT of the constant `x` is `x` in every even slot and 0 in every odd slot, so `const_ntt` is what the tests rely on |
| Ntt.VecNtt | ml-kem/src/algebra.rs:698-702 | `PolynomialVector::ntt` transforms every entry and keeps the length |
| Ntt.VecNttInverse | ml-kem/src/algebra.rs:704-708 | `NttVector::ntt_inverse` transforms every entry back and keeps the length |
| Ntt.VecNttRoundTrip | ml-kem/src/algebra.rs:698-708 | the two vector transforms are mutually inverse |
| Ntt.VecNttAdditive | ml-kem/src/algebra.rs:698-702 | the vector NTT maps vector sums to vector sums |
| Codec.StepFacts | ml-kem/src/encode.rs:15-17 | for each width, a chunk of `ValueStep` values fills exactly `ByteStep` bytes, the chunks tile the 256 values and the `32*d` bytes, and a chunk fits 88 bits |
| Codec.ByteEncode | ml-kem/src/encode.rs:15-34 | `byte_encode` produces `32*d` bytes |
| Codec.ByteDecode | ml-kem/src/encode.rs:39-64 | `byte_decode` returns 256 values, chunk by chunk; `Codec.DecodeMatchesReference` gives their content and `Codec.DecodeFits` their range |
| Codec.DecodeValue | ml-kem/src/encode.rs:53-59 | the decoded value is field `j` of the chunk, masked to `d` bits, and reduced mod `q` only for d = 12 |
| Codec.PackFitsU128 | ml-kem/src/encode.rs:24-27 | every shifted value and the OR of a chunk fit the `u128` accumulator |
| Codec.EncodeMatchesReference | ml-kem/src/encode.rs:15-34 | for values below `2^d`, the chunked encoder gives the standard's bytes (the values as base-`2^d` digits of one little-endian number) |
| Codec.DecodeMatchesReference | ml-kem/src/encode.rs:39-64 | the chunked decoder gives the standard's values (field `i` of the little-endian number, reduced mod `q` for d = 12), for every input |
| Codec.DecodeFits | ml-kem/src/encode.rs:39-64 | every decoded value is below `2^d` |
| Codec.DecodeEncode | ml-kem/src/encode.rs:182-184 | decoding an encoding gives the values back, for all values below `2^d` |
| Codec.EncodeDecode | ml-kem/src/encode.rs:186-187 | for d < 12, re-encoding a decoding gives the bytes back, for every input |
| Codec.EncodeDecode12 | ml-kem/src/encode.rs:57-59 | for d = 12, re-encoding a decoding gives the bytes back exactly when every 12-bit field is below `q` |
| Codec.EncodeDecodeCanonical | ml-kem/src/encode.rs:39-64 | for every width, re-encoding gives the bytes back exactly when they are canonical |
| Codec.Repeat | ml-kem/src/encode.rs:145-159 | the test helper `repeat`: element `i` is `s[i mod |s|]` |
| Codec.KnownAnswer1 | ml-kem/src/encode.rs:192-195 | d = 1: `[0, 1]` repeated encodes to `0xaa` repeated, and back |
| Codec.KnownAnswer4 | ml-kem/src/encode.rs:198-211 | d = 4: `0..7` repeated encodes to `10 32 54 76` repeated, and back |
| Codec.KnownAnswer5 | ml-kem/src/encode.rs:213-214 | d = 5 known answer, both directions |
| Codec.KnownAnswer6 | ml-kem/src/encode.rs:216-217 | d = 6 known answer, both directions |
| Codec.KnownAnswer10 | ml-kem/src/encode.rs:219-221 | d = 10 known answer, both directions |
| Codec.KnownAnswer11 | ml-kem/src/encode.rs:223-225 | d = 11 known answer, both directions |
| Codec.KnownAnswer12 | ml-kem/src/encode.rs:227-229 | d = 12 known answer, both directions |
| Codec.KnownAnswer12Reduced | ml-kem/src/encode.rs:232-240 | 384 bytes of `0xff` decode at d = 12 to `0xfff mod q` everywhere |
| VectorCodec.EncodePoly | ml-kem/src/encode.rs:72-82 | `Polynomial::encode` is `byte_encode` of the coefficients, `32*d` bytes |
| VectorCodec.DecodePoly | ml-kem/src/encode.rs:79-81 | `Polynomial::decode` is `byte_decode` of the bytes; `VectorCodec.PolyRoundTrip` gives its meaning |
| VectorCodec.EncodeNttPoly | ml-kem/src/encode.rs:105-107 | `NttPolynomial::encode` is `byte_encode` of the coefficients, `32*d` bytes |
| VectorCodec.DecodeNttPoly | ml-kem/src/encode.rs:109-111 | `NttPolynomial::decode` is `byte_decode` of the bytes; `VectorCodec.NttPolyRoundTrip` gives its meaning |
| VectorCodec.PolyRoundTrip | ml-kem/src/encode.rs:72-82 | polynomial decode after encode is the identity for coefficients below `2^d`; encode after decode is the identity exactly on canonical bytes |
| VectorCodec.NttPolyRoundTrip | ml-kem/src/encode.rs:102-112 | the same two round trips for NTT-domain polynomials |
| VectorCodec.EncodeAllPart | ml-kem/src/encode.rs:91-94 | block `i` of the flattened encodings is the encoding of entry `i` |
| VectorCodec.DecodeAllPart | ml-kem/src/encode.rs:96-99 | entry `i` of the decoded vector is the decoding of block `i` |
| VectorCodec.EncodePolyVec | ml-kem/src/encode.rs:91-94 | `PolynomialVector::encode` gives `32*d` bytes per entry; `VectorCodec.PolyVecLayout` says where each entry goes |
| VectorCodec.DecodePolyVec | ml-kem/src/encode.rs:96-99 | `PolynomialVector::decode` gives `k` entries; `VectorCodec.PolyVecLayout` says which bytes each is read from |
| VectorCodec.EncodeNttVec | ml-kem/src/encode.rs:121-124 | `NttVector::encode` gives `32*d` bytes per entry; `VectorCodec.NttVecLayout` says where each entry goes |
| VectorCodec.DecodeNttVec | ml-kem/src/encode.rs:126-129 | `NttVector::decode` gives `k` entries; `VectorCodec.NttVecLayout` says which bytes each is read from |
| VectorCodec.PolyVecLayout | ml-kem/src/encode.rs:84-100 | `PolynomialVector::encode` puts entry `i` at bytes `[32*d*i, 32*d*(i+1))`, and decode reads it from there |
| VectorCodec.NttVecLayout | ml-kem/src/encode.rs:114-130 | the same layout for `NttVector` |
| VectorCodec.PolyVecRoundTrip | ml-kem/src/encode.rs:84-100 | vector decode after encode is the identity for coefficients below `2^d`; encode after decode is the identity exactly when every block is canonical |
| VectorCodec.NttVecRoundTrip | ml-kem/src/encode.rs:114-130 | the same two round trips for NTT vectors |
| VectorCodec.VectorKnownAnswer | ml-kem/src/encode.rs:254-282 | the test `vector_codec`: `k` copies of the ramp polynomial encode at d = 5 to the 5-byte pattern repeated `32*k` times, and back, for every `k > 0` |
| Sample.OnesTable | ml-kem/src/algebra.rs:126-157 | `ONES[i][j] = popcount(i) - popcount(j) mod q`, as its generator comment says |
| Sample.CbdIndices | ml-kem/src/algebra.rs:171-172 | the masked low half and the shifted high half of a `2*eta`-bit value are valid table indices |
| Sample.CbdCoefficient | ml-kem/src/algebra.rs:169-174 | the table lookup gives the sum of the low `eta` bits minus the sum of the high `eta` bits |
| Sample.SampleCbd | ml-kem/src/algebra.rs:164-175 | `sample_cbd` decodes the `64*eta` bytes into `2*eta`-bit values and maps each through `ONES`; `Sample.SampleCbdMatchesReference` gives its meaning |
| Sample.SampleCbdMatchesReference | ml-kem/src/algebra.rs:159-175 | `sample_cbd` (decode into `2*eta`-bit values, then look up) equals SamplePolyCBD of the standard: coefficient `i` is the sum of bits `2*eta*i .. 2*eta*i + eta - 1` of the input minus the sum of the next `eta` bits |
| Sample.SampleCbdSupport | ml-kem/src/algebra.rs:159-175 | every sampled coefficient lies in `[-eta, eta]` mod `q`, the support the test's reference distributions give |
| Sample.Candidates | ml-kem/src/algebra.rs:258-259 | `d1` and `d2` are the low and high 12 bits of the 3-byte chunk read little-endian |
| Sample.NewReader | ml-kem/src/algebra.rs:228-240 | a new reader starts at the first byte with nothing buffered |
| Sample.Next | ml-kem/src/algebra.rs:242-272 | `next` keeps the stream and a valid position |
| Sample.NextPending | ml-kem/src/algebra.rs:242-272 | `next` returns the first value still pending (the buffered `d2`, then accepted candidates in order) and removes exactly it; it fails only when nothing is pending |
| Sample.Take | ml-kem/src/algebra.rs:277-280 | `n` successive calls of `next`, each from the state the last one left; on success it yields `n` values and a valid reader |
| Sample.TakePending | ml-kem/src/algebra.rs:242-280 | `n` calls of `next` succeed exactly when `n` values are pending, and return the first `n` |
| Sample.SampleUniform | ml-kem/src/algebra.rs:277-280 | `sample_uniform` takes 256 values from a fresh reader; `Sample.SampleUniformMatchesReference` gives its meaning |
| Sample.SampleUniformMatchesReference | ml-kem/src/algebra.rs:275-280 | `sample_uniform` succeeds exactly when the stream holds 256 accepted candidates and returns the first 256: SampleNTT of the standard |

## Left out

- The XOF and the PRF (SHAKE128, SHAKE256) are not modelled. The samplers take their byte streams as parameters.
- `PolynomialVector::sample_cbd`, `NttVector::sample_uniform` and `NttMatrix::sample_uniform` (`algebra.rs:190-201`, `668-680`, `723-728`) are not modelled. They only derive XOF/PRF inputs and call the modelled samplers.
- Sample.SampleUniform: the source's XOF never runs out, and the reader refills a 96-byte buffer from it. The model reads one finite byte sequence standing for the concatenated blocks. This is equivalent because 96 is a multiple of the 3-byte chunk. Where the source would keep reading, the model returns `None`.
- The statistical tests (`algebra.rs:841-951`) are not modelled: they use `f64` Kullback-Leibler divergences. Only their support condition is stated, as `Sample.SampleCbdSupport`.
- The multiplicative part of the test `ntt` (`algebra.rs:799-803`), that the NTT turns the product in `R_q` into the NTT-domain product, is not proved. The proof needs the Chinese-remainder decomposition of `Z_q[X]/(X^256+1)`. Additivity and the round trips are proved.
- The random round-trip tests in `byte_codec_test` are stated as lemmas over all inputs instead.
- The encoders are pure functions, so their determinism needs no statement.
- Codec.ValueStep: the crate's `EncodingSize` parameter types (typenum, not part of this model) fix `ValueStep` and `ByteStep`. The model takes `ValueStep = lcm(d, 8) / d` and `ByteStep = lcm(d, 8) / 8`, the smallest choice for which the chunks tile both arrays exactly. Any multiple of `lcm(d, 8)` that still fits the `u128` would tile them too. For values below `2^d` the output does not depend on the choice: `Codec.EncodeMatchesReference` and `Codec.DecodeMatchesReference` tie both directions to the chunk-free reference.
- Fixed-width integers are not modelled with wrap-around. Each intermediate is instead proved to fit its Rust width: the `u32` Barrett remainder (`Field.BarrettRemainder`), the `u64` product (`Field.BarrettEstimate`), the `u128` chunk accumulator (`Codec.PackFitsU128`) and the `u16` decode values (`Codec.DecodeValue`).
- Constant-time behaviour, the `unsafe` `ptr::read` casts and `ManuallyDrop` in `flatten`/`unflatten`, and the `Copy`/`Default` trait plumbing are outside a value-level model.
