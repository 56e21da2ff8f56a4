# Conjectured security of a STARK proof

This project models the proof object of the winterfell STARK prover/verifier
and the arithmetic that estimates a proof's conjectured security level, from
`common/src/proof/mod.rs`. It also proves what that estimate promises.

- `StarkProof` aggregates a `Context` (the LDE domain depth, the little-endian
  bytes of the base field modulus, and the proof options) with commitments,
  queries, an out-of-domain frame, a FRI proof and a proof-of-work nonce.
- The accessors give the LDE domain size `2^depth` and the trace length
  `2^depth / blowup_factor`.
- `security_level(true)` is one bit less than the smallest of three bounds:
  - the field security: modulus bits times extension degree, less the
    domain's trailing zeros;
  - the hash function's collision resistance;
  - the query security: `log2(lde / trace)` bits per query times the number
    of queries, plus the grinding bits once that product reaches 80.
- `security_level(false)`, the proven estimate, is not implemented.

Files:

- `bits.dfy` (module `Bits`): powers of two, bit length, the value of a
  little-endian byte string, and the integer primitives the source calls
  (`u8::leading_zeros`, `u64::trailing_zeros`, `2usize.pow`,
  `math::utils::log2`).
- `proof.dfy` (module `Proof`): the data model, `get_num_modulus_bits` as a
  method with a loop, the accessors, the estimator and the security level.

Rust's unsigned arithmetic is modelled in its checked form. Each point where
the source's `u32` arithmetic would overflow or underflow, and the division by
a zero trace length, yields a distinct `Failure`. A result is never a silently
wrapped number. The proven-security path yields `Failure.Unsupported`.

## Model

| member | source | states |
|---|---|---|
| `Bits.LeadingZeros8` | common/src/proof/mod.rs:100 | `byte.leading_zeros()` plus the byte's bit length is always 8 |
| `Bits.TrailingZeros64` | common/src/proof/mod.rs:118 | `trailing_zeros` of a `u64` is 64 for zero; otherwise `2^r` divides the input and the quotient is odd, so `r` is the count of trailing zero bits |
| `Bits.Log2` | common/src/proof/mod.rs:125 | the foreign `log2` is defined on powers of two, and `2^log2(n) == n` |
| `Bits.Pow2FitsU64` | common/src/proof/mod.rs:62 | `2^depth` fits a 64-bit `usize` exactly when `depth < 64` |
| `Proof.NumModulusBits` | common/src/proof/mod.rs:96-107 | the reverse byte scan with early return yields exactly the bit length of the little-endian value (0 for all-zero input) |
| `Proof.TopByteBitLength` | common/src/proof/mod.rs:99-101 | a non-zero most significant byte above `n` lower bytes gives `8n + bitlen(byte)` bits, which is `8(n+1) - leading_zeros(byte)` |
| `Proof.ModulusBitsOfZeros` | common/src/proof/mod.rs:98-106 | an empty or all-zero byte string has 0 bits |
| `Proof.ModulusBitsBounds` | common/src/proof/mod.rs:97-101 | for value `v` and bit count `k`: `v < 2^k`, `2^(k-1) <= v` when `v > 0`, `k == 0` iff `v == 0`, and `k <= 8 * len` |
| `Proof.ModulusBitsHighZeros` | common/src/proof/mod.rs:98-103 | appending high-order zero bytes leaves the bit count unchanged |
| `Proof.ModulusBitsExamples` | common/src/proof/mod.rs:96-107 | eight `0xFF` bytes give 64 bits, `[1, 0]` gives 1, and the empty string gives 0 |
| `Proof.Options` | common/src/proof/mod.rs:51-53 | returns the options stored in the proof's context |
| `Proof.LdeDomainSize` | common/src/proof/mod.rs:61-63 | the domain size is a power of two whose logarithm is the context's depth, for depths below 64 |
| `Proof.TraceLength` | common/src/proof/mod.rs:56-58 | the trace length is the domain size divided by the blowup factor, rounding down: `t * b <= size < (t + 1) * b` |
| `Proof.TraceLengthExact` | common/src/proof/mod.rs:56-63 | when the blowup factor is a power of two no larger than the domain: `trace * blowup == size`, the trace length is a power of two, and `log2(trace * blowup)` recovers the depth |
| `Proof.Min` | common/src/proof/mod.rs:133 | `cmp::min` is at most both arguments and equals one of them |
| `Proof.GrindingCreditedIff` | common/src/proof/mod.rs:129-131 | with non-zero grinding, the query security grows iff the rounds reach the floor of 80; it never shrinks |
| `Proof.QuerySecurity` | common/src/proof/mod.rs:124-131 | in checked `u32` arithmetic the query security equals the unbounded `log2(lde / trace) * num_queries`, plus grinding at or above the floor, exactly when that value fits `u32`; a zero trace length, a non-power-of-two rate and an overflow each give their own failure, each iff its condition holds |
| `Proof.ConjecturedSecurity` | common/src/proof/mod.rs:110-134 | each outcome holds exactly under its condition, in the source's order: `FieldSizeOverflow` iff `bits * ext_degree` exceeds `u32`; `FieldSecurityUnderflow` iff it fits but is below the domain's trailing zeros; a query-security failure passes through unchanged; `SecurityUnderflow` iff the minimum is 0; a result otherwise. A result is strictly below the collision resistance, the field security and the query security, and one more than it equals one of the three (the minimum less one); never `Unsupported` |
| `Proof.DegenerateEstimatesFail` | common/src/proof/mod.rs:117-133 | a zero base field size, or an inverse rate of 1, always fails and never yields a number |
| `Proof.ConjecturedSecurityMonotoneInQueries` | common/src/proof/mod.rs:124-133 | for query counts `fewer <= more <= u32::MAX`, with everything else fixed, more queries give an estimate at least as high, and the estimate exists whenever the larger query security fits `u32`; past `u32::MAX` the source's `as u32` cast truncates the count and monotonicity fails |
| `Proof.NumQueriesCastTruncates` | common/src/proof/mod.rs:126 | the `as u32` cast keeps the low 32 bits of the query count: 2^32 one-bit queries give query security 0, while 80 give 100 |
| `Proof.ConjecturedSecuritySaturates` | common/src/proof/mod.rs:133 | once the query security reaches both the field and hash bounds, the estimate is `min(field, hash) - 1` |
| `Proof.GrindingFloorExamples` | common/src/proof/mod.rs:124-133 | 79 one-bit queries with 20 grinding bits give query security 79 and estimate 78; 80 queries give 100 and 99 |
| `Proof.SecurityLevel` | common/src/proof/mod.rs:72-88 | the result is the `Unsupported` failure exactly when `conjectured` is false; only the conjectured path needs the domain depth below 64 and a non-zero blowup factor |
| `Proof.SecurityLevelClosedForm` | common/src/proof/mod.rs:72-134 | for a power-of-two blowup no larger than the domain, and no overflow or underflow: `security_level(true) == min(bits * ext_degree - depth, collision_resistance, query_security) - 1` with `log2(blowup)` bits per query |
| `Proof.ProvenSecurityUnsupported` | common/src/proof/mod.rs:84-87 | `security_level(false)` never yields a number, for every proof whose modulus bit count fits `u32` (the count is computed before the branch), whatever its depth and blowup factor |
| `Proof.DegenerateProofsFail` | common/src/proof/mod.rs:72-88 | a proof with a zero modulus or a blowup factor of 1 has no conjectured security level |

## Left out

- Serialization (the serde derives and any byte layout) is not modelled.
- Commitments, queries, the out-of-domain frame and the FRI proof are type
  parameters of `StarkProof`. The estimator never reads them. `pow_nonce` is
  carried and never read.
- `ProofOptions` keeps only the numbers the estimator reads. The hash
  function's collision resistance and the extension degree are inputs; the
  lookups that produce them are foreign code.
- `math::utils::log2` is foreign. `Bits.Log2` is the exact logarithm of a
  power of two. For an inverse rate that is not a power of two, the model
  gives `RateNotPowerOfTwo` and no number.
- `Proof.NumModulusBits`: requires `8 * len <= u32::MAX`. The source computes
  `len as u32 * 8`, which overflows for longer strings and truncates the length
  from 2^32 bytes on. Neither behaviour is modelled.
- `Proof.LdeDomainSize`, `Proof.TraceLength`: require a depth below 64 and a
  non-zero blowup factor. `2usize.pow` overflows at depth 64 and above, and
  the division by a zero blowup factor panics.
- `Proof.SecurityLevel`: requires those two bounds only on the conjectured
  path, where the source reads the domain size and trace length. On both
  paths it requires the modulus-length bound of `NumModulusBits`, because the
  source computes the modulus bit count before it branches.
- `Proof.ConjecturedSecurityMonotoneInQueries`: holds only up to `u32::MAX`
  queries. The source's `as u32` cast truncates larger counts, so there it is
  not monotone (see `NumQueriesCastTruncates`).
- Release builds wrap `u32` arithmetic instead of panicking. The model gives
  checked-arithmetic failures only; wrapped values are not modelled.
- `usize` is taken to be 64 bits wide.
- Proven security has no formula in the source, and the model gives none.
- Validation at construction time is not modelled, because the source has
  none. It does not reject a zero modulus, a blowup factor below 2, or a
  blowup factor that does not divide the domain. The model follows the code:
  `TraceLength` truncates, and a degenerate input fails only where the
  source's arithmetic fails.
- The bit length of the modulus is computed by the method
  `NumModulusBits`. Functions cannot call a method, so `SecurityLevel` uses the
  function that method is proved equal to (`ModulusBits`).
