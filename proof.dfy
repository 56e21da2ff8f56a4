/** The STARK proof object and its conjectured-security estimator
    (common/src/proof/mod.rs). Rust's unsigned arithmetic is modelled in its
    checked form: every point where the source's `u32` arithmetic would
    overflow, underflow or divide by zero is an explicit `Failure`, never a
    silently wrapped number. */
module Proof {
  import opened Bits

  /** Grinding bits are credited only to proofs whose query rounds alone
      reach this many bits of security. */
  const GRINDING_CONTRIBUTION_FLOOR: nat := 80

  /** Width of `usize` on the 64-bit platforms the model assumes. */
  const USIZE_BITS: nat := 64

  /** The parameters the estimator reads from the proof options. The hash
      function and the field extension are foreign; only the numbers they
      contribute are kept: `collisionResistance` is
      `hash_fn().collision_resistance()` and `extensionDegree` is
      `field_extension().degree()`. */
  datatype ProofOptions = ProofOptions(
    blowupFactor: U64,
    extensionDegree: U32,
    collisionResistance: U32,
    numQueries: U64,
    grindingFactor: U32)

  datatype Context = Context(
    ldeDomainDepth: U8,
    fieldModulusBytes: seq<U8>,
    options: ProofOptions)

  /** The proof aggregate. Commitments, queries, the out-of-domain frame and
      the FRI proof are never inspected here, so their types are parameters. */
  datatype StarkProof<Commitments, Queries, OodFrame, FriProof> = StarkProof(
    context: Context,
    commitments: Commitments,
    traceQueries: Queries,
    constraintQueries: Queries,
    oodFrame: OodFrame,
    friProof: FriProof,
    powNonce: U64)

  /** Why a security level could not be computed. */
  datatype Failure =
    | Unsupported             // proven (non-conjectured) security is not implemented
    | FieldSizeOverflow       // base field bits times extension degree exceeds u32
    | FieldSecurityUnderflow  // field size smaller than the domain's trailing zeros
    | ZeroTraceLength         // division of the domain size by a zero trace length
    | RateNotPowerOfTwo       // log2 of an inverse rate that is not a power of two
    | QuerySecurityOverflow   // query security, with or without grinding, exceeds u32
    | SecurityUnderflow       // the final decrement of a zero bound

  datatype Result<T> = Ok(value: T) | Err(failure: Failure)

  function Min(a: nat, b: nat): (m: nat)
    ensures m <= a && m <= b
    ensures m == a || m == b
  {
    if a <= b then a else b
  }

  // ---------------------------------------------------------------------------
  // Bit length of the field modulus

  /** The number of bits of the modulus encoded little-endian in `modulusBytes`. */
  function ModulusBits(modulusBytes: seq<U8>): nat
  {
    BitLength(LittleEndianValue(modulusBytes))
  }

  /** `get_num_modulus_bits`: scans the bytes from the most significant one,
      counting 8 bits fewer for every zero byte, and subtracts the leading
      zeros of the first non-zero byte. The source computes `8 * len` in a
      `u32`, so a longer string overflows there. */
  method NumModulusBits(modulusBytes: seq<U8>) returns (numBits: U32)
    requires |modulusBytes| * 8 <= U32_MAX
    ensures numBits == ModulusBits(modulusBytes)
  {
    numBits := |modulusBytes| * 8;
    assert modulusBytes[..|modulusBytes|] == modulusBytes;
    for i := |modulusBytes| downto 0
      invariant numBits == 8 * i
      invariant LittleEndianValue(modulusBytes) == LittleEndianValue(modulusBytes[..i])
    {
      var byte := modulusBytes[i];
      assert modulusBytes[..i + 1] == modulusBytes[..i] + [byte];
      if byte != 0 {
        numBits := numBits - LeadingZeros8(byte);
        TopByteBitLength(modulusBytes[..i], byte);
        return;
      }
      ZeroTopByte(modulusBytes[..i]);
      numBits := numBits - 8;
    }
    numBits := 0;
  }

  lemma ZeroTopByte(low: seq<U8>)
    ensures LittleEndianValue(low + [0]) == LittleEndianValue(low)
  {
    LittleEndianConcat(low, [0]);
  }

  /** A non-zero most significant byte `b` above `low` contributes its own bit
      length on top of all of `low`'s bits. */
  lemma TopByteBitLength(low: seq<U8>, b: U8)
    requires b != 0
    ensures ModulusBits(low + [b]) == 8 * |low| + BitLength(b)
  {
    LittleEndianConcat(low, [b]);
    assert LittleEndianValue([b]) == b;
    LittleEndianBound(low);
    ShiftedBitLength(LittleEndianValue(low), 8 * |low|, b);
  }

  /** Adding `b * 2^shift` to a number below `2^shift` puts `b`'s bits on top. */
  lemma ShiftedBitLength(a: nat, shift: nat, b: nat)
    requires a < Pow2(shift) && b > 0
    ensures BitLength(a + Pow2(shift) * b) == shift + BitLength(b)
  {
    var p := Pow2(shift);
    BitLengthBounds(b);
    var len := BitLength(b);
    Pow2Add(shift, len - 1);
    Pow2Add(shift, len);
    MulMonotone(p, Pow2(len - 1), b);
    MulMonotone(p, b + 1, Pow2(len));
    assert p * (b + 1) == p * b + p;
    BitLengthUnique(a + p * b, shift + len);
  }

  lemma MulMonotone(p: nat, x: nat, y: nat)
    requires x <= y
    ensures p * x <= p * y
  {
  }

  /** An empty or all-zero modulus has no bits. */
  lemma ModulusBitsOfZeros(modulusBytes: seq<U8>)
    requires forall i :: 0 <= i < |modulusBytes| ==> modulusBytes[i] == 0
    ensures ModulusBits(modulusBytes) == 0
  {
    LittleEndianZeros(modulusBytes);
  }

  /** For a non-zero value the bit count `k` satisfies `2^(k-1) <= v < 2^k`;
      it is 0 exactly for the value 0 and never exceeds 8 bits per byte. */
  lemma ModulusBitsBounds(modulusBytes: seq<U8>)
    ensures var v, k := LittleEndianValue(modulusBytes), ModulusBits(modulusBytes);
      v < Pow2(k) && (v > 0 ==> Pow2(k - 1) <= v) && (k == 0 <==> v == 0)
    ensures ModulusBits(modulusBytes) <= 8 * |modulusBytes|
  {
    var v := LittleEndianValue(modulusBytes);
    BitLengthBounds(v);
    LittleEndianBound(modulusBytes);
  }

  /** High-order zero bytes do not change the bit count. */
  lemma ModulusBitsHighZeros(modulusBytes: seq<U8>, zeros: seq<U8>)
    requires forall i :: 0 <= i < |zeros| ==> zeros[i] == 0
    ensures ModulusBits(modulusBytes + zeros) == ModulusBits(modulusBytes)
  {
    LittleEndianConcat(modulusBytes, zeros);
    LittleEndianZeros(zeros);
  }

  /** Eight 0xFF bytes encode `2^64 - 1`, which has 64 bits; `[1, 0]` has 1. */
  lemma ModulusBitsExamples()
    ensures ModulusBits([0xFF, 0xFF, 0xFF, 0xFF, 0xFF, 0xFF, 0xFF, 0xFF]) == 64
    ensures ModulusBits([0x01, 0x00]) == 1
    ensures ModulusBits([]) == 0
  {
    var ones: seq<U8> := [0xFF, 0xFF, 0xFF, 0xFF, 0xFF, 0xFF, 0xFF, 0xFF];
    assert LittleEndianValue(ones) == U64_MAX;
    Pow2SixtyFour();
    assert Pow2(64) == 2 * Pow2(63);
    BitLengthUnique(U64_MAX, 64);
    assert LittleEndianValue([0x01, 0x00]) == 1;
    BitLengthUnique(1, 1);
  }

  // ---------------------------------------------------------------------------
  // Accessors

  /** `options()`: the options the proof was generated with. */
  function Options<C, Q, O, F>(proof: StarkProof<C, Q, O, F>): (options: ProofOptions)
    ensures options == proof.context.options
  {
    proof.context.options
  }

  /** `lde_domain_size()`: `2^depth`, which fits a 64-bit `usize` only for
      depths below 64. */
  function LdeDomainSize<C, Q, O, F>(proof: StarkProof<C, Q, O, F>): (size: U64)
    requires proof.context.ldeDomainDepth < USIZE_BITS
    ensures IsPow2(size) && Log2(size) == proof.context.ldeDomainDepth
  {
    var depth := proof.context.ldeDomainDepth;
    Pow2FitsU64(depth);
    Pow2IsPow2(depth);
    Pow2(depth)
  }

  /** `trace_length()`: the domain size divided, rounding down, by the blowup
      factor. */
  function TraceLength<C, Q, O, F>(proof: StarkProof<C, Q, O, F>): (length: U64)
    requires proof.context.ldeDomainDepth < USIZE_BITS
    requires proof.context.options.blowupFactor > 0
    ensures var blowup := proof.context.options.blowupFactor;
      length * blowup <= LdeDomainSize(proof) < (length + 1) * blowup
  {
    LdeDomainSize(proof) / proof.context.options.blowupFactor
  }

  /** When the blowup factor is a power of two no larger than the domain, the
      trace length times the blowup factor is the domain size again, and its
      logarithm recovers the domain depth. */
  lemma TraceLengthExact<C, Q, O, F>(proof: StarkProof<C, Q, O, F>)
    requires proof.context.ldeDomainDepth < USIZE_BITS
    requires IsPow2(proof.context.options.blowupFactor)
    requires proof.context.options.blowupFactor <= Pow2(proof.context.ldeDomainDepth)
    ensures TraceLength(proof) * proof.context.options.blowupFactor == LdeDomainSize(proof)
    ensures IsPow2(TraceLength(proof))
    ensures Log2(TraceLength(proof) * proof.context.options.blowupFactor) == proof.context.ldeDomainDepth
  {
    var depth, blowup := proof.context.ldeDomainDepth, proof.context.options.blowupFactor;
    var b := Log2(blowup);
    Pow2Order(b, depth);
    Pow2Quotient(depth, b);
    Pow2Add(depth - b, b);
    Pow2IsPow2(depth - b);
  }

  // ---------------------------------------------------------------------------
  // Conjectured security

  /** The query security in unbounded arithmetic: the bits of all query rounds,
      plus the grinding bits once the rounds alone reach the floor. */
  function GroundedQuerySecurity(roundsSecurity: nat, grindingFactor: nat): nat
  {
    if roundsSecurity >= GRINDING_CONTRIBUTION_FLOOR then roundsSecurity + grindingFactor
    else roundsSecurity
  }

  /** Grinding bits count exactly when the query rounds reach the floor. */
  lemma GrindingCreditedIff(roundsSecurity: nat, grindingFactor: nat)
    requires grindingFactor > 0
    ensures GroundedQuerySecurity(roundsSecurity, grindingFactor) > roundsSecurity
        <==> roundsSecurity >= GRINDING_CONTRIBUTION_FLOOR
    ensures GroundedQuerySecurity(roundsSecurity, grindingFactor) >= roundsSecurity
  {
  }

  /** The query-security step of `get_conjectured_security`: the inverse
      rate, its exact logarithm, and the query rounds plus any grinding bits,
      in checked `u32` arithmetic. The number of queries is cast from `usize`
      to `u32`, which keeps its low 32 bits. A result exists exactly when the
      unbounded value fits a `u32`. */
  function QuerySecurity(options: ProofOptions, ldeDomainSize: U64, traceLength: U64): (r: Result<U32>)
    ensures r.Ok? ==> traceLength > 0 && IsPow2(ldeDomainSize / traceLength)
    ensures r.Ok? ==> r.value == GroundedQuerySecurity(
      Log2(ldeDomainSize / traceLength) * (options.numQueries % 0x1_0000_0000), options.grindingFactor)
    ensures r.Ok? <==>
      (traceLength > 0 && IsPow2(ldeDomainSize / traceLength) &&
       GroundedQuerySecurity(Log2(ldeDomainSize / traceLength) * (options.numQueries % 0x1_0000_0000),
                             options.grindingFactor) <= U32_MAX)
    ensures r == Err(ZeroTraceLength) <==> traceLength == 0
    ensures r == Err(RateNotPowerOfTwo) <==> traceLength > 0 && !IsPow2(ldeDomainSize / traceLength)
    ensures r == Err(QuerySecurityOverflow) <==>
      (traceLength > 0 && IsPow2(ldeDomainSize / traceLength) &&
       GroundedQuerySecurity(Log2(ldeDomainSize / traceLength) * (options.numQueries % 0x1_0000_0000),
                             options.grindingFactor) > U32_MAX)
  {
    if traceLength == 0 then Err(ZeroTraceLength)
    else
      var oneOverRho := ldeDomainSize / traceLength;
      if !IsPow2(oneOverRho) then Err(RateNotPowerOfTwo)
      else
        var securityPerQuery := Log2(oneOverRho);
        var rounds := securityPerQuery * (options.numQueries % 0x1_0000_0000);
        if rounds > U32_MAX then Err(QuerySecurityOverflow)
        else if rounds >= GRINDING_CONTRIBUTION_FLOOR then
          if rounds + options.grindingFactor > U32_MAX then Err(QuerySecurityOverflow)
          else Ok(rounds + options.grindingFactor)
        else Ok(rounds)
  }

  /** `get_conjectured_security`: one bit less than the smallest of the field
      security (extension field bits less the domain's trailing zeros), the
      hash function's collision resistance and the query security. Each
      failure is reported exactly when the source's arithmetic breaks at that
      step, in the source's order: the field size overflows, the field
      security underflows, the query security fails, or the final decrement
      underflows. */
  function ConjecturedSecurity(options: ProofOptions, baseFieldSize: U32, ldeDomainSize: U64, traceLength: U64)
    : (r: Result<U32>)
    ensures r != Err(Unsupported)
    ensures r == Err(FieldSizeOverflow) <==> baseFieldSize * options.extensionDegree > U32_MAX
    ensures var fieldSize := baseFieldSize * options.extensionDegree;
      r == Err(FieldSecurityUnderflow) <==> fieldSize <= U32_MAX && fieldSize < TrailingZeros64(ldeDomainSize)
    ensures var fieldSize := baseFieldSize * options.extensionDegree;
      var querySecurity := QuerySecurity(options, ldeDomainSize, traceLength);
      TrailingZeros64(ldeDomainSize) <= fieldSize <= U32_MAX && querySecurity.Err? ==> r == querySecurity
    ensures var fieldSize := baseFieldSize * options.extensionDegree;
      var querySecurity := QuerySecurity(options, ldeDomainSize, traceLength);
      r == Err(SecurityUnderflow) <==>
        (TrailingZeros64(ldeDomainSize) <= fieldSize <= U32_MAX && querySecurity.Ok? &&
         Min(Min(fieldSize - TrailingZeros64(ldeDomainSize), options.collisionResistance), querySecurity.value) == 0)
    ensures var fieldSize := baseFieldSize * options.extensionDegree;
      var querySecurity := QuerySecurity(options, ldeDomainSize, traceLength);
      r.Ok? <==>
        (TrailingZeros64(ldeDomainSize) <= fieldSize <= U32_MAX && querySecurity.Ok? &&
         Min(Min(fieldSize - TrailingZeros64(ldeDomainSize), options.collisionResistance), querySecurity.value) >= 1)
    ensures r.Ok? ==> r.value < options.collisionResistance
    ensures r.Ok? ==> r.value + TrailingZeros64(ldeDomainSize) < baseFieldSize * options.extensionDegree
    ensures r.Ok? ==>
      (QuerySecurity(options, ldeDomainSize, traceLength).Ok? &&
       r.value < QuerySecurity(options, ldeDomainSize, traceLength).value)
    ensures r.Ok? ==>
      (r.value + 1 == options.collisionResistance ||
       r.value + 1 + TrailingZeros64(ldeDomainSize) == baseFieldSize * options.extensionDegree ||
       r.value + 1 == QuerySecurity(options, ldeDomainSize, traceLength).value)
  {
    var fieldSize := baseFieldSize * options.extensionDegree;
    if fieldSize > U32_MAX then Err(FieldSizeOverflow)
    else
      var domainBits := TrailingZeros64(ldeDomainSize);
      if fieldSize < domainBits then Err(FieldSecurityUnderflow)
      else
        var fieldSecurity := fieldSize - domainBits;
        var hashFnSecurity := options.collisionResistance;
        match QuerySecurity(options, ldeDomainSize, traceLength)
        case Err(failure) => Err(failure)
        case Ok(querySecurity) =>
          var bound := Min(Min(fieldSecurity, hashFnSecurity), querySecurity);
          if bound == 0 then Err(SecurityUnderflow) else Ok(bound - 1)
  }

  /** A zero base field, or a domain less than twice the trace length (an
      inverse rate of 1), never yields an estimate. */
  lemma DegenerateEstimatesFail(options: ProofOptions, baseFieldSize: U32, ldeDomainSize: U64, traceLength: U64)
    requires baseFieldSize == 0 || 0 < traceLength <= ldeDomainSize < 2 * traceLength
    ensures ConjecturedSecurity(options, baseFieldSize, ldeDomainSize, traceLength).Err?
  {
    UnitRate(ldeDomainSize, traceLength);
  }

  /** A domain less than twice the trace length has inverse rate 1. */
  lemma UnitRate(ldeDomainSize: nat, traceLength: nat)
    ensures 0 < traceLength <= ldeDomainSize < 2 * traceLength ==> ldeDomainSize / traceLength == 1
  {
    if 0 < traceLength {
      var q, m := ldeDomainSize / traceLength, ldeDomainSize % traceLength;
      assert ldeDomainSize == q * traceLength + m;
      MulSign(q - 1, traceLength);
      MulSign(q - 2, traceLength);
    }
  }

  /** More query rounds never lower the conjectured security: if the estimate
      exists for `fewer` queries and the query security for `more` queries
      fits its word, the estimate for `more` exists and is at least as high. */
  lemma {:induction false} ConjecturedSecurityMonotoneInQueries(
    options: ProofOptions, baseFieldSize: U32, ldeDomainSize: U64, traceLength: U64, fewer: U64, more: U64)
    requires fewer <= more <= U32_MAX
    requires ConjecturedSecurity(options.(numQueries := fewer), baseFieldSize, ldeDomainSize, traceLength).Ok?
    requires QuerySecurity(options.(numQueries := more), ldeDomainSize, traceLength).Ok?
    ensures ConjecturedSecurity(options.(numQueries := more), baseFieldSize, ldeDomainSize, traceLength).Ok?
    ensures ConjecturedSecurity(options.(numQueries := fewer), baseFieldSize, ldeDomainSize, traceLength).value
         <= ConjecturedSecurity(options.(numQueries := more), baseFieldSize, ldeDomainSize, traceLength).value
  {
    var perQuery := Log2(ldeDomainSize / traceLength);
    MulMonotone(perQuery, fewer, more);
    assert perQuery * fewer <= perQuery * more;
    assert fewer % 0x1_0000_0000 == fewer && more % 0x1_0000_0000 == more;
  }

  /** The `usize` to `u32` cast of the number of queries keeps only its low 32
      bits, so the bound `more <= u32::MAX` above cannot be dropped: 2^32
      one-bit queries give query security 0 where 80 give 100. */
  lemma NumQueriesCastTruncates()
    ensures QuerySecurity(ProofOptions(2, 2, 128, 0x1_0000_0000, 20), 1024, 512) == Ok(0)
    ensures QuerySecurity(ProofOptions(2, 2, 128, 80, 20), 1024, 512) == Ok(100)
  {
    Pow2IsPow2(1);
  }

  /** Once the query security reaches the field and hash bounds, more queries
      add nothing: the estimate is one bit below the smaller of those two. */
  lemma ConjecturedSecuritySaturates(
    options: ProofOptions, baseFieldSize: U32, ldeDomainSize: U64, traceLength: U64)
    requires ConjecturedSecurity(options, baseFieldSize, ldeDomainSize, traceLength).Ok?
    requires QuerySecurity(options, ldeDomainSize, traceLength).Ok?
    requires QuerySecurity(options, ldeDomainSize, traceLength).value >=
      Min(baseFieldSize * options.extensionDegree - TrailingZeros64(ldeDomainSize), options.collisionResistance)
    ensures ConjecturedSecurity(options, baseFieldSize, ldeDomainSize, traceLength).value + 1 ==
      Min(baseFieldSize * options.extensionDegree - TrailingZeros64(ldeDomainSize), options.collisionResistance)
  {
  }

  /** The grinding floor at work: with one bit per query, 79 queries and 20
      grinding bits give query security 79 and an estimate of 78; 80 queries
      give query security 100 and, the field and hash allowing, 99. */
  lemma GrindingFloorExamples()
    ensures var options := ProofOptions(2, 2, 128, 79, 20);
      QuerySecurity(options, 1024, 512) == Ok(79) &&
      ConjecturedSecurity(options, 64, 1024, 512) == Ok(78)
    ensures var options := ProofOptions(2, 2, 128, 80, 20);
      QuerySecurity(options, 1024, 512) == Ok(100) &&
      ConjecturedSecurity(options, 64, 1024, 512) == Ok(99)
  {
    Pow2IsPow2(1);
    assert Pow2(10) == 1024;
    TrailingZerosOfPow2(10, 64);
  }

  // ---------------------------------------------------------------------------
  // Security level of a proof

  /** `security_level(conjectured)`: the conjectured estimate for the proof's
      own modulus, domain size and trace length; the proven estimate is not
      implemented and always fails. */
  function SecurityLevel<C, Q, O, F>(proof: StarkProof<C, Q, O, F>, conjectured: bool): (r: Result<U32>)
    requires conjectured ==> proof.context.ldeDomainDepth < USIZE_BITS && proof.context.options.blowupFactor > 0
    requires |proof.context.fieldModulusBytes| * 8 <= U32_MAX
    ensures !conjectured <==> r == Err(Unsupported)
  {
    var options := Options(proof);
    ModulusBitsBounds(proof.context.fieldModulusBytes);
    var baseFieldSizeBits := ModulusBits(proof.context.fieldModulusBytes);
    if conjectured then
      ConjecturedSecurity(options, baseFieldSizeBits, LdeDomainSize(proof), TraceLength(proof))
    else
      Err(Unsupported)
  }

  /** For a well-formed proof (the blowup factor a power of two no larger than
      the domain) and no overflow or underflow, the conjectured security level
      is one bit below the smallest of `modulus bits * extension degree - depth`,
      the collision resistance and the query security, which spends
      `log2(blowup)` bits per query. */
  lemma {:induction false} SecurityLevelClosedForm<C, Q, O, F>(proof: StarkProof<C, Q, O, F>)
    requires proof.context.ldeDomainDepth < USIZE_BITS
    requires |proof.context.fieldModulusBytes| * 8 <= U32_MAX
    requires IsPow2(proof.context.options.blowupFactor)
    requires proof.context.options.blowupFactor <= Pow2(proof.context.ldeDomainDepth)
    requires var fieldSize := ModulusBits(proof.context.fieldModulusBytes) * proof.context.options.extensionDegree;
      proof.context.ldeDomainDepth <= fieldSize <= U32_MAX
    requires var o := proof.context.options;
      GroundedQuerySecurity(Log2(o.blowupFactor) * (o.numQueries % 0x1_0000_0000), o.grindingFactor) <= U32_MAX
    requires var o := proof.context.options;
      Min(Min(ModulusBits(proof.context.fieldModulusBytes) * o.extensionDegree - proof.context.ldeDomainDepth,
              o.collisionResistance),
          GroundedQuerySecurity(Log2(o.blowupFactor) * (o.numQueries % 0x1_0000_0000), o.grindingFactor)) >= 1
    ensures var o := proof.context.options;
      SecurityLevel(proof, true) == Ok(
        Min(Min(ModulusBits(proof.context.fieldModulusBytes) * o.extensionDegree - proof.context.ldeDomainDepth,
                o.collisionResistance),
            GroundedQuerySecurity(Log2(o.blowupFactor) * (o.numQueries % 0x1_0000_0000), o.grindingFactor)) - 1)
  {
    var depth, blowup := proof.context.ldeDomainDepth, proof.context.options.blowupFactor;
    var b := Log2(blowup);
    Pow2Order(b, depth);
    TraceLengthExact(proof);
    Pow2Quotient(depth, b);
    Pow2Quotient(depth, depth - b);
    assert LdeDomainSize(proof) / TraceLength(proof) == blowup;
    TrailingZerosOfPow2(depth, 64);
    assert TrailingZeros64(LdeDomainSize(proof)) == depth;
  }

  /** The proven-security path never yields a number, whatever the domain
      depth and blowup factor; only the modulus bit count, which the source
      computes before choosing the path, bounds the modulus length. */
  lemma ProvenSecurityUnsupported<C, Q, O, F>(proof: StarkProof<C, Q, O, F>)
    requires |proof.context.fieldModulusBytes| * 8 <= U32_MAX
    ensures SecurityLevel(proof, false) == Err(Unsupported)
  {
  }

  /** A zero modulus, or a blowup factor of 1, never yields a security level. */
  lemma DegenerateProofsFail<C, Q, O, F>(proof: StarkProof<C, Q, O, F>)
    requires proof.context.ldeDomainDepth < USIZE_BITS
    requires proof.context.options.blowupFactor > 0
    requires |proof.context.fieldModulusBytes| * 8 <= U32_MAX
    requires LittleEndianValue(proof.context.fieldModulusBytes) == 0 || proof.context.options.blowupFactor == 1
    ensures SecurityLevel(proof, true).Err?
  {
    ModulusBitsBounds(proof.context.fieldModulusBytes);
    var lde, trace := LdeDomainSize(proof), TraceLength(proof);
    assert proof.context.options.blowupFactor == 1 ==> trace == lde;
    DegenerateEstimatesFail(Options(proof), ModulusBits(proof.context.fieldModulusBytes), lde, trace);
  }
}
