/** KV-cache size estimation (estimate.rs, spec.rs): 64-bit arithmetic that wraps, and exactly when that shows. */
module KvEstimate {
  import opened Arithmetic

  datatype AttentionKind = Standard | Mla

  datatype KvDtype = Fp32 | Fp16 | Bf16 | Fp8 | Int8

  function DtypeBytes(d: KvDtype): nat {
    match d
    case Fp32 => 4
    case Fp16 => 2
    case Bf16 => 2
    case Fp8 => 1
    case Int8 => 1
  }

  datatype ModelSpec = ModelSpec(numLayers: nat, numKvHeads: nat, headDim: nat, attention: AttentionKind,
                                 dtype: KvDtype, kvLoraRank: nat, qkRopeHeadDim: nat, slidingWindow: nat)

  datatype EstimateInput = EstimateInput(batchSize: nat, inputTokens: nat, outputTokens: nat, blockSize: nat)

  datatype Estimate = Estimate(bytes: nat, blocks: nat, perTokenBytes: nat, effectiveSeqLen: nat, batchSize: nat)

  function Wrap(x: nat): nat { x % U64 }

  /** The architecture constant, before 64-bit wrap-around. */
  function ExactPerToken(spec: ModelSpec): nat {
    match spec.attention
    case Standard => 2 * spec.numLayers * spec.numKvHeads * spec.headDim * DtypeBytes(spec.dtype)
    case Mla => spec.numLayers * (spec.kvLoraRank + spec.qkRopeHeadDim) * DtypeBytes(spec.dtype)
  }

  function PerTokenBytes(spec: ModelSpec): nat { Wrap(ExactPerToken(spec)) }

  function PerBlockBytes(spec: ModelSpec, blockSize: nat): nat { Wrap(PerTokenBytes(spec) * blockSize) }

  function DivCeil(a: nat, b: nat): nat
    requires b > 0
  {
    if a % b == 0 then a / b else a / b + 1
  }

  /** Cached tokens per sequence: input + output, saturating, capped by the window if there is one. */
  function EffectiveSeqLen(spec: ModelSpec, input: EstimateInput): nat {
    var sum := input.inputTokens + input.outputTokens;
    var seqLen := Min(sum, U32_MAX);
    if spec.slidingWindow > 0 && spec.slidingWindow < seqLen then spec.slidingWindow else seqLen
  }

  function Batch(input: EstimateInput): nat { if input.batchSize == 0 then 1 else input.batchSize }

  /** Tokens per sequence that memory is reserved for. */
  function ReservedPerSeq(spec: ModelSpec, input: EstimateInput): nat {
    var effective := EffectiveSeqLen(spec, input);
    if input.blockSize > 0 then DivCeil(effective, input.blockSize) * input.blockSize else effective
  }

  function EstimateKv(spec: ModelSpec, input: EstimateInput): Estimate {
    var perToken := PerTokenBytes(spec);
    var effective := EffectiveSeqLen(spec, input);
    var batch := Batch(input);
    var bytes := Wrap(Wrap(perToken * batch) * Wrap(ReservedPerSeq(spec, input)));
    var blocks := if input.blockSize > 0 then Wrap(DivCeil(effective, input.blockSize) * batch) else 0;
    Estimate(bytes, blocks, perToken, effective, batch)
  }

  function Footprint(perToken: nat, batch: nat, tokens: nat): nat { (perToken * batch) * tokens }

  // ---------- what is really cached ----------

  /** The tokens a sequence caches: all of input and output, or as many as the window holds. */
  function CachedTokens(spec: ModelSpec, input: EstimateInput): nat {
    var all := input.inputTokens + input.outputTokens;
    if spec.slidingWindow == 0 then all else Min(spec.slidingWindow, all)
  }

  /** A batch size of 0 counts as 1. */
  function Sequences(input: EstimateInput): nat { if input.batchSize == 0 then 1 else input.batchSize }

  /** The true footprint, unpadded and in unbounded arithmetic. */
  function ExactBytes(spec: ModelSpec, input: EstimateInput): nat {
    Footprint(ExactPerToken(spec), Sequences(input), CachedTokens(spec, input))
  }

  /** Tokens reserved per sequence: at most 2^32 - 1 are counted, rounded up to whole blocks. */
  function PaddedTokens(spec: ModelSpec, input: EstimateInput): nat {
    var counted := Min(CachedTokens(spec, input), U32_MAX);
    if input.blockSize == 0 then counted else DivCeil(counted, input.blockSize) * input.blockSize
  }

  /** The footprint of the reserved tokens, in unbounded arithmetic. */
  function PaddedBytes(spec: ModelSpec, input: EstimateInput): nat {
    Footprint(ExactPerToken(spec), Sequences(input), PaddedTokens(spec, input))
  }

  lemma SameLengths(spec: ModelSpec, input: EstimateInput)
    ensures EffectiveSeqLen(spec, input) == Min(CachedTokens(spec, input), U32_MAX)
    ensures ReservedPerSeq(spec, input) == PaddedTokens(spec, input) && Batch(input) == Sequences(input)
  {
    hide DivCeil;
  }

  lemma BlocksCover(n: nat, batch: nat, block: nat)
    ensures (Wrap(n * batch) * block) % U64 == (n * block * batch) % U64
  {
    WrapLeft(n * batch, block);
    assert (n * batch) * block == (n * block) * batch;
  }

  /** The estimate's own lengths are these. */
  lemma LengthsAre(spec: ModelSpec, input: EstimateInput)
    ensures var e := EstimateKv(spec, input);
      && e.effectiveSeqLen == Min(CachedTokens(spec, input), U32_MAX)
      && e.batchSize == Sequences(input) && e.perTokenBytes == ExactPerToken(spec) % U64
      && (input.blockSize == 0 ==> e.blocks == 0)
      && (input.blockSize > 0 ==> (e.blocks * input.blockSize) % U64 == (PaddedTokens(spec, input) * e.batchSize) % U64)
  {
    hide DivCeil, ExactPerToken, CachedTokens, EffectiveSeqLen, Sequences, Batch;
    SameLengths(spec, input);
    if input.blockSize > 0 {
      BlocksCover(DivCeil(EffectiveSeqLen(spec, input), input.blockSize), Batch(input), input.blockSize);
    }
  }

  // ---------- what a token's cache holds ----------

  ghost function Grid<T(!new)>(n: nat, s: set<T>): set<(nat, T)> {
    set i: nat, x: T | i < n && x in s :: (i, x)
  }

  /** The numbers below `n`. */
  function Range(n: nat): set<nat> { if n == 0 then {} else Range(n - 1) + {n - 1} }

  lemma {:induction false} RangeSize(n: nat)
    ensures |Range(n)| == n && forall i :: i in Range(n) ==> i < n
  {
    if n > 0 { RangeSize(n - 1); }
  }

  ghost function Row<T(!new)>(n: nat, s: set<T>): set<(nat, T)> { set x: T | x in s :: (n, x) }

  lemma {:induction false} RowSize<T(!new)>(n: nat, s: set<T>)
    ensures |Row(n, s)| == |s|
  {
    if s != {} {
      var x :| x in s;
      RowSize(n, s - {x});
      assert Row(n, s) == Row(n, s - {x}) + {(n, x)};
    }
  }

  lemma GridSplits<T(!new)>(n: nat, s: set<T>)
    requires n > 0
    ensures Grid(n, s) == Grid(n - 1, s) + Row(n - 1, s) && Grid(n - 1, s) !! Row(n - 1, s)
  {}

  lemma OneRowMore(n: nat, m: nat)
    requires n > 0
    ensures n * m == (n - 1) * m + m
  {}

  lemma {:induction false} GridSize<T(!new)>(n: nat, s: set<T>)
    ensures |Grid(n, s)| == n * |s|
  {
    if n > 0 {
      GridSize(n - 1, s);
      RowSize(n - 1, s);
      GridSplits(n, s);
      OneRowMore(n, |s|);
      hide Grid, Row;
    }
  }

  function Bits(d: KvDtype): nat {
    match d
    case Fp32 => 32
    case Fp16 => 16
    case Bf16 => 16
    case Fp8 => 8
    case Int8 => 8
  }

  /**
   The bits of a token's cache are those of its elements: a key and a value, for every
   layer, head and dimension, in standard attention; one latent and one rotary vector,
   for every layer, in latent attention.
   */
  lemma CountsElements(spec: ModelSpec)
    ensures spec.attention.Standard? ==>
              ExactPerToken(spec) * 8 ==
              |Grid(2, Grid(spec.numLayers, Grid(spec.numKvHeads, Range(spec.headDim))))| * Bits(spec.dtype)
    ensures spec.attention.Mla? ==>
              ExactPerToken(spec) * 8 ==
              |Grid(spec.numLayers, Range(spec.kvLoraRank + spec.qkRopeHeadDim))| * Bits(spec.dtype)
  {
    hide Grid, Range;
    var l, h, d := spec.numLayers, spec.numKvHeads, spec.headDim;
    RangeSize(d);
    GridSize(h, Range(d));
    GridSize(l, Grid(h, Range(d)));
    GridSize(2, Grid(l, Grid(h, Range(d))));
    RangeSize(spec.kvLoraRank + spec.qkRopeHeadDim);
    GridSize(l, Range(spec.kvLoraRank + spec.qkRopeHeadDim));
    assert 2 * l * h * d == 2 * (l * (h * d));
  }

  // ---------- products and wrap-around ----------

  lemma WrapIffSmall(x: nat)
    ensures Wrap(x) == x <==> x < U64
    ensures Wrap(Wrap(x)) == Wrap(x) < U64
    ensures x >= U64 ==> Wrap(x) <= x - U64
  {}

  lemma WrapMultiple(q: nat, r: nat)
    ensures Wrap(q * U64 + r) == Wrap(r)
  {}

  /** Wrapping the factors first changes nothing. */
  lemma WrapProduct(x: nat, y: nat)
    ensures Wrap(Wrap(x) * Wrap(y)) == Wrap(x * y)
  {
    var q, r, p, s := x / U64, Wrap(x), y / U64, Wrap(y);
    assert x == q * U64 + r && y == p * U64 + s;
    Expand(q, r, p, s);
    WrapMultiple(q * y + r * p, r * s);
  }

  lemma Expand(q: nat, r: nat, p: nat, s: nat)
    ensures (q * U64 + r) * (p * U64 + s) == (q * (p * U64 + s) + r * p) * U64 + r * s
  {
    var y := p * U64 + s;
    assert (q * U64 + r) * y == (q * y) * U64 + r * y;
    assert r * y == (r * p) * U64 + r * s;
  }

  lemma WrapLeft(x: nat, y: nat)
    ensures Wrap(Wrap(x) * y) == Wrap(x * y)
  {
    WrapProduct(Wrap(x), y);
    WrapProduct(x, y);
    WrapIffSmall(x);
    hide Wrap;
  }

  /** Rounding up to whole blocks adds less than one block. */
  lemma DivCeilBounds(a: nat, b: nat)
    requires b > 0
    ensures a <= DivCeil(a, b) * b < a + b
  {
    assert a == a / b * b + a % b;
    assert (a / b + 1) * b == a / b * b + b;
  }

  lemma Regroup(t: nat, b: nat, n: nat, s: nat)
    ensures (t * b) * (n * s) == (t * s) * (n * b)
  {
    assert (t * b) * (n * s) == t * (b * (n * s)) == t * (s * (n * b));
  }

  lemma PaddingProduct(x: nat, reserved: nat, effective: nat, block: nat)
    requires effective <= reserved < effective + block
    ensures x * effective <= x * reserved
    ensures x > 0 ==> x * reserved < x * effective + x * block
  {
    MulMonotone(effective, reserved, x);
    assert x * (effective + block) == x * effective + x * block;
    if x > 0 { MulStrict(reserved, effective + block, x); }
  }

  lemma MulStrict(x: nat, y: nat, z: nat)
    requires x < y && z > 0
    ensures z * x < z * y
  {}

  // ---------- what the estimate is ----------

  /**
   For every model and input: the bytes are the padded footprint modulo 2^64, so they are
   that footprint exactly when it is below 2^64; and with paging they are, modulo 2^64,
   the per-block bytes times the blocks.
   */
  lemma EstimateIsPaddedModulo(spec: ModelSpec, input: EstimateInput)
    ensures var e := EstimateKv(spec, input);
      && e.bytes == PaddedBytes(spec, input) % U64
      && (e.bytes == PaddedBytes(spec, input) <==> PaddedBytes(spec, input) < U64)
      && (input.blockSize > 0 ==> e.bytes == (PerBlockBytes(spec, input.blockSize) * e.blocks) % U64)
  {
    hide ExactPerToken, EffectiveSeqLen, DivCeil, Batch, PaddedTokens, Sequences;
    SameLengths(spec, input);
    var t, batch, reserved := ExactPerToken(spec), Batch(input), ReservedPerSeq(spec, input);
    WrapLeft(t, batch);
    WrapProduct(t * batch, reserved);
    WrapIffSmall(PaddedBytes(spec, input));
    if input.blockSize > 0 {
      var n := DivCeil(EffectiveSeqLen(spec, input), input.blockSize);
      WrapLeft(t, input.blockSize);
      WrapProduct(t * input.blockSize, n * batch);
      Regroup(t, batch, n, input.blockSize);
    }
    hide Wrap;
  }

  /**
   As long as the cached tokens are fewer than 2^32, padding never loses bytes and adds
   less than one block per sequence; without paging it adds none.
   */
  lemma PaddedFootprint(spec: ModelSpec, input: EstimateInput)
    requires CachedTokens(spec, input) <= U32_MAX
    ensures var exact, padded := ExactBytes(spec, input), PaddedBytes(spec, input);
      && exact <= padded
      && (input.blockSize == 0 ==> padded == exact)
      && (padded > 0 && input.blockSize > 0 ==>
            padded < exact + (ExactPerToken(spec) * Sequences(input)) * input.blockSize)
  {
    hide ExactPerToken, DivCeil, Sequences, CachedTokens;
    var cached, block := CachedTokens(spec, input), input.blockSize;
    if block > 0 {
      DivCeilBounds(cached, block);
      PaddingProduct(ExactPerToken(spec) * Sequences(input), PaddedTokens(spec, input), cached, block);
    }
  }

  /** Below 2^64, with paging, the bytes are the per-block bytes times the blocks, without wrap-around. */
  lemma BytesAreBlocks(spec: ModelSpec, input: EstimateInput)
    requires PaddedBytes(spec, input) < U64 && input.blockSize > 0
    ensures EstimateKv(spec, input).bytes == PerBlockBytes(spec, input.blockSize) * EstimateKv(spec, input).blocks
  {
    hide ExactPerToken, EffectiveSeqLen, DivCeil, Batch, PaddedTokens, Sequences;
    SameLengths(spec, input);
    var t, batch, block := ExactPerToken(spec), Batch(input), input.blockSize;
    var n := DivCeil(EffectiveSeqLen(spec, input), block);
    EstimateIsPaddedModulo(spec, input);
    WrapLeft(t, block);
    Regroup(t, batch, n, block);
    SmallFactors(t * block, n * batch);
    hide Wrap;
  }

  lemma SmallFactors(x: nat, y: nat)
    requires x * y < U64
    ensures Wrap(x) * Wrap(y) == x * y
  {
    hide Wrap;
    WrapIffSmall(x);
    WrapIffSmall(y);
    if x > 0 && y > 0 {
      MulMonotone(1, y, x);
      MulMonotone(1, x, y);
    }
  }

  /** More output never caches less, window or not. */
  lemma CachedMonotone(spec: ModelSpec, input: EstimateInput, output: nat)
    requires output <= input.outputTokens
    ensures CachedTokens(spec, input.(outputTokens := output)) <= CachedTokens(spec, input)
  {}

  /** Below 2^64 the estimate at max_tokens covers the true footprint of every shorter output. */
  lemma EstimateDominates(spec: ModelSpec, input: EstimateInput, output: nat)
    requires PaddedBytes(spec, input) < U64 && CachedTokens(spec, input) <= U32_MAX && output <= input.outputTokens
    ensures ExactBytes(spec, input.(outputTokens := output)) <= EstimateKv(spec, input).bytes
  {
    hide ExactPerToken, CachedTokens, EstimateKv, PaddedBytes;
    CachedMonotone(spec, input, output);
    EstimateIsPaddedModulo(spec, input);
    PaddedFootprint(spec, input);
    MulMonotone(CachedTokens(spec, input.(outputTokens := output)), CachedTokens(spec, input),
                ExactPerToken(spec) * Sequences(input));
  }

  /** One more output token, while neither the window nor the counter is full, costs one token in every sequence. */
  lemma OneMoreToken(spec: ModelSpec, input: EstimateInput)
    requires input.blockSize == 0 && input.inputTokens + input.outputTokens < U32_MAX
    requires spec.slidingWindow > 0 ==> input.inputTokens + input.outputTokens < spec.slidingWindow
    requires PaddedBytes(spec, input.(outputTokens := input.outputTokens + 1)) < U64
    ensures EstimateKv(spec, input.(outputTokens := input.outputTokens + 1)).bytes ==
            EstimateKv(spec, input).bytes + ExactPerToken(spec) * Sequences(input)
  {
    hide ExactPerToken, EstimateKv;
    var more := input.(outputTokens := input.outputTokens + 1);
    assert CachedTokens(spec, more) == CachedTokens(spec, input) + 1 && Sequences(more) == Sequences(input);
    EstimateIsPaddedModulo(spec, input);
    EstimateIsPaddedModulo(spec, more);
    OneMore(ExactPerToken(spec) * Sequences(input), CachedTokens(spec, input));
  }

  lemma OneMore(x: nat, n: nat)
    ensures x * (n + 1) == x * n + x
  {}

  /**
   As long as one block per sequence fits 64 bits, the estimate covers the true footprint
   exactly when the padded footprint is below 2^64 and the reserved tokens, of which no
   more than 2^32 - 1 were counted, are all that are cached.
   */
  lemma CoversIff(spec: ModelSpec, input: EstimateInput)
    requires ExactPerToken(spec) > 0 && (ExactPerToken(spec) * Sequences(input)) * input.blockSize <= U64
    ensures ExactBytes(spec, input) <= EstimateKv(spec, input).bytes <==>
            PaddedBytes(spec, input) < U64 && CachedTokens(spec, input) <= PaddedTokens(spec, input)
  {
    hide ExactPerToken, CachedTokens, EstimateKv, DivCeil, PaddedTokens;
    var x := ExactPerToken(spec) * Sequences(input);
    var cached, padded := CachedTokens(spec, input), PaddedTokens(spec, input);
    EstimateIsPaddedModulo(spec, input);
    WrapIffSmall(PaddedBytes(spec, input));
    SomeSequence(spec, input);
    if cached <= padded { MulMonotone(cached, padded, x); } else { MulStrict(padded, cached, x); }
    PaddingBounded(spec, input);
  }

  lemma SomeSequence(spec: ModelSpec, input: EstimateInput)
    requires ExactPerToken(spec) > 0
    ensures ExactPerToken(spec) * Sequences(input) > 0
  {
    hide ExactPerToken;
    MulStrict(0, Sequences(input), ExactPerToken(spec));
  }

  /** What is reserved stays below what is cached plus one block per sequence. */
  lemma PaddingBounded(spec: ModelSpec, input: EstimateInput)
    requires ExactPerToken(spec) > 0
    ensures PaddedBytes(spec, input) <=
            ExactBytes(spec, input) + (ExactPerToken(spec) * Sequences(input)) * input.blockSize
    ensures PaddedBytes(spec, input) > ExactBytes(spec, input) ==>
              PaddedBytes(spec, input) <
              ExactBytes(spec, input) + (ExactPerToken(spec) * Sequences(input)) * input.blockSize
  {
    hide ExactPerToken, CachedTokens, DivCeil;
    var x, cached, block := ExactPerToken(spec) * Sequences(input), CachedTokens(spec, input), input.blockSize;
    var counted := Min(cached, U32_MAX);
    SomeSequence(spec, input);
    MulMonotone(counted, cached, x);
    if block > 0 {
      DivCeilBounds(counted, block);
      PaddingProduct(x, PaddedTokens(spec, input), counted, block);
    }
  }

  /** A true footprint of 2^64 bytes or more is always underestimated. */
  lemma LargeFootprintsFallShort(spec: ModelSpec, input: EstimateInput)
    requires ExactBytes(spec, input) >= U64
    ensures EstimateKv(spec, input).bytes < ExactBytes(spec, input)
  {
    hide ExactPerToken, EstimateKv, PaddedBytes, ExactBytes;
    EstimateIsPaddedModulo(spec, input);
  }

  /** For instance, a footprint of exactly 2^64 bytes is estimated as 0. */
  lemma OverflowUnderestimates()
    ensures var spec := ModelSpec(0x1_0000, 0x1_0000, 0x1_0000, Standard, Fp16, 0, 0, 0);
      var input := EstimateInput(1, 0x4000, 0, 0);
      ExactBytes(spec, input) == U64 && EstimateKv(spec, input).bytes == 0
  {
    var spec := ModelSpec(0x1_0000, 0x1_0000, 0x1_0000, Standard, Fp16, 0, 0, 0);
    var input := EstimateInput(1, 0x4000, 0, 0);
    assert ExactPerToken(spec) == 0x4_0000_0000_0000;
    hide ExactPerToken, EstimateKv, PaddedBytes;
    PaddedFootprint(spec, input);
    EstimateIsPaddedModulo(spec, input);
  }
}
