/**
 Cuckoo filter primitives (cuckoo_filter.rs): four 16-bit fingerprints packed in
 one 64-bit word, the word-parallel membership test, and partial-key addressing.

 The bit-level facts are proved here once, on bit-vectors. Everything above this
 module reasons with `Count` (how many slots hold a fingerprint) and with an
 `Addressing`, never with words.
 */
module CuckooFilter {
  import opened Arithmetic
  import opened Wrappers

  type Fp = bv16            // 0 is the empty slot
  type PackedBucket = bv64  // slot 0 in the low bits

  /** A 64-bit block hash. */
  datatype Hash = Hash(word: bv64)

  const FP_PER_BUCKET: nat := 4
  const MAX_KICKS: nat := 500
  const BUCKETS_PER_LANE: nat := 65536

  // ---------- packed buckets ----------

  function Slot(b: PackedBucket, i: nat): Fp
    requires i < FP_PER_BUCKET
  {
    if i == 0 then (b & 0xFFFF) as bv16
    else if i == 1 then ((b >> 16) & 0xFFFF) as bv16
    else if i == 2 then ((b >> 32) & 0xFFFF) as bv16
    else ((b >> 48) & 0xFFFF) as bv16
  }

  function WithSlot(b: PackedBucket, i: nat, fp: Fp): PackedBucket
    requires i < FP_PER_BUCKET
  {
    if i == 0 then (b & 0xFFFF_FFFF_FFFF_0000) | (fp as bv64)
    else if i == 1 then (b & 0xFFFF_FFFF_0000_FFFF) | ((fp as bv64) << 16)
    else if i == 2 then (b & 0xFFFF_0000_FFFF_FFFF) | ((fp as bv64) << 32)
    else (b & 0x0000_FFFF_FFFF_FFFF) | ((fp as bv64) << 48)
  }

  /** The word-parallel test: some 16-bit lane of `b ^ fp,fp,fp,fp` is zero. */
  predicate BucketContains(b: PackedBucket, fp: Fp) {
    SomeLaneZero(Different(b, fp))
  }

  function Different(b: PackedBucket, fp: Fp): bv64 {
    b ^ ((fp as bv64) * 0x0001_0001_0001_0001)
  }

  predicate SomeLaneZero(d: bv64) {
    (d - 0x0001_0001_0001_0001) & !d & 0x8000_8000_8000_8000 != 0
  }

  predicate LaneZero(d: bv64, i: nat) {
    if i == 0 then d & 0xFFFF == 0
    else if i == 1 then d & 0xFFFF_0000 == 0
    else if i == 2 then d & 0xFFFF_0000_0000 == 0
    else d & 0xFFFF_0000_0000_0000 == 0
  }

  function FirstMatch(b: PackedBucket, fp: Fp): Option<nat> {
    if Slot(b, 0) == fp then Some(0)
    else if Slot(b, 1) == fp then Some(1)
    else if Slot(b, 2) == fp then Some(2)
    else if Slot(b, 3) == fp then Some(3)
    else None
  }

  function TryInsert(b: PackedBucket, fp: Fp): Option<PackedBucket> {
    match FirstMatch(b, 0)
    case Some(i) => Some(WithSlot(b, i, fp))
    case None => None
  }

  function TryDelete(b: PackedBucket, fp: Fp): Option<PackedBucket> {
    match FirstMatch(b, fp)
    case Some(i) => Some(WithSlot(b, i, 0))
    case None => None
  }

  // ---------- what the bits mean ----------

  function Same(f: Fp, g: Fp): nat { if f == g then 1 else 0 }

  /** Number of slots of `b` that hold `fp`; `Count(b, 0)` is the free space. */
  function Count(b: PackedBucket, fp: Fp): nat {
    Same(Slot(b, 0), fp) + Same(Slot(b, 1), fp) + Same(Slot(b, 2), fp) + Same(Slot(b, 3), fp)
  }

  lemma SlotWithSlot(b: PackedBucket, i: nat, fp: Fp, j: nat)
    requires i < FP_PER_BUCKET && j < FP_PER_BUCKET
    ensures Slot(WithSlot(b, i, fp), j) == if i == j then fp else Slot(b, j)
  {
    if i == 0 { SlotWithSlot0(b, fp, j); }
    else if i == 1 { SlotWithSlot1(b, fp, j); }
    else if i == 2 { SlotWithSlot2(b, fp, j); }
    else { SlotWithSlot3(b, fp, j); }
    hide *;
  }

  lemma SlotWithSlot0(b: PackedBucket, fp: Fp, j: nat)
    requires j < FP_PER_BUCKET
    ensures Slot(WithSlot(b, 0, fp), j) == if j == 0 then fp else Slot(b, j)
  {
    WriteLane0(b, fp, WithSlot(b, 0, fp));
  }

  lemma SlotWithSlot1(b: PackedBucket, fp: Fp, j: nat)
    requires j < FP_PER_BUCKET
    ensures Slot(WithSlot(b, 1, fp), j) == if j == 1 then fp else Slot(b, j)
  {
    WriteLane1(b, fp, WithSlot(b, 1, fp));
  }

  lemma SlotWithSlot2(b: PackedBucket, fp: Fp, j: nat)
    requires j < FP_PER_BUCKET
    ensures Slot(WithSlot(b, 2, fp), j) == if j == 2 then fp else Slot(b, j)
  {
    WriteLane2(b, fp, WithSlot(b, 2, fp));
  }

  lemma SlotWithSlot3(b: PackedBucket, fp: Fp, j: nat)
    requires j < FP_PER_BUCKET
    ensures Slot(WithSlot(b, 3, fp), j) == if j == 3 then fp else Slot(b, j)
  {
    WriteLane3(b, fp, WithSlot(b, 3, fp));
  }

  lemma WriteLane0(b: bv64, fp: bv16, w: bv64)
    requires w == (b & 0xFFFF_FFFF_FFFF_0000) | (fp as bv64)
    ensures (w & 0xFFFF) as bv16 == fp
    ensures ((w >> 16) & 0xFFFF) as bv16 == ((b >> 16) & 0xFFFF) as bv16
    ensures ((w >> 32) & 0xFFFF) as bv16 == ((b >> 32) & 0xFFFF) as bv16
    ensures ((w >> 48) & 0xFFFF) as bv16 == ((b >> 48) & 0xFFFF) as bv16
  {}

  lemma WriteLane1(b: bv64, fp: bv16, w: bv64)
    requires w == (b & 0xFFFF_FFFF_0000_FFFF) | ((fp as bv64) << 16)
    ensures (w & 0xFFFF) as bv16 == (b & 0xFFFF) as bv16
    ensures ((w >> 16) & 0xFFFF) as bv16 == fp
    ensures ((w >> 32) & 0xFFFF) as bv16 == ((b >> 32) & 0xFFFF) as bv16
    ensures ((w >> 48) & 0xFFFF) as bv16 == ((b >> 48) & 0xFFFF) as bv16
  {}

  lemma WriteLane2(b: bv64, fp: bv16, w: bv64)
    requires w == (b & 0xFFFF_0000_FFFF_FFFF) | ((fp as bv64) << 32)
    ensures (w & 0xFFFF) as bv16 == (b & 0xFFFF) as bv16
    ensures ((w >> 16) & 0xFFFF) as bv16 == ((b >> 16) & 0xFFFF) as bv16
    ensures ((w >> 32) & 0xFFFF) as bv16 == fp
    ensures ((w >> 48) & 0xFFFF) as bv16 == ((b >> 48) & 0xFFFF) as bv16
  {}

  lemma WriteLane3(b: bv64, fp: bv16, w: bv64)
    requires w == (b & 0x0000_FFFF_FFFF_FFFF) | ((fp as bv64) << 48)
    ensures (w & 0xFFFF) as bv16 == (b & 0xFFFF) as bv16
    ensures ((w >> 16) & 0xFFFF) as bv16 == ((b >> 16) & 0xFFFF) as bv16
    ensures ((w >> 32) & 0xFFFF) as bv16 == ((b >> 32) & 0xFFFF) as bv16
    ensures ((w >> 48) & 0xFFFF) as bv16 == fp
  {}

  lemma HasZeroLane(d: bv64)
    ensures (d - 0x0001_0001_0001_0001) & !d & 0x8000_8000_8000_8000 != 0 <==>
            d & 0xFFFF == 0 || d & 0xFFFF_0000 == 0 || d & 0xFFFF_0000_0000 == 0 || d & 0xFFFF_0000_0000_0000 == 0
  {}

  lemma XorLane0(b: bv64, fp: bv16)
    ensures (b ^ ((fp as bv64) * 0x0001_0001_0001_0001)) & 0xFFFF == 0 <==> (b & 0xFFFF) as bv16 == fp
  {}

  lemma XorLane1(b: bv64, fp: bv16)
    ensures (b ^ ((fp as bv64) * 0x0001_0001_0001_0001)) & 0xFFFF_0000 == 0 <==> ((b >> 16) & 0xFFFF) as bv16 == fp
  {}

  lemma XorLane2(b: bv64, fp: bv16)
    ensures (b ^ ((fp as bv64) * 0x0001_0001_0001_0001)) & 0xFFFF_0000_0000 == 0 <==> ((b >> 32) & 0xFFFF) as bv16 == fp
  {}

  lemma XorLane3(b: bv64, fp: bv16)
    ensures (b ^ ((fp as bv64) * 0x0001_0001_0001_0001)) & 0xFFFF_0000_0000_0000 == 0 <==>
            ((b >> 48) & 0xFFFF) as bv16 == fp
  {}

  lemma XorSlot0(b: bv64, fp: bv16)
    ensures (b ^ ((fp as bv64) * 0x0001_0001_0001_0001)) & 0xFFFF == 0 <==> Slot(b, 0) == fp
  {
    XorLane0(b, fp);
  }

  lemma XorSlot1(b: bv64, fp: bv16)
    ensures (b ^ ((fp as bv64) * 0x0001_0001_0001_0001)) & 0xFFFF_0000 == 0 <==> Slot(b, 1) == fp
  {
    XorLane1(b, fp);
  }

  lemma XorSlot2(b: bv64, fp: bv16)
    ensures (b ^ ((fp as bv64) * 0x0001_0001_0001_0001)) & 0xFFFF_0000_0000 == 0 <==> Slot(b, 2) == fp
  {
    XorLane2(b, fp);
  }

  lemma XorSlot3(b: bv64, fp: bv16)
    ensures (b ^ ((fp as bv64) * 0x0001_0001_0001_0001)) & 0xFFFF_0000_0000_0000 == 0 <==> Slot(b, 3) == fp
  {
    XorLane3(b, fp);
  }

  lemma ZeroLaneIffSlot(b: PackedBucket, fp: Fp, d: bv64)
    requires d == b ^ ((fp as bv64) * 0x0001_0001_0001_0001)
    ensures LaneZero(d, 0) <==> Slot(b, 0) == fp
    ensures LaneZero(d, 1) <==> Slot(b, 1) == fp
    ensures LaneZero(d, 2) <==> Slot(b, 2) == fp
    ensures LaneZero(d, 3) <==> Slot(b, 3) == fp
  {
    XorSlot0(b, fp); XorSlot1(b, fp); XorSlot2(b, fp); XorSlot3(b, fp);
    hide Slot;
  }

  lemma DifferentIsXor(b: PackedBucket, fp: Fp)
    ensures Different(b, fp) == b ^ ((fp as bv64) * 0x0001_0001_0001_0001)
  {}

  lemma SomeLaneZeroExact(d: bv64)
    ensures SomeLaneZero(d) <==> LaneZero(d, 0) || LaneZero(d, 1) || LaneZero(d, 2) || LaneZero(d, 3)
  {
    HasZeroLane(d);
  }

  lemma ContainsIffSlot(b: PackedBucket, fp: Fp)
    ensures BucketContains(b, fp) <==> Slot(b, 0) == fp || Slot(b, 1) == fp || Slot(b, 2) == fp || Slot(b, 3) == fp
  {
    hide Slot, Different, SomeLaneZero, LaneZero;
    DifferentIsXor(b, fp);
    SomeLaneZeroExact(Different(b, fp));
    ZeroLaneIffSlot(b, fp, Different(b, fp));
  }

  /** The word-parallel test is exact: no false positive, no false negative, for every word. */
  lemma SwarMembership(b: PackedBucket, fp: Fp)
    ensures BucketContains(b, fp) <==> Count(b, fp) > 0
    ensures BucketContains(b, fp) <==> FirstMatch(b, fp).Some?
    ensures BucketContains(b, fp) <==> exists i :: 0 <= i < FP_PER_BUCKET && Slot(b, i) == fp
  {
    hide Slot, BucketContains;
    ContainsIffSlot(b, fp);
  }

  /** Overwriting one slot trades one copy of what was there for one copy of `fp`. */
  lemma CountWithSlot(b: PackedBucket, i: nat, fp: Fp, f: Fp)
    requires i < FP_PER_BUCKET
    ensures Count(WithSlot(b, i, fp), f) == Count(b, f) - Same(Slot(b, i), f) + Same(fp, f)
  {
    hide Slot, WithSlot;
    SlotWithSlot(b, i, fp, 0); SlotWithSlot(b, i, fp, 1); SlotWithSlot(b, i, fp, 2); SlotWithSlot(b, i, fp, 3);
  }

  lemma TryInsertCount(b: PackedBucket, fp: Fp, f: Fp)
    ensures TryInsert(b, fp).None? <==> Count(b, 0) == 0
    ensures TryInsert(b, fp).Some? ==>
              (Count(TryInsert(b, fp).value, f) == Count(b, f) - Same(f, 0) + Same(f, fp))
  {
    hide Slot, WithSlot;
    if FirstMatch(b, 0).Some? { CountWithSlot(b, FirstMatch(b, 0).value, fp, f); }
  }

  lemma TryDeleteCount(b: PackedBucket, fp: Fp, f: Fp)
    ensures TryDelete(b, fp).None? <==> Count(b, fp) == 0
    ensures TryDelete(b, fp).Some? ==>
              (Count(TryDelete(b, fp).value, f) == Count(b, f) - Same(f, fp) + Same(f, 0))
  {
    hide Slot, WithSlot;
    if FirstMatch(b, fp).Some? { CountWithSlot(b, FirstMatch(b, fp).value, 0, f); }
  }

  /** Deleting what was just inserted restores the word bit for bit. */
  lemma InsertThenDelete(b: PackedBucket, fp: Fp)
    requires fp != 0 && Count(b, fp) == 0 && TryInsert(b, fp).Some?
    ensures TryDelete(TryInsert(b, fp).value, fp) == Some(b)
  {
    hide Slot, WithSlot;
    var i := FirstMatch(b, 0).value;
    var w := WithSlot(b, i, fp);
    SlotWithSlot(b, i, fp, 0); SlotWithSlot(b, i, fp, 1); SlotWithSlot(b, i, fp, 2); SlotWithSlot(b, i, fp, 3);
    SlotWithSlot(w, i, 0, 0); SlotWithSlot(w, i, 0, 1); SlotWithSlot(w, i, 0, 2); SlotWithSlot(w, i, 0, 3);
    SlotsDetermineWord(b, WithSlot(w, i, 0));
  }

  lemma SlotsDetermineWord(b: PackedBucket, c: PackedBucket)
    ensures Slot(b, 0) == Slot(c, 0) && Slot(b, 1) == Slot(c, 1) &&
            Slot(b, 2) == Slot(c, 2) && Slot(b, 3) == Slot(c, 3) ==>
              b == c
  {}

  /** Slot `i` is bits 16 i to 16 i + 15 of the word. */
  lemma WordOfSlots(b: PackedBucket)
    ensures b == (Slot(b, 0) as bv64) | ((Slot(b, 1) as bv64) << 16) |
                 ((Slot(b, 2) as bv64) << 32) | ((Slot(b, 3) as bv64) << 48)
  {}

  lemma EmptyBucket()
    ensures Count(0, 0) == 4
    ensures forall f: Fp :: f != 0 ==> Count(0, f) == 0
  {
    assert Slot(0, 0) == 0 && Slot(0, 1) == 0 && Slot(0, 2) == 0 && Slot(0, 3) == 0;
    hide Slot;
  }

  // ---------- addressing ----------

  /**
   How a block hash is placed: `probe` gives its fingerprint and primary bucket,
   `alt` the other candidate bucket of a fingerprint. The laws in `Valid` are all
   that the filter relies on; `XxhAddressing` shows the code's functions obey them
   whatever the underlying hash computes.
   */
  datatype Addressing = Addressing(probe: Hash -> (Fp, nat), alt: (nat, Fp) -> nat) {
    ghost predicate Valid() {
      && (forall h :: probe(h).0 != 0 && probe(h).1 < BUCKETS_PER_LANE)
      && (forall i: nat, f :: i < BUCKETS_PER_LANE ==>
            alt(i, f) < BUCKETS_PER_LANE && alt(i, f) != i && alt(alt(i, f), f) == i)
    }

    /** `h` competes for the same two buckets with the same fingerprint as (f, i). */
    predicate InClass(h: Hash, f: Fp, i: nat) {
      probe(h).0 == f && (probe(h).1 == i || alt(probe(h).1, f) == i)
    }
  }

  function LeBytes2(x: bv16): seq<bv8> { [(x & 0xFF) as bv8, (x >> 8) as bv8] }

  function LeBytes8(x: bv64): seq<bv8> {
    [(x & 0xFF) as bv8, ((x >> 8) & 0xFF) as bv8, ((x >> 16) & 0xFF) as bv8, ((x >> 24) & 0xFF) as bv8,
     ((x >> 32) & 0xFF) as bv8, ((x >> 40) & 0xFF) as bv8, ((x >> 48) & 0xFF) as bv8, ((x >> 56) & 0xFF) as bv8]
  }

  /** The bytes of a hash put together again, lowest first. */
  function WordOf(bytes: seq<bv8>): bv64
    requires |bytes| == 8
  {
    (bytes[0] as bv64) | ((bytes[1] as bv64) << 8) | ((bytes[2] as bv64) << 16) | ((bytes[3] as bv64) << 24) |
    ((bytes[4] as bv64) << 32) | ((bytes[5] as bv64) << 40) | ((bytes[6] as bv64) << 48) | ((bytes[7] as bv64) << 56)
  }

  /** Distinct hashes, and distinct fingerprints, are addressed from distinct bytes. */
  lemma BytesKeepAll(x: bv64, f: Fp)
    ensures WordOf(LeBytes8(x)) == x
    ensures (LeBytes2(f)[0] as bv16) | ((LeBytes2(f)[1] as bv16) << 8) == f
  {}

  function Half(x: nat): nat { x / 2 }

  /** The exclusive or of the last bits. */
  function LastBit(x: nat, y: nat): (b: nat) { (x + y) % 2 }

  /** Bitwise exclusive or of two `bits`-bit indices. */
  function Xor(x: nat, y: nat, bits: nat): nat {
    if bits == 0 then 0 else LastBit(x, y) + 2 * Xor(Half(x), Half(y), bits - 1)
  }

  lemma Halved(x: nat, y: nat, r: nat)
    ensures x == LastBit(x, 0) + 2 * Half(x) && LastBit(x, y) <= 1
    ensures Half(LastBit(x, y) + 2 * r) == r
    ensures LastBit(LastBit(x, y) + 2 * r, y) == LastBit(x, 0)
    ensures LastBit(x, y) == LastBit(x, 0) <==> LastBit(y, 0) == 0
  {}

  lemma {:induction false} XorInRange(x: nat, y: nat, bits: nat)
    ensures Xor(x, y, bits) < Pow2(bits)
    decreases bits
  {
    hide Half, LastBit;
    if bits > 0 {
      Halved(x, y, 0);
      XorInRange(Half(x), Half(y), bits - 1);
    }
  }

  /** Exclusive or with anything but 0 changes the index. */
  lemma {:induction false} XorChanges(x: nat, y: nat, bits: nat)
    requires 0 < y < Pow2(bits) && x < Pow2(bits)
    ensures Xor(x, y, bits) != x
    decreases bits
  {
    hide Half, LastBit;
    var r := Xor(Half(x), Half(y), bits - 1);
    Halved(x, y, r);
    Halved(y, 0, 0);
    if Half(y) > 0 { XorChanges(Half(x), Half(y), bits - 1); }
  }

  lemma {:induction false} XorTwice(x: nat, y: nat, bits: nat)
    requires x < Pow2(bits)
    ensures Xor(Xor(x, y, bits), y, bits) == x
    decreases bits
  {
    hide Half, LastBit;
    if bits > 0 {
      Halved(x, y, Xor(Half(x), Half(y), bits - 1));
      XorTwice(Half(x), Half(y), bits - 1);
    }
  }

  function Digit(x: nat, k: nat): nat {
    if k == 0 then LastBit(x, 0) else Digit(Half(x), k - 1)
  }

  /** Bit by bit: the bits of the result are those in which the two differ. */
  lemma {:induction false} XorDigits(x: nat, y: nat, bits: nat, k: nat)
    requires k < bits
    ensures Digit(Xor(x, y, bits), k) == if Digit(x, k) == Digit(y, k) then 0 else 1
    decreases bits
  {
    Halved(x, y, Xor(Half(x), Half(y), bits - 1));
    if k > 0 { XorDigits(Half(x), Half(y), bits - 1, k - 1); }
  }

  /** `idx ^ hash(fp)`. */
  function AltIndex(xxh3: (seq<bv8>, bv64) -> bv64, idx: nat, fp: Fp): nat {
    Xor(idx % BUCKETS_PER_LANE, AltDelta(xxh3, fp), 16)
  }

  /** The masked hash of a fingerprint, forced to 1 when it is 0. */
  function AltDelta(xxh3: (seq<bv8>, bv64) -> bv64, fp: Fp): (delta: nat)
    ensures 0 < delta < BUCKETS_PER_LANE
  {
    var masked := (xxh3(LeBytes2(fp), 0x9E37_79B9_7F4A_7C15) & 0xFFFF) as bv16;
    MaskedIndex(masked);
    if masked as nat == 0 then 1 else masked as nat
  }

  /** Fingerprint (low bit forced so that it is never 0) and primary bucket of a hash. */
  function Probe(xxh3: (seq<bv8>, bv64) -> bv64, hash: Hash): (Fp, nat) {
    var mixed := xxh3(LeBytes8(hash.word), 0);
    (((mixed & 0xFFFF) as bv16) | 1, ((mixed >> 16) & 0xFFFF) as bv16 as nat)
  }

  /** Fingerprint and primary bucket come from different bits: some hash value gives any odd fingerprint any bucket. */
  lemma AnyPlace(hash: Hash, f: Fp, i: bv16) returns (mixed: bv64)
    requires f & 1 == 1
    ensures Probe((_, _) => mixed, hash) == (f, i as nat)
  {
    mixed := TwoHalves(f, i);
  }

  lemma TwoHalves(f: bv16, i: bv16) returns (w: bv64)
    requires f & 1 == 1
    ensures ((w & 0xFFFF) as bv16) | 1 == f && ((w >> 16) & 0xFFFF) as bv16 == i
  {
    w := (f as bv64) | ((i as bv64) << 16);
  }

  lemma {:induction false} XorNothing(x: nat, bits: nat)
    requires x < Pow2(bits)
    ensures Xor(x, 0, bits) == x
    decreases bits
  {
    if bits > 0 { XorNothing(Half(x), bits - 1); }
  }

  /** When the hash of a fingerprint masks to 0, its other bucket is the neighbour. */
  lemma NeighbourWhenMaskedZero(xxh3: (seq<bv8>, bv64) -> bv64, i: nat, f: Fp)
    requires i < BUCKETS_PER_LANE && xxh3(LeBytes2(f), 0x9E37_79B9_7F4A_7C15) & 0xFFFF == 0
    ensures AltIndex(xxh3, i, f) == if i % 2 == 0 then i + 1 else i - 1
  {
    hide AltDelta, Xor;
    ZeroMasked(xxh3, f);
    Pow2Values();
    XorOne(i, 16);
  }

  lemma XorOne(x: nat, bits: nat)
    requires bits > 0 && x < Pow2(bits)
    ensures Xor(x, 1, bits) == if x % 2 == 0 then x + 1 else x - 1
  {
    XorNothing(Half(x), bits - 1);
    assert Xor(x, 1, bits) == LastBit(x, 1) + 2 * Xor(Half(x), Half(1), bits - 1);
  }

  lemma ZeroMasked(xxh3: (seq<bv8>, bv64) -> bv64, f: Fp)
    requires xxh3(LeBytes2(f), 0x9E37_79B9_7F4A_7C15) & 0xFFFF == 0
    ensures AltDelta(xxh3, f) == 1
  {}

  function XxhAddressing(xxh3: (seq<bv8>, bv64) -> bv64): Addressing {
    Addressing((h: Hash) => Probe(xxh3, h), (i: nat, f: Fp) => AltIndex(xxh3, i, f))
  }

  lemma MaskedIndex(x: bv16)
    ensures 0 <= x as nat < BUCKETS_PER_LANE
  {}

  lemma FingerprintNonZero(x: bv16)
    ensures x | 1 != 0
  {}

  lemma ProbeInRange(xxh3: (seq<bv8>, bv64) -> bv64, h: Hash)
    ensures Probe(xxh3, h).0 != 0 && Probe(xxh3, h).1 < BUCKETS_PER_LANE
  {
    var mixed := xxh3(LeBytes8(h.word), 0);
    FingerprintNonZero((mixed & 0xFFFF) as bv16);
    MaskedIndex(((mixed >> 16) & 0xFFFF) as bv16);
  }

  lemma XorIndex(i: nat, delta: nat)
    requires i < BUCKETS_PER_LANE && 0 < delta < BUCKETS_PER_LANE
    ensures Xor(i, delta, 16) < BUCKETS_PER_LANE && Xor(i, delta, 16) != i
    ensures Xor(Xor(i, delta, 16), delta, 16) == i
  {
    hide Xor;
    Pow2Values();
    XorInRange(i, delta, 16);
    XorChanges(i, delta, 16);
    XorTwice(i, delta, 16);
  }

  lemma AltIndexInvolution(xxh3: (seq<bv8>, bv64) -> bv64, i: nat, f: Fp)
    requires i < BUCKETS_PER_LANE
    ensures AltIndex(xxh3, i, f) < BUCKETS_PER_LANE && AltIndex(xxh3, i, f) != i
    ensures AltIndex(xxh3, AltIndex(xxh3, i, f), f) == i
  {
    hide Xor, AltDelta;
    XorIndex(i, AltDelta(xxh3, f));
  }

  /** Whatever the hash function is, the code's addressing is a fixed-point-free involution. */
  lemma XxhAddressingValid(xxh3: (seq<bv8>, bv64) -> bv64)
    ensures XxhAddressing(xxh3).Valid()
  {
    hide Probe, AltIndex;
    var a := XxhAddressing(xxh3);
    forall h ensures a.probe(h).0 != 0 && a.probe(h).1 < BUCKETS_PER_LANE {
      ProbeInRange(xxh3, h);
    }
    forall i: nat, f | i < BUCKETS_PER_LANE
      ensures a.alt(i, f) < BUCKETS_PER_LANE && a.alt(i, f) != i && a.alt(a.alt(i, f), f) == i
    {
      AltIndexInvolution(xxh3, i, f);
    }
  }
}
