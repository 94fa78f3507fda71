/**
 One lane of cuckoo buckets as a value: how many copies of a fingerprint class it
 holds, how one bucket write moves that number, and the eviction step with its undo.
 */
module Lane {
  import opened Wrappers
  import opened CuckooFilter

  type LaneBuckets = bs: seq<PackedBucket> | |bs| == BUCKETS_PER_LANE witness EmptyLane()

  function EmptyLane(): (bs: seq<PackedBucket>)
    ensures |bs| == BUCKETS_PER_LANE
  {
    seq(BUCKETS_PER_LANE, _ => 0)
  }

  /** One lane of a [bucket, lane] table. */
  ghost function Column(buckets: array2<PackedBucket>, lane: nat): (view: LaneBuckets)
    reads buckets
    requires buckets.Length0 == BUCKETS_PER_LANE && lane < buckets.Length1
  {
    seq(BUCKETS_PER_LANE, i
      requires 0 <= i < BUCKETS_PER_LANE && buckets.Length0 == BUCKETS_PER_LANE && lane < buckets.Length1
      reads buckets => buckets[i, lane])
  }

  /** Copies of fingerprint `f` in its candidate pair {i, alt(i, f)}: a whole class is in two buckets. */
  ghost function Copies(a: Addressing, bs: LaneBuckets, f: Fp, i: nat): nat
    requires a.Valid() && i < BUCKETS_PER_LANE
  {
    Count(bs[i], f) + Count(bs[a.alt(i, f)], f)
  }

  /** `j` is one of the two candidate buckets of (f, i). */
  predicate InPair(a: Addressing, f: Fp, i: nat, j: nat) { j == i || j == a.alt(i, f) }

  /** Sharing a pair is symmetric, so a class is the same seen from either of its buckets. */
  lemma PairSymmetric(a: Addressing, f: Fp, i: nat, j: nat)
    requires a.Valid() && i < BUCKETS_PER_LANE && j < BUCKETS_PER_LANE
    ensures InPair(a, f, i, j) <==> InPair(a, f, j, i)
    ensures InPair(a, f, i, j) <==> InPair(a, f, i, a.alt(j, f))
  {
    assert a.alt(a.alt(i, f), f) == i && a.alt(a.alt(j, f), f) == j;
  }

  /** Number of occupied slots of a lane. */
  function Occupied(bs: seq<PackedBucket>): nat {
    if bs == [] then 0 else Occupied(bs[..|bs| - 1]) + (4 - Count(bs[|bs| - 1], 0))
  }

  lemma {:induction false} OccupiedWrite(bs: seq<PackedBucket>, j: nat, v: PackedBucket)
    requires j < |bs|
    ensures Occupied(bs[j := v]) == Occupied(bs) + Count(bs[j], 0) - Count(v, 0)
  {
    hide Count;
    var n := |bs| - 1;
    if j == n {
      assert bs[j := v][..n] == bs[..n];
    } else {
      assert bs[j := v][..n] == bs[..n][j := v];
      OccupiedWrite(bs[..n], j, v);
    }
  }

  lemma {:induction false} OccupiedEmpty(bs: seq<PackedBucket>)
    requires forall k :: 0 <= k < |bs| ==> bs[k] == 0
    ensures Occupied(bs) == 0
  {
    EmptyBucket();
    hide Count;
    if bs != [] { OccupiedEmpty(bs[..|bs| - 1]); }
  }

  /** A write to bucket `j` changes the copies of (f, i) exactly when `j` is in its pair. */
  lemma CopiesWrite(a: Addressing, bs: LaneBuckets, j: nat, v: PackedBucket, f: Fp, i: nat)
    requires a.Valid() && i < BUCKETS_PER_LANE && j < BUCKETS_PER_LANE
    ensures Copies(a, bs[j := v], f, i) ==
            Copies(a, bs, f, i) + if InPair(a, f, i, j) then Count(v, f) as int - Count(bs[j], f) as int else 0
  {
    hide Count;
  }

  // ---------- direct placement and deletion ----------

  function Primary(a: Addressing, h: Hash): (i: nat)
    requires a.Valid()
    ensures i < BUCKETS_PER_LANE
  {
    a.probe(h).1
  }

  function Secondary(a: Addressing, h: Hash): (i: nat)
    requires a.Valid()
    ensures i < BUCKETS_PER_LANE && i != Primary(a, h)
  {
    a.alt(a.probe(h).1, a.probe(h).0)
  }

  /** First of the primary and secondary buckets of `h` that `op` accepts, with its new word. */
  function FirstAccepting(a: Addressing, bs: LaneBuckets, h: Hash, op: (PackedBucket, Fp) -> Option<PackedBucket>)
    : (w: Option<(nat, PackedBucket)>)
    requires a.Valid()
    ensures w.Some? ==> w.value.0 < BUCKETS_PER_LANE
  {
    var fp := a.probe(h).0;
    match op(bs[Primary(a, h)], fp)
    case Some(v) => Some((Primary(a, h), v))
    case None =>
      match op(bs[Secondary(a, h)], fp)
      case Some(v) => Some((Secondary(a, h), v))
      case None => None
  }

  /** Try the primary bucket, then the secondary one. */
  function DirectInsert(a: Addressing, bs: LaneBuckets, h: Hash): (w: Option<(nat, PackedBucket)>)
    requires a.Valid()
    ensures w.Some? ==> w.value.0 < BUCKETS_PER_LANE
  {
    FirstAccepting(a, bs, h, TryInsert)
  }

  function DirectDelete(a: Addressing, bs: LaneBuckets, h: Hash): (w: Option<(nat, PackedBucket)>)
    requires a.Valid()
    ensures w.Some? ==> w.value.0 < BUCKETS_PER_LANE
  {
    FirstAccepting(a, bs, h, TryDelete)
  }

  function Written(bs: LaneBuckets, w: Option<(nat, PackedBucket)>): LaneBuckets
    requires w.Some? ==> w.value.0 < BUCKETS_PER_LANE
  {
    if w.Some? then bs[w.value.0 := w.value.1] else bs
  }

  /** Inserting into one of the candidate buckets. */
  lemma InsertAtCopies(a: Addressing, bs: LaneBuckets, h: Hash, j: nat, f: Fp, i: nat)
    requires a.Valid() && i < BUCKETS_PER_LANE && f != 0 && (j == Primary(a, h) || j == Secondary(a, h))
    requires TryInsert(bs[j], a.probe(h).0).Some?
    ensures var bs' := bs[j := TryInsert(bs[j], a.probe(h).0).value];
      && Copies(a, bs', f, i) == Copies(a, bs, f, i) + (if a.InClass(h, f, i) then 1 else 0)
      && Occupied(bs') == Occupied(bs) + 1
  {
    hide Count, Occupied, TryInsert, Copies;
    var fp := a.probe(h).0;
    var v := TryInsert(bs[j], fp).value;
    TryInsertCount(bs[j], fp, f);
    TryInsertCount(bs[j], fp, 0);
    PairSymmetric(a, f, i, Primary(a, h));
    CopiesWrite(a, bs, j, v, f, i);
    OccupiedWrite(bs, j, v);
  }

  lemma DirectInsertCopies(a: Addressing, bs: LaneBuckets, h: Hash, f: Fp, i: nat)
    requires a.Valid() && i < BUCKETS_PER_LANE && f != 0
    ensures var w := DirectInsert(a, bs, h);
      && (w.None? <==> Count(bs[Primary(a, h)], 0) + Count(bs[Secondary(a, h)], 0) == 0)
      && (w.Some? ==> InPair(a, a.probe(h).0, Primary(a, h), w.value.0))
      && (w.Some? ==> Copies(a, Written(bs, w), f, i) == Copies(a, bs, f, i) + (if a.InClass(h, f, i) then 1 else 0))
      && (w.Some? ==> Occupied(Written(bs, w)) == Occupied(bs) + 1)
  {
    hide Count, Occupied, TryInsert, Copies, Addressing.InClass;
    var fp := a.probe(h).0;
    TryInsertCount(bs[Primary(a, h)], fp, f);
    TryInsertCount(bs[Secondary(a, h)], fp, f);
    if TryInsert(bs[Primary(a, h)], fp).Some? {
      InsertAtCopies(a, bs, h, Primary(a, h), f, i);
    } else if TryInsert(bs[Secondary(a, h)], fp).Some? {
      InsertAtCopies(a, bs, h, Secondary(a, h), f, i);
    }
  }

  /** Deleting from one of the candidate buckets. */
  lemma DeleteAtCopies(a: Addressing, bs: LaneBuckets, h: Hash, j: nat, f: Fp, i: nat)
    requires a.Valid() && i < BUCKETS_PER_LANE && f != 0 && (j == Primary(a, h) || j == Secondary(a, h))
    requires TryDelete(bs[j], a.probe(h).0).Some?
    ensures var bs' := bs[j := TryDelete(bs[j], a.probe(h).0).value];
      && Copies(a, bs', f, i) == Copies(a, bs, f, i) - (if a.InClass(h, f, i) then 1 else 0)
      && Occupied(bs') == Occupied(bs) - 1
  {
    hide Count, Occupied, TryDelete, Copies;
    var fp := a.probe(h).0;
    var v := TryDelete(bs[j], fp).value;
    TryDeleteCount(bs[j], fp, f);
    TryDeleteCount(bs[j], fp, 0);
    PairSymmetric(a, f, i, Primary(a, h));
    CopiesWrite(a, bs, j, v, f, i);
    OccupiedWrite(bs, j, v);
  }

  lemma DirectDeleteCopies(a: Addressing, bs: LaneBuckets, h: Hash, f: Fp, i: nat)
    requires a.Valid() && i < BUCKETS_PER_LANE && f != 0
    ensures var w := DirectDelete(a, bs, h);
      && (w.None? <==> Copies(a, bs, a.probe(h).0, Primary(a, h)) == 0)
      && (w.Some? ==> InPair(a, a.probe(h).0, Primary(a, h), w.value.0))
      && Copies(a, Written(bs, w), f, i) == Copies(a, bs, f, i) - (if w.Some? && a.InClass(h, f, i) then 1 else 0)
      && Occupied(Written(bs, w)) == Occupied(bs) - (if w.Some? then 1 else 0)
  {
    hide Count, Occupied, TryDelete, Addressing.InClass;
    var fp := a.probe(h).0;
    TryDeleteCount(bs[Primary(a, h)], fp, f);
    TryDeleteCount(bs[Secondary(a, h)], fp, f);
    if TryDelete(bs[Primary(a, h)], fp).Some? {
      DeleteAtCopies(a, bs, h, Primary(a, h), f, i);
    } else if TryDelete(bs[Secondary(a, h)], fp).Some? {
      DeleteAtCopies(a, bs, h, Secondary(a, h), f, i);
    }
  }

  // ---------- eviction and undo ----------

  /** In the middle of an eviction: a fingerprint in hand, where it goes next, and the words overwritten so far. */
  datatype Hand = Hand(lane: LaneBuckets, fp: Fp, bucket: nat, touched: seq<(nat, PackedBucket)>)

  predicate HasRoom(k: Hand)
    requires k.bucket < BUCKETS_PER_LANE
  {
    TryInsert(k.lane[k.bucket], k.fp).Some?
  }

  /** One kick: swap the fingerprint in hand for the one in `slot`, which heads for its other bucket. */
  function Kick(a: Addressing, k: Hand, slot: nat): (k': Hand)
    requires a.Valid() && k.bucket < BUCKETS_PER_LANE && slot < FP_PER_BUCKET
    ensures k'.bucket < BUCKETS_PER_LANE
  {
    var before := k.lane[k.bucket];
    var evicted := Slot(before, slot);
    Hand(k.lane[k.bucket := WithSlot(before, slot, k.fp)], evicted, a.alt(k.bucket, evicted),
         k.touched + [(k.bucket, before)])
  }

  /** After the kicks whose slots the generator drew. */
  function Kicked(a: Addressing, bs: LaneBuckets, fp: Fp, home: nat, slots: seq<nat>): (k: Hand)
    requires a.Valid() && home < BUCKETS_PER_LANE
    requires forall n :: 0 <= n < |slots| ==> slots[n] < FP_PER_BUCKET
    ensures k.bucket < BUCKETS_PER_LANE
  {
    if slots == [] then Hand(bs, fp, home, [])
    else Kick(a, Kicked(a, bs, fp, home, slots[..|slots| - 1]), slots[|slots| - 1])
  }

  /** None of these kicks led to a bucket with room. */
  predicate NoRoom(a: Addressing, bs: LaneBuckets, fp: Fp, home: nat, slots: seq<nat>)
    requires a.Valid() && home < BUCKETS_PER_LANE
    requires forall n :: 0 <= n < |slots| ==> slots[n] < FP_PER_BUCKET
  {
    slots == [] || (NoRoom(a, bs, fp, home, slots[..|slots| - 1]) && !HasRoom(Kicked(a, bs, fp, home, slots)))
  }

  /** The copies of (f, i), the fingerprint in hand included. */
  ghost function CopiesWithHand(a: Addressing, k: Hand, f: Fp, i: nat): nat
    requires a.Valid() && i < BUCKETS_PER_LANE
  {
    Copies(a, k.lane, f, i) + (if f == k.fp && InPair(a, f, i, k.bucket) then 1 else 0)
  }

  lemma KickConserves(a: Addressing, k: Hand, slot: nat, f: Fp, i: nat)
    requires a.Valid() && i < BUCKETS_PER_LANE && k.bucket < BUCKETS_PER_LANE && slot < FP_PER_BUCKET && f != 0
    ensures CopiesWithHand(a, Kick(a, k, slot), f, i) == CopiesWithHand(a, k, f, i)
  {
    hide Count, WithSlot, Slot, Copies;
    var v := WithSlot(k.lane[k.bucket], slot, k.fp);
    CountWithSlot(k.lane[k.bucket], slot, k.fp, f);
    CopiesWrite(a, k.lane, k.bucket, v, f, i);
    PairSymmetric(a, f, i, k.bucket);
  }

  lemma KickKeepsFull(b: PackedBucket, slot: nat, fp: Fp)
    requires slot < FP_PER_BUCKET && Count(b, 0) == 0 && fp != 0
    ensures Slot(b, slot) != 0
    ensures Count(WithSlot(b, slot, fp), 0) == 0
  {
    hide Slot, WithSlot;
    CountWithSlot(b, slot, fp, 0);
  }

  /** The lane before a list of recorded overwrites, undone last write first. */
  function Undo(bs: LaneBuckets, touched: seq<(nat, PackedBucket)>): LaneBuckets
    requires forall k :: 0 <= k < |touched| ==> touched[k].0 < BUCKETS_PER_LANE
    decreases |touched|
  {
    if touched == [] then bs
    else
      var last := touched[|touched| - 1];
      Undo(bs[last.0 := last.1], touched[..|touched| - 1])
  }

  /** Recording the old word and overwriting it is undone, however often a bucket was visited. */
  lemma UndoRecorded(bs: LaneBuckets, touched: seq<(nat, PackedBucket)>, j: nat, v: PackedBucket)
    requires forall k :: 0 <= k < |touched| ==> touched[k].0 < BUCKETS_PER_LANE
    requires j < BUCKETS_PER_LANE
    ensures Undo(bs[j := v], touched + [(j, bs[j])]) == Undo(bs, touched)
  {
    var t := touched + [(j, bs[j])];
    assert t[..|t| - 1] == touched;
    assert bs[j := v][j := bs[j]] == bs;
  }

  function TouchedBuckets(touched: seq<(nat, PackedBucket)>): set<nat> {
    set k | 0 <= k < |touched| :: touched[k].0
  }

  lemma TouchedOneMore(touched: seq<(nat, PackedBucket)>, t: (nat, PackedBucket))
    ensures TouchedBuckets(touched + [t]) >= TouchedBuckets(touched) + {t.0}
  {
    var ts := touched + [t];
    forall k | 0 <= k < |touched| ensures touched[k].0 in TouchedBuckets(ts) { assert ts[k] == touched[k]; }
    assert ts[|touched|].0 == t.0;
  }

  /**
   What every kick keeps: no class has gained or lost a copy, the recorded words undo
   every write, and only recorded buckets differ.
   */
  ghost predicate Kicking(a: Addressing, k0: Hand, k: Hand)
    requires a.Valid()
  {
    && k.fp != 0 && k.bucket < BUCKETS_PER_LANE
    && (forall n :: 0 <= n < |k.touched| ==> k.touched[n].0 < BUCKETS_PER_LANE)
    && Undo(k.lane, k.touched) == k0.lane
    && Occupied(k.lane) == Occupied(k0.lane)
    && (forall i :: 0 <= i < BUCKETS_PER_LANE && i !in TouchedBuckets(k.touched) ==> k.lane[i] == k0.lane[i])
    && (forall f: Fp, i: nat :: f != 0 && i < BUCKETS_PER_LANE ==>
          CopiesWithHand(a, k, f, i) == CopiesWithHand(a, k0, f, i))
  }

  lemma KickStep(a: Addressing, k0: Hand, k: Hand, slot: nat)
    requires a.Valid() && Kicking(a, k0, k)
    requires Count(k.lane[k.bucket], 0) == 0 && slot < FP_PER_BUCKET
    ensures Kicking(a, k0, Kick(a, k, slot))
  {
    hide Slot, WithSlot, Count, Undo, Occupied, TouchedBuckets, CopiesWithHand;
    var before := k.lane[k.bucket];
    var v := WithSlot(before, slot, k.fp);
    KickKeepsFull(before, slot, k.fp);
    OccupiedWrite(k.lane, k.bucket, v);
    UndoRecorded(k.lane, k.touched, k.bucket, v);
    TouchedOneMore(k.touched, (k.bucket, before));
    forall f: Fp, i: nat | f != 0 && i < BUCKETS_PER_LANE
      ensures CopiesWithHand(a, Kick(a, k, slot), f, i) == CopiesWithHand(a, k0, f, i)
    {
      KickConserves(a, k, slot, f, i);
    }
  }

  /** Whatever slots are drawn, the kicks from a full bucket keep every class, and can be undone. */
  lemma {:induction false} KickedKeeps(a: Addressing, bs: LaneBuckets, fp: Fp, home: nat, slots: seq<nat>)
    requires a.Valid() && home < BUCKETS_PER_LANE && fp != 0 && Count(bs[home], 0) == 0
    requires forall n :: 0 <= n < |slots| ==> slots[n] < FP_PER_BUCKET
    requires slots == [] || NoRoom(a, bs, fp, home, slots[..|slots| - 1])
    ensures Kicking(a, Hand(bs, fp, home, []), Kicked(a, bs, fp, home, slots))
  {
    hide Count, Kicking, HasRoom, Kick;
    if slots == [] {
      KickingStart(a, Hand(bs, fp, home, []));
    } else {
      var before := slots[..|slots| - 1];
      var k := Kicked(a, bs, fp, home, before);
      KickedKeeps(a, bs, fp, home, before);
      if before != [] { NoRoomIsFull(a, Hand(bs, fp, home, []), k); }
      KickStep(a, Hand(bs, fp, home, []), k, slots[|slots| - 1]);
    }
  }

  lemma KickingStart(a: Addressing, k: Hand)
    requires a.Valid() && k.fp != 0 && k.bucket < BUCKETS_PER_LANE && k.touched == []
    ensures Kicking(a, k, k)
  {}

  lemma NoRoomIsFull(a: Addressing, k0: Hand, k: Hand)
    requires a.Valid() && Kicking(a, k0, k) && !HasRoom(k)
    ensures Count(k.lane[k.bucket], 0) == 0
  {
    hide Count, Undo, Occupied, CopiesWithHand, TouchedBuckets, TryInsert;
    TryInsertCount(k.lane[k.bucket], k.fp, 0);
  }

  /** The fingerprint in hand placed. */
  function Landed(k: Hand): LaneBuckets
    requires k.bucket < BUCKETS_PER_LANE && HasRoom(k)
  {
    k.lane[k.bucket := TryInsert(k.lane[k.bucket], k.fp).value]
  }

  /** Room found: the lane has one more copy of the class that started. */
  lemma KickLands(a: Addressing, k0: Hand, k: Hand, f: Fp, i: nat)
    requires a.Valid() && Kicking(a, k0, k) && HasRoom(k)
    requires f != 0 && i < BUCKETS_PER_LANE
    ensures Copies(a, Landed(k), f, i) == CopiesWithHand(a, k0, f, i)
    ensures Occupied(Landed(k)) == Occupied(k0.lane) + 1
  {
    hide Count, TryInsert, Undo, Occupied, TouchedBuckets, Copies;
    var before := k.lane[k.bucket];
    var v := TryInsert(before, k.fp).value;
    TryInsertCount(before, k.fp, f);
    TryInsertCount(before, k.fp, 0);
    CopiesWrite(a, k.lane, k.bucket, v, f, i);
    OccupiedWrite(k.lane, k.bucket, v);
    assert CopiesWithHand(a, k, f, i) == CopiesWithHand(a, k0, f, i);
  }
}
