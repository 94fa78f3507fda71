/**
 Queries probe the primary bucket only. This module shows when that is enough: as long
 as every first owner's fingerprint found room in its primary bucket, each bucket holds
 exactly the tracked hashes that live there, so every owned hash hits.
 */
module PrimaryPlacement {
  import opened Wrappers
  import opened CuckooFilter
  import opened Lane
  import opened Ids
  import opened ProducerState
  import opened Insertion
  import opened ProducerInvariants
  import opened FailedInsertions
  import opened Replication
  import CkfProducer
  import opened CkfConsumer
  import opened Overlap

  /** Number of hashes with fingerprint `f` whose primary bucket is `i`. */
  ghost function AtHome(a: Addressing, hashes: set<Hash>, f: Fp, i: nat): nat {
    |set h | h in hashes && a.probe(h).0 == f && a.probe(h).1 == i|
  }

  /** Every bucket holds exactly the tracked hashes that live there. */
  ghost predicate Placed(a: Addressing, s: State)
    requires a.Valid()
  {
    forall f: Fp, i: nat :: f != 0 && i < BUCKETS_PER_LANE ==>
      Count(s.buckets[i], f) == AtHome(a, s.entries.Keys, f, i)
  }

  /** A first owner finds a free slot in its primary bucket. */
  predicate RoomAtHome(a: Addressing, s: State, op: Op)
    requires a.Valid()
  {
    op.Store? && OwnersOf(s, op.hash) == {} ==> FirstMatch(s.buckets[Primary(a, op.hash)], 0).Some?
  }

  /** So it has been for every insertion since the last reset. */
  predicate AllAtHome(a: Addressing, r: Run, k: nat)
    requires a.Valid() && k <= |r.ops| < |r.states|
  {
    k == 0 || r.ops[k - 1].ResetAll? || (AllAtHome(a, r, k - 1) && RoomAtHome(a, r.states[k - 1], r.ops[k - 1]))
  }

  lemma AtHomeAdd(a: Addressing, hashes: set<Hash>, h: Hash, f: Fp, i: nat)
    requires h !in hashes
    ensures AtHome(a, hashes + {h}, f, i) ==
            AtHome(a, hashes, f, i) + (if a.probe(h).0 == f && a.probe(h).1 == i then 1 else 0)
  {
    var before := set x | x in hashes && a.probe(x).0 == f && a.probe(x).1 == i;
    var after := set x | x in hashes + {h} && a.probe(x).0 == f && a.probe(x).1 == i;
    assert after == if a.probe(h).0 == f && a.probe(h).1 == i then before + {h} else before;
  }

  lemma AtHomePositive(a: Addressing, hashes: set<Hash>, h: Hash)
    requires h in hashes
    ensures AtHome(a, hashes, a.probe(h).0, a.probe(h).1) > 0
  {
    hide AtHome;
    AtHomeAdd(a, hashes - {h}, h, a.probe(h).0, a.probe(h).1);
    assert hashes - {h} + {h} == hashes;
  }

  lemma EmptyPlaced(a: Addressing, s: State)
    requires a.Valid() && s == NewState().(pubSeq := s.pubSeq)
    ensures Placed(a, s)
  {
    EmptyBucket();
    hide Count;
    forall f: Fp, i: nat | f != 0 && i < BUCKETS_PER_LANE
      ensures Count(s.buckets[i], f) == AtHome(a, s.entries.Keys, f, i)
    {
      assert (set h | h in s.entries.Keys && a.probe(h).0 == f && a.probe(h).1 == i) == {};
    }
  }

  lemma HomeInsert(a: Addressing, bs: LaneBuckets, h: Hash)
    requires a.Valid() && FirstMatch(bs[Primary(a, h)], 0).Some?
    ensures TryInsert(bs[Primary(a, h)], a.probe(h).0).Some?
    ensures DirectInsert(a, bs, h) == Some((Primary(a, h), TryInsert(bs[Primary(a, h)], a.probe(h).0).value))
  {
    hide Slot, WithSlot, FirstMatch;
  }

  lemma PlacedInsert(a: Addressing, s: State, keys: set<Hash>, h: Hash, ok: bool, s': State)
    requires a.Valid() && h !in keys && InsertedFp(a, s, h, ok, s')
    requires FirstMatch(s.buckets[Primary(a, h)], 0).Some?
    requires forall f: Fp, i: nat :: f != 0 && i < BUCKETS_PER_LANE ==> Count(s.buckets[i], f) == AtHome(a, keys, f, i)
    ensures forall f: Fp, i: nat :: f != 0 && i < BUCKETS_PER_LANE ==>
              Count(s'.buckets[i], f) == AtHome(a, keys + {h}, f, i)
  {
    hide Count, AtHome, FirstMatch, TryInsert, DirectInsert;
    HomeInsert(a, s.buckets, h);
    var p, fp := Primary(a, h), a.probe(h).0;
    forall f: Fp, i: nat | f != 0 && i < BUCKETS_PER_LANE
      ensures Count(s'.buckets[i], f) == AtHome(a, keys + {h}, f, i)
    {
      TryInsertCount(s.buckets[p], fp, f);
      AtHomeAdd(a, keys, h, f, i);
    }
  }

  lemma StoredPlaced(a: Addressing, s: State, h: Hash, b: BackendId, ok: bool, s': State, pairs: set<Pair>)
    requires a.Valid() && Owns(s, pairs) && Placed(a, s) && StoredStep(a, s, h, b, ok, s')
    requires RoomAtHome(a, s, Store(h, b))
    ensures Placed(a, s')
  {
    hide Count, AtHome, FirstMatch, InsertedFp;
    if b !in OwnersOf(s, h) {
      var t := Joined(s, h, b);
      if OwnersOf(s, h) == {} {
        assert h !in s.entries;
        assert t.entries.Keys == s.entries.Keys + {h};
        PlacedInsert(a, t, s.entries.Keys, h, ok, s');
        InsertedFrame(a, t, h, ok, s');
      } else {
        assert t.entries.Keys == s.entries.Keys;
      }
    }
  }

  lemma RemovedPlaced(a: Addressing, s: State, h: Hash, b: BackendId, pairs: set<Pair>)
    requires a.Valid() && Owns(s, pairs) && Placed(a, s)
    ensures Placed(a, RemovedStep(a, s, h, b))
  {
    hide Count, AtHome, TryDelete;
    var s' := RemovedStep(a, s, h, b);
    if b in OwnersOf(s, h) {
      var left := s.entries[h].owners - {b};
      assert |left| == |s.entries[h].owners| - 1;
      if left == {} {
        var p, fp := Primary(a, h), a.probe(h).0;
        AtHomePositive(a, s.entries.Keys, h);
        assert Count(s.buckets[p], fp) > 0;
        TryDeleteCount(s.buckets[p], fp, fp);
        assert s'.buckets == s.buckets[p := TryDelete(s.buckets[p], fp).value];
        assert s.entries.Keys == s'.entries.Keys + {h};
        forall f: Fp, i: nat | f != 0 && i < BUCKETS_PER_LANE
          ensures Count(s'.buckets[i], f) == AtHome(a, s'.entries.Keys, f, i)
        {
          TryDeleteCount(s.buckets[p], fp, f);
          AtHomeAdd(a, s'.entries.Keys, h, f, i);
        }
      } else {
        assert |left| > 0;
        assert s'.entries.Keys == s.entries.Keys;
      }
    }
  }

  lemma {:induction false} RemovedAllPlaced(a: Addressing, s: State, hs: seq<Hash>, b: BackendId, pairs: set<Pair>,
                                            exact: bool)
    requires a.Valid() && Owns(s, pairs) && Counted(a, s, exact) && Placed(a, s)
    ensures Placed(a, RemovedAll(a, s, hs, b))
  {
    hide Counted, Owns, Placed, RemovedStep;
    if hs != [] {
      var n := |hs| - 1;
      RemovedAllPlaced(a, s, hs[..n], b, pairs, exact);
      RemovedAllOwns(a, s, hs[..n], b, pairs, exact);
      RemovedPlaced(a, RemovedAll(a, s, hs[..n], b), hs[n], b, set p | p in pairs && !(p.0 in hs[..n] && p.1 == b));
    }
  }

  lemma StepPlaced(a: Addressing, s: State, op: Op, ok: bool, s': State, pairs: set<Pair>, exact: bool)
    requires a.Valid() && Owns(s, pairs) && Counted(a, s, exact) && Step(a, s, op, ok, s')
    requires op.ResetAll? || (Placed(a, s) && RoomAtHome(a, s, op))
    ensures Placed(a, s')
  {
    hide Counted, Owns, NewState, RemovedAll, RemovedStep;
    match op
    case Store(h, b) =>
      StoredPlaced(a, s, h, b, ok, s', pairs);
    case Remove(h, b) =>
      RemovedPlaced(a, s, h, b, pairs);
    case ClearAll(b) =>
      var hs :| Enumerates(hs, HashesOf(s, b)) && s' == ClearedStep(a, s, hs, b);
      hide ClearedStep;
      ClearIsRemovals(a, s, hs, b, pairs, exact);
      RemovedAllPlaced(a, s, hs, b, pairs, exact);
    case ResetAll =>
      EmptyPlaced(a, s');
    case _ =>
  }

  lemma {:induction false} RunPlaced(a: Addressing, r: Run, k: nat)
    requires a.Valid() && r.Valid(a) && k <= |r.ops| && AllAtHome(a, r, k)
    ensures Placed(a, r.states[k])
  {
    hide Placed, Step, RoomAtHome, Owns, Counted, NewState;
    if k == 0 {
      EmptyPlaced(a, r.states[0]);
    } else {
      if !r.ops[k - 1].ResetAll? { RunPlaced(a, r, k - 1); }
      RunConserves(a, r, k - 1);
      StepAt(a, r, k - 1);
      StepPlaced(a, r.states[k - 1], r.ops[k - 1], r.oks[k - 1], r.states[k], PairsAt(r.ops, k - 1), ExactAt(r, k - 1));
    }
  }

  // ---------- the exact condition ----------

  /** `c` holds what `b` holds and one `fp` more, with no less room to spare. */
  ghost predicate HoldsOneMore(b: PackedBucket, c: PackedBucket, fp: Fp) {
    && Count(b, 0) <= Count(c, 0)
    && forall f: Fp :: f != 0 ==> Count(c, f) == Count(b, f) + Same(f, fp)
  }

  /** Taking the same fingerprints out of both words, one by one, shows that no such words exist. */
  lemma {:induction false} CannotGrow(b: PackedBucket, c: PackedBucket, fp: Fp)
    requires fp != 0
    ensures !HoldsOneMore(b, c, fp)
    decreases 4 - Count(b, 0)
  {
    hide Slot, WithSlot, TryDelete, Count;
    if HoldsOneMore(b, c, fp) {
      if Count(b, 0) >= 4 {
        AllFree(c, fp);
      } else {
        var x := SomeHeld(b);
        assert Count(c, x) == Count(b, x) + Same(x, fp);
        TryDeleteCount(b, x, 0);
        TryDeleteCount(c, x, 0);
        var b', c' := TryDelete(b, x).value, TryDelete(c, x).value;
        forall f: Fp | f != 0 ensures Count(c', f) == Count(b', f) + Same(f, fp) {
          TryDeleteCount(b, x, f);
          TryDeleteCount(c, x, f);
        }
        CannotGrow(b', c', fp);
      }
    }
  }

  lemma AllFree(b: PackedBucket, fp: Fp)
    requires Count(b, 0) >= 4 && fp != 0
    ensures Count(b, fp) == 0
  {
    hide Slot;
  }

  lemma SomeHeld(b: PackedBucket) returns (x: Fp)
    requires Count(b, 0) < 4
    ensures x != 0 && Count(b, x) > 0
  {
    hide Slot;
    x := if Slot(b, 0) != 0 then Slot(b, 0) else if Slot(b, 1) != 0 then Slot(b, 1)
         else if Slot(b, 2) != 0 then Slot(b, 2) else Slot(b, 3);
  }

  /** From a lane where everything is at home, a first owner keeps it so exactly when it finds room at home. */
  lemma StoredPlacedIff(a: Addressing, s: State, h: Hash, b: BackendId, ok: bool, s': State, pairs: set<Pair>)
    requires a.Valid() && Owns(s, pairs) && Placed(a, s) && StoredStep(a, s, h, b, ok, s')
    ensures Placed(a, s') <==> RoomAtHome(a, s, Store(h, b))
  {
    hide Placed, StoredStep, FirstMatch;
    if RoomAtHome(a, s, Store(h, b)) {
      StoredPlaced(a, s, h, b, ok, s', pairs);
    } else {
      NotAllAtHome(a, s, h, b, ok, s', pairs);
    }
  }

  lemma NotAllAtHome(a: Addressing, s: State, h: Hash, b: BackendId, ok: bool, s': State, pairs: set<Pair>)
    requires a.Valid() && Owns(s, pairs) && Placed(a, s) && StoredStep(a, s, h, b, ok, s')
    requires OwnersOf(s, h) == {} && FirstMatch(s.buckets[Primary(a, h)], 0).None?
    ensures !Placed(a, s')
  {
    hide AtHome, FirstMatch, InsertedFp, Count;
    var t, p := Joined(s, h, b), Primary(a, h);
    InsertedFrame(a, t, h, ok, s');
    NotTracked(s, h, pairs);
    assert s'.entries.Keys == s.entries.Keys + {h};
    FullWord(s.buckets[p]);
    if Placed(a, s') {
      forall f: Fp | f != 0 ensures Count(s'.buckets[p], f) == Count(s.buckets[p], f) + Same(f, a.probe(h).0) {
        AtHomeAdd(a, s.entries.Keys, h, f, p);
      }
      CannotGrow(s.buckets[p], s'.buckets[p], a.probe(h).0);
    }
  }

  lemma FullWord(b: PackedBucket)
    requires FirstMatch(b, 0).None?
    ensures Count(b, 0) == 0
  {
    hide Slot;
  }

  /** Everything has been at home after each operation since the start or the last reset. */
  ghost predicate PlacedSince(a: Addressing, r: Run, k: nat)
    requires a.Valid() && k <= |r.ops| < |r.states|
  {
    k == 0 || r.ops[k - 1].ResetAll? || (PlacedSince(a, r, k - 1) && Placed(a, r.states[k]))
  }

  /** That is so exactly when every insertion since then found room at home. */
  lemma {:induction false} PlacedSinceIff(a: Addressing, r: Run, k: nat)
    requires a.Valid() && r.Valid(a) && k <= |r.ops|
    ensures PlacedSince(a, r, k) <==> AllAtHome(a, r, k)
  {
    hide Placed, Step, RoomAtHome, Owns, Counted, NewState, ExactAt, PairsAt;
    if k > 0 && !r.ops[k - 1].ResetAll? {
      PlacedSinceIff(a, r, k - 1);
      if AllAtHome(a, r, k - 1) {
        RunPlaced(a, r, k - 1);
        RunConserves(a, r, k - 1);
        StepAt(a, r, k - 1);
        StepPlacedIff(a, r.states[k - 1], r.ops[k - 1], r.oks[k - 1], r.states[k], PairsAt(r.ops, k - 1),
            ExactAt(r, k - 1));
      }
    }
  }

  lemma StepPlacedIff(a: Addressing, s: State, op: Op, ok: bool, s': State, pairs: set<Pair>, exact: bool)
    requires a.Valid() && Owns(s, pairs) && Counted(a, s, exact) && Placed(a, s) && Step(a, s, op, ok, s') &&
             !op.ResetAll?
    ensures Placed(a, s') <==> RoomAtHome(a, s, op)
  {
    hide Placed, Owns, Counted, StoredStep, RemovedStep, ClearedStep;
    if op.Store? {
      StoredPlacedIff(a, s, op.hash, op.backend, ok, s', pairs);
    } else {
      StepPlaced(a, s, op, ok, s', pairs, exact);
    }
  }

  // ---------- queries ----------

  /** After a run in which every insertion found room at home, every owned hash hits. */
  lemma OwnedHashesHit(a: Addressing, r: Run, k: nat, h: Hash, b: BackendId)
    requires a.Valid() && r.Valid(a) && k <= |r.ops| && AllAtHome(a, r, k)
    requires (h, b) in PairsAt(r.ops, k)
    ensures Hits(a, r.states[k].buckets, h)
  {
    hide Step, Counted, BucketContains, AllAtHome, PairsAt, NewState;
    RunPlaced(a, r, k);
    RunConserves(a, r, k);
    assert b in OwnersOf(r.states[k], h);
    AtHomePositive(a, r.states[k].entries.Keys, h);
    SwarMembership(r.states[k].buckets[Primary(a, h)], a.probe(h).0);
    hide Count, AtHome, FirstMatch;
  }

  /** Some backend holds the hash after `k` operations. */
  ghost predicate Owned(ops: seq<Op>, k: nat, h: Hash)
    requires k <= |ops|
  {
    exists b :: (h, b) in PairsAt(ops, k)
  }

  lemma OwnedBySome(ops: seq<Op>, k: nat, h: Hash, b: BackendId)
    requires k <= |ops| && (h, b) in PairsAt(ops, k)
    ensures Owned(ops, k, h)
  {}

  ghost predicate AllOwned(ops: seq<Op>, k: nat, hashes: seq<Hash>)
    requires k <= |ops|
  {
    forall i :: 0 <= i < |hashes| ==> Owned(ops, k, hashes[i])
  }

  /** One backend holding all the hashes is enough. */
  lemma AllOwnedByOne(ops: seq<Op>, k: nat, hashes: seq<Hash>, b: BackendId)
    requires k <= |ops| && forall i :: 0 <= i < |hashes| ==> (hashes[i], b) in PairsAt(ops, k)
    ensures AllOwned(ops, k, hashes)
  {
    hide PairsAt;
    forall i | 0 <= i < |hashes| ensures Owned(ops, k, hashes[i]) {
      OwnedBySome(ops, k, hashes[i], b);
    }
  }

  /**
   Tokens to overlap, end to end. A producer has run `k` operations, every insertion
   found room at home, and it owns all block hashes of prompt `p`; a lane has applied
   all its publications, the last operation being one, and the last reset, if any, was
   followed by a snapshot. Then a prompt sharing at least `m` whole blocks with `p`
   gets an overlap of at least `m`.
   */
  lemma TokensToOverlap(a: Addressing, r: Run, k: nat, v0: LaneBuckets, start: bool,
                        xxh3: (seq<bv8>, bv64) -> bv64, seed: bv64, size: nat,
                        p: seq<bv32>, hp: seq<Hash>, q: seq<bv32>, hq: seq<Hash>, n: nat, m: nat, overlap: nat)
    requires a.Valid() && r.Valid(a) && 0 < k <= |r.ops| && AllAtHome(a, r, k)
    requires start ==> v0 == EmptyLane()
    requires AlignedAt(r.ops, k, start) && (r.ops[k - 1].TakeSnapshot? || r.ops[k - 1].TakeDelta?)
    requires size > 0 && n <= |p| && n <= |q| && p[..n] == q[..n] && m * size <= n
    requires IsBlockHashes(xxh3, seed, p, size, hp) && IsBlockHashes(xxh3, seed, q, size, hq)
    requires AllOwned(r.ops, k, hp)
    requires IsPrefixOverlap(a, ViewAfter(v0, RunMessages(r, k)), hq, overlap)
    ensures overlap >= m
  {
    hide Step, NewState, AllAtHome, IsBlockHashes, PairsAt, Hits, RunMessages, ViewAfter, AlignedAt;
    ReplicaFollows(a, r, k, v0, start);
    SharedPrefixSharesHashes(xxh3, seed, size, p, hp, q, hq, n, m);
    if overlap < m {
      assert overlap < |hq| && overlap < |hp|;
      assert hq[overlap] == hq[..m][overlap] == hp[..m][overlap] == hp[overlap];
      assert Owned(r.ops, k, hp[overlap]);
      var b :| (hp[overlap], b) in PairsAt(r.ops, k);
      OwnedHashesHit(a, r, k, hp[overlap], b);
    }
  }

  /**
   The same of live objects: a consumer lane has received, after whatever it received
   before, all publications of a producer's run so far.
   */
  lemma LiveOverlap(producer: CkfProducer.CkfProducer, consumer: CkfConsumer, lane: nat, before: seq<Publication>,
                    xxh3: (seq<bv8>, bv64) -> bv64, seed: bv64, size: nat,
                    p: seq<bv32>, hp: seq<Hash>, q: seq<bv32>, hq: seq<Hash>, n: nat, m: nat, overlap: nat)
    requires producer.Valid() && consumer.Valid() && producer.addr == consumer.addr && lane < LANE_COUNT
    requires var k := |producer.run.ops|;
      && 0 < k && AllAtHome(producer.addr, producer.run, k)
      && consumer.received[lane] == before + RunMessages(producer.run, k)
      && AlignedAt(producer.run.ops, k, before == [])
      && (producer.run.ops[k - 1].TakeSnapshot? || producer.run.ops[k - 1].TakeDelta?)
    requires AllOwned(producer.run.ops, |producer.run.ops|, hp)
    requires size > 0 && n <= |p| && n <= |q| && p[..n] == q[..n] && m * size <= n
    requires IsBlockHashes(xxh3, seed, p, size, hp) && IsBlockHashes(xxh3, seed, q, size, hq)
    requires IsPrefixOverlap(consumer.addr, consumer.View(lane), hq, overlap)
    ensures overlap >= m
  {
    hide Step, NewState, AllAtHome, IsBlockHashes, AllOwned, IsPrefixOverlap, RunMessages, AlignedAt;
    var r := producer.run;
    var v0 := ViewAfter(EmptyLane(), before);
    ViewAfterAppend(EmptyLane(), before, RunMessages(r, |r.ops|));
    assert consumer.View(lane) == ViewAfter(v0, RunMessages(r, |r.ops|));
    ViewAfterNothing(EmptyLane());
    hide ViewAfter;
    TokensToOverlap(producer.addr, r, |r.ops|, v0, before == [], xxh3, seed, size, p, hp, q, hq, n, m, overlap);
  }

  /**
   A first owner that lands in one of its candidate buckets directly, or fails, hits
   exactly when its primary bucket has room or already holds its fingerprint.
   */
  lemma StoredHitsIff(a: Addressing, s: State, h: Hash, b: BackendId, ok: bool, s': State)
    requires a.Valid() && OwnersOf(s, h) == {} && StoredStep(a, s, h, b, ok, s')
    requires DirectInsert(a, s.buckets, h).Some? || !ok
    ensures b in OwnersOf(s', h)
    ensures Hits(a, s'.buckets, h) <==>
            Count(s.buckets[Primary(a, h)], 0) > 0 || Count(s.buckets[Primary(a, h)], a.probe(h).0) > 0
  {
    hide Count, TryInsert, BucketContains, FirstMatch, EvictedFp;
    var fp := a.probe(h).0;
    InsertionAddsOne(a, Joined(s, h, b), h, ok, s');
    TryInsertCount(s.buckets[Primary(a, h)], fp, fp);
    TryInsertCount(s.buckets[Secondary(a, h)], fp, fp);
    DirectInsertCopies(a, s.buckets, h, 1, 0);
    SwarMembership(s'.buckets[Primary(a, h)], fp);
    hide Copies, Occupied, OneMoreCopy, MarksChanges;
  }
}
