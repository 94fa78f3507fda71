/**
 The CKF producer (ckf_producer.rs). The ghost field `run` records every operation
 since construction, so the results of ProducerInvariants and Replication about runs
 hold of every live producer.
 */
module CkfProducer {
  import opened Arithmetic
  import opened Wrappers
  import opened CuckooFilter
  import opened Lane
  import opened Ids
  import opened ProducerState
  import opened Insertion
  import opened EventEffects

  class CkfProducer {
    const addr: Addressing
    const buckets: array<PackedBucket>
    var numItems: nat
    var dirty: set<nat>
    var pubSeq: nat
    var entries: map<Hash, HashEntry>
    var workers: map<BackendId, set<Hash>>
    ghost var run: Run

    ghost predicate Shaped()
      reads this
    {
      && addr.Valid()
      && buckets.Length == BUCKETS_PER_LANE
      && forall i :: i in dirty ==> i < BUCKETS_PER_LANE
    }

    function State(): State
      reads this, buckets
      requires buckets.Length == BUCKETS_PER_LANE
    {
      ProducerState.State(buckets[..], numItems, dirty, pubSeq, entries, workers)
    }

    ghost predicate Valid()
      reads this, buckets
    {
      Shaped() && run.EndsIn(addr, State())
    }

    constructor (addr: Addressing)
      requires addr.Valid()
      ensures Valid() && fresh(buckets) && this.addr == addr
      ensures State() == NewState() && run.ops == []
    {
      this.addr := addr;
      buckets := new PackedBucket[BUCKETS_PER_LANE](_ => 0);
      numItems, dirty, pubSeq, entries, workers := 0, {}, 0, map[], map[];
      run := Run([], [], [NewState()]);
      new;
      assert buckets[..] == EmptyLane();
    }

    /** The next draw of the generator: any 64-bit value. */
    method NextRandom() returns (z: nat)
      ensures z < U64
    {
      var draw: int := *;
      z := draw % U64;
    }

    /** Cuckoo insertion: the two candidate buckets first, then eviction. */
    method InsertFingerprint(hash: Hash) returns (ok: bool)
      requires Shaped()
      modifies this`numItems, this`dirty, buckets
      ensures Shaped()
      ensures InsertedFp(addr, old(State()), hash, ok, State())
    {
      var fp := addr.probe(hash).0;
      var bucketA := addr.probe(hash).1;
      var bucketB := addr.alt(bucketA, fp);
      hide TryInsert, EvictedFp;
      match TryInsert(buckets[bucketA], fp) {
        case Some(word) =>
          buckets[bucketA] := word;
          dirty := dirty + {bucketA};
          numItems := numItems + 1;
          return true;
        case None =>
      }
      match TryInsert(buckets[bucketB], fp) {
        case Some(word) =>
          buckets[bucketB] := word;
          dirty := dirty + {bucketB};
          numItems := numItems + 1;
          return true;
        case None =>
      }
      ghost var home, slots;
      ok, home, slots := Evict(hash);
    }

    /** The eviction loop: both candidate buckets of `hash` are full. */
    method Evict(hash: Hash) returns (ok: bool, ghost home: nat, ghost slots: seq<nat>)
      requires Shaped()
      requires DirectInsert(addr, State().buckets, hash).None?
      modifies this`numItems, this`dirty, buckets
      ensures Shaped()
      ensures EvictedFp(addr, old(State()), hash, home, slots, ok, State())
    {
      hide TryInsert, Kick, Chain, EvictedFp, DirectInsert, Landed, Undo;
      ghost var s := State();
      var fp := addr.probe(hash).0;
      var draw := NextRandom();
      var bucket: nat := if draw % 2 == 0 then addr.probe(hash).1 else addr.alt(addr.probe(hash).1, fp);
      var touched: seq<(nat, PackedBucket)> := [];
      home, slots := bucket, [];
      ChainStart(addr, s, hash, home);
      for kicks := 0 to MAX_KICKS
        invariant Shaped() && bucket < BUCKETS_PER_LANE && |slots| == kicks
        invariant State() == s.(buckets := buckets[..])
        invariant Chain(addr, s, hash, home, slots, Hand(buckets[..], fp, bucket, touched))
      {
        ghost var before := Hand(buckets[..], fp, bucket, touched);
        ghost var slot;
        fp, bucket, touched, slot := KickOnce(fp, bucket, touched);
        ghost var slotsBefore := slots;
        slots := slots + [slot];
        if TryInsert(buckets[bucket], fp).Some? {
          ChainInRange(addr, s, hash, home, slotsBefore, before, slot);
          Land(fp, bucket, touched);
          ChainLands(addr, s, hash, home, slotsBefore, before, slot, State());
          return true, home, slots;
        }
        ChainNext(addr, s, hash, home, slotsBefore, before, slot);
      }
      ChainGivesUp(addr, s, hash, home, slots, Hand(buckets[..], fp, bucket, touched));
      RollBack(touched);
      return false, home, slots;
    }

    /** Swap the fingerprint in hand for a randomly chosen one and head for that one's other bucket. */
    method KickOnce(fp: Fp, bucket: nat, touched: seq<(nat, PackedBucket)>)
      returns (nextFp: Fp, nextBucket: nat, touched': seq<(nat, PackedBucket)>, ghost slot: nat)
      requires Shaped() && bucket < BUCKETS_PER_LANE
      modifies buckets
      ensures slot < FP_PER_BUCKET && nextBucket < BUCKETS_PER_LANE
      ensures Hand(buckets[..], nextFp, nextBucket, touched') ==
              Kick(addr, Hand(old(buckets[..]), fp, bucket, touched), slot)
    {
      hide Slot, WithSlot;
      var before := buckets[bucket];
      var draw := NextRandom();
      slot := draw % 4;
      var slotIdx := draw % 4;
      buckets[bucket] := WithSlot(before, slotIdx, fp);
      nextFp := Slot(before, slotIdx);
      nextBucket := addr.alt(bucket, nextFp);
      touched' := touched + [(bucket, before)];
    }

    /** Room found: place the fingerprint in hand and mark every bucket of the chain dirty. */
    method Land(fp: Fp, bucket: nat, touched: seq<(nat, PackedBucket)>)
      requires Shaped() && bucket < BUCKETS_PER_LANE && TryInsert(buckets[bucket], fp).Some?
      requires forall n :: 0 <= n < |touched| ==> touched[n].0 < BUCKETS_PER_LANE
      modifies this`numItems, this`dirty, buckets
      ensures Shaped()
      ensures State() == old(State()).(buckets := Landed(Hand(old(buckets[..]), fp, bucket, touched)),
                                       dirty := old(dirty) + {bucket} + TouchedBuckets(touched),
                                       numItems := old(numItems) + 1)
    {
      hide TryInsert;
      var word := TryInsert(buckets[bucket], fp).value;
      buckets[bucket] := word;
      dirty := dirty + {bucket} + TouchedBuckets(touched);
      numItems := numItems + 1;
    }

    /** Restore the recorded words, last write first. */
    method RollBack(touched: seq<(nat, PackedBucket)>)
      requires Shaped()
      requires forall k :: 0 <= k < |touched| ==> touched[k].0 < BUCKETS_PER_LANE
      modifies buckets
      ensures buckets[..] == Undo(old(buckets[..]), touched)
    {
      var k := |touched|;
      assert touched[..k] == touched;
      while k > 0
        invariant 0 <= k <= |touched|
        invariant Undo(buckets[..], touched[..k]) == Undo(old(buckets[..]), touched)
      {
        k := k - 1;
        ghost var was := buckets[..];
        buckets[touched[k].0] := touched[k].1;
        assert buckets[..] == was[touched[k].0 := touched[k].1];
        assert touched[..k + 1][..k] == touched[..k];
      }
    }

    method DeleteFingerprint(hash: Hash)
      requires Shaped()
      modifies this`numItems, this`dirty, buckets
      ensures Shaped()
      ensures State() == DeletedFp(addr, old(State()), hash)
    {
      var fp := addr.probe(hash).0;
      var bucketA := addr.probe(hash).1;
      var bucketB := addr.alt(bucketA, fp);
      hide TryDelete;
      match TryDelete(buckets[bucketA], fp) {
        case Some(word) =>
          buckets[bucketA] := word;
          dirty := dirty + {bucketA};
          numItems := SaturatingDec(numItems);
        case None =>
          match TryDelete(buckets[bucketB], fp) {
            case Some(word) =>
              buckets[bucketB] := word;
              dirty := dirty + {bucketB};
              numItems := SaturatingDec(numItems);
            case None =>
          }
      }
    }

    /** Drop one owner of a hash, and the fingerprint with the last one. */
    method ReleaseOwner(hash: Hash, worker: BackendId)
      requires Shaped()
      modifies this`numItems, this`dirty, this`entries, buckets
      ensures Shaped()
      ensures State() == Released(addr, old(State()), hash, worker)
    {
      hide DeletedFp;
      if hash in entries {
        var entry := HashEntry(SaturatingDec(entries[hash].refcount), entries[hash].owners - {worker});
        if entry.refcount == 0 {
          DeleteFingerprint(hash);
          entries := entries - {hash};
        } else {
          entries := entries[hash := entry];
        }
      }
    }

    /** Record one finished operation. */
    ghost method Record(op: Op, ok: bool, s: State)
      requires Shaped() && run.EndsIn(addr, s) && Step(addr, s, op, ok, State())
      modifies this`run
      ensures Valid()
      ensures run == old(run).Then(op, ok, State())
    {
      hide Step, Run.EndsIn, Run.Then;
      RunThen(addr, run, s, op, ok, State());
      run := run.Then(op, ok, State());
    }

    /** Stored: the first owner inserts the fingerprint, later owners only join; `placed` is false on a full lane. */
    method ApplyStored(hash: Hash, worker: BackendId) returns (placed: bool)
      requires Valid()
      modifies this, buckets
      ensures Valid()
      ensures Step(addr, old(State()), Store(hash, worker), placed, State())
      ensures run == old(run).Then(Store(hash, worker), placed, State())
    {
      hide InsertedFp, Run.EndsIn;
      ghost var s := State();
      var entry := if hash in entries then entries[hash] else HashEntry(0, {});
      var firstOwner := entry.owners == {};
      placed := true;
      if worker !in entry.owners {
        entries := entries[hash := HashEntry(entry.refcount + 1, entry.owners + {worker})];
        workers := workers[worker := (if worker in workers then workers[worker] else {}) + {hash}];
        if firstOwner {
          placed := InsertFingerprint(hash);
        }
      }
      Record(Store(hash, worker), placed, s);
    }

    method ApplyRemoved(hash: Hash, worker: BackendId)
      requires Valid()
      modifies this, buckets
      ensures Valid()
      ensures State() == RemovedStep(addr, old(State()), hash, worker)
      ensures run == old(run).Then(Remove(hash, worker), true, State())
    {
      hide Released, Run.EndsIn;
      ghost var s := State();
      if hash in entries && worker in entries[hash].owners {
        if worker in workers {
          workers := workers[worker := workers[worker] - {hash}];
        }
        ReleaseOwner(hash, worker);
      }
      Record(Remove(hash, worker), true, s);
    }

    /** Clear: release every hash of the worker, in the unspecified order of a hash set. */
    method ApplyClear(worker: BackendId)
      requires Valid()
      modifies this, buckets
      ensures Valid()
      ensures Step(addr, old(State()), ClearAll(worker), true, State())
      ensures run == old(run).Then(ClearAll(worker), true, State())
    {
      hide Released, Run.EndsIn;
      ghost var s := State();
      var hashes := if worker in workers then workers[worker] else {};
      workers := workers - {worker};
      ghost var s0 := State();
      ghost var done: seq<Hash> := [];
      var rest := hashes;
      while rest != {}
        invariant Shaped() && run == old(run) && rest <= hashes
        invariant Enumerates(done, hashes - rest)
        invariant State() == ReleasedAll(addr, s0, done, worker)
      {
        var hash :| hash in rest;
        ReleaseOwner(hash, worker);
        rest := rest - {hash};
        ReleasedAllNext(addr, s0, done, hash, worker);
        done := done + [hash];
      }
      assert hashes - rest == HashesOf(s, worker);
      assert Enumerates(done, HashesOf(s, worker)) && State() == ClearedStep(addr, s, done, worker);
      Record(ClearAll(worker), true, s);
    }

    method ResetInternal()
      requires Valid()
      modifies this, buckets
      ensures Valid()
      ensures State() == ResetState(old(State()))
      ensures run == old(run).Then(ResetAll, true, State())
    {
      hide Run.EndsIn;
      ghost var s := State();
      for i := 0 to buckets.Length
        modifies buckets
        invariant forall k :: 0 <= k < i ==> buckets[k] == 0
      {
        buckets[i] := 0;
      }
      assert buckets[..] == EmptyLane();
      numItems, dirty, entries, workers := 0, {}, map[], map[];
      Record(ResetAll, true, s);
    }

    /** Apply an event on behalf of a backend: its operations, one after the other. */
    method ApplyEvent(event: KvCacheEvent, backend: BackendId)
      requires Valid()
      modifies this, buckets
      ensures Valid()
      ensures run.Extends(old(run), OpsOf(event, backend))
      // what the event does to ownership
      ensures event.Stored? ==> forall h, b ::
                b in OwnersOf(State(), h) <==>
                b in OwnersOf(old(State()), h) || (h in event.blockHashes && b == backend)
      ensures event.Removed? ==> forall h, b ::
                b in OwnersOf(State(), h) <==>
                b in OwnersOf(old(State()), h) && !(h in event.blockHashes && b == backend)
      ensures event.Clear? ==> forall h, b ::
                b in OwnersOf(State(), h) <==> b in OwnersOf(old(State()), h) && b != backend
      ensures event.Reset? ==> forall h :: OwnersOf(State(), h) == {}
      // what it does to what is yet to be published
      ensures !event.Reset? ==> MarksChanges(old(State()), State())
      ensures event.Reset? ==> dirty == {} && buckets[..] == EmptyLane()
      ensures pubSeq == old(pubSeq)
    {
      hide Run.EndsIn, Run.Extends, Run.Then, Step, RemovedStep, ResetState, Addressing.Valid, OwnersOf, MarksChanges;
      ghost var r0, s0 := run, State();
      ghost var ops := OpsOf(event, backend);
      RunExtendsItself(r0);
      match event {
        case Stored(hashes) =>
          for i := 0 to |hashes|
            invariant Valid() && run.Extends(r0, ops[..i])
          {
            ghost var before := run;
            var placed := ApplyStored(hashes[i], backend);
            ExtendsThen(before, r0, ops[..i], ops[i], placed, State());
            assert ops[..i] + [ops[i]] == ops[..i + 1];
          }
          assert ops[..|hashes|] == ops;
        case Removed(hashes) =>
          for i := 0 to |hashes|
            invariant Valid() && run.Extends(r0, ops[..i])
          {
            ghost var before := run;
            ApplyRemoved(hashes[i], backend);
            ExtendsThen(before, r0, ops[..i], ops[i], true, State());
            assert ops[..i] + [ops[i]] == ops[..i + 1];
          }
          assert ops[..|hashes|] == ops;
        case Clear =>
          ApplyClear(backend);
          assert ops == [] + [ClearAll(backend)];
          ExtendsThen(r0, r0, [], ClearAll(backend), true, State());
        case Reset =>
          ResetInternal();
          assert ops == [] + [ResetAll];
          ExtendsThen(r0, r0, [], ResetAll, true, State());
      }
      EventOutcome(addr, r0, s0, run, State(), event, backend);
    }

    method Snapshot() returns (snapshot: Publication)
      requires Valid()
      modifies this
      ensures Valid()
      ensures State() == Published(old(State())) && [snapshot] == Messages(old(State()), TakeSnapshot)
      ensures run == old(run).Then(TakeSnapshot, true, State())
    {
      hide Run.EndsIn;
      ghost var s := State();
      pubSeq := (pubSeq + 1) % U64;
      dirty := {};
      snapshot := CkfSnapshot(pubSeq, buckets[..]);
      Record(TakeSnapshot, true, s);
    }

    /** The dirty buckets in index order, or nothing when no bucket is dirty. */
    method Delta() returns (delta: Option<Publication>)
      requires Valid()
      modifies this
      ensures Valid()
      ensures Step(addr, old(State()), TakeDelta, true, State())
      ensures (if delta.Some? then [delta.value] else []) == Messages(old(State()), TakeDelta)
      ensures run == old(run).Then(TakeDelta, true, State())
    {
      hide Run.EndsIn, DirtyFrom;
      ghost var s := State();
      delta := None;
      if dirty != {} {
        var prev := pubSeq;
        var changed := CollectDirty();
        pubSeq := (pubSeq + 1) % U64;
        dirty := {};
        delta := Some(CkfDelta(pubSeq, prev, changed));
      }
      Record(TakeDelta, true, s);
    }

    method CollectDirty() returns (changed: seq<(nat, PackedBucket)>)
      requires Shaped()
      ensures changed == DirtyFrom(buckets[..], dirty, 0)
    {
      hide DirtyFrom, Addressing.Valid;
      changed := [];
      var rest := dirty;
      ghost var lo := 0;
      while rest != {}
        invariant rest <= dirty && 0 <= lo <= BUCKETS_PER_LANE
        invariant forall i :: i in dirty ==> (i in rest <==> lo <= i)
        invariant changed + DirtyFrom(buckets[..], dirty, lo) == DirtyFrom(buckets[..], dirty, 0)
      {
        ghost var least := SmallestExists(rest);
        var i :| i in rest && forall j :: j in rest ==> i <= j;
        DirtyFromSkips(buckets[..], dirty, lo, i);
        assert changed + ([(i, buckets[i])] + DirtyFrom(buckets[..], dirty, i + 1)) ==
               (changed + [(i, buckets[i])]) + DirtyFrom(buckets[..], dirty, i + 1);
        changed := changed + [(i, buckets[i])];
        rest := rest - {i};
        lo := i + 1;
      }
      DirtyFromSkips(buckets[..], dirty, lo, BUCKETS_PER_LANE);
      NoBucketsLeft(buckets[..], dirty);
    }
  }

  lemma RunExtendsItself(r: Run)
    ensures r.Extends(r, [])
  {}

  lemma ReleasedAllNext(a: Addressing, s: State, hs: seq<Hash>, h: Hash, b: BackendId)
    requires a.Valid()
    ensures ReleasedAll(a, s, hs + [h], b) == Released(a, ReleasedAll(a, s, hs, b), h, b)
  {
    hide Released;
    assert (hs + [h])[..|hs|] == hs;
  }

  lemma {:induction false} SmallestExists(s: set<nat>) returns (least: nat)
    requires s != {}
    ensures least in s && forall j :: j in s ==> least <= j
  {
    least :| least in s;
    var others := s - {least};
    if others != {} {
      var other := SmallestExists(others);
      assert s == others + {least};
      if other < least { least := other; }
    } else {
      assert s == {least};
    }
  }

  lemma NoBucketsLeft(bs: LaneBuckets, dirty: set<nat>)
    ensures DirtyFrom(bs, dirty, BUCKETS_PER_LANE) == []
  {}

  lemma {:induction false} DirtyFromSkips(bs: LaneBuckets, dirty: set<nat>, lo: nat, hi: nat)
    requires lo <= hi <= BUCKETS_PER_LANE
    requires forall i :: lo <= i < hi ==> i !in dirty
    ensures DirtyFrom(bs, dirty, lo) == DirtyFrom(bs, dirty, hi)
    ensures hi < BUCKETS_PER_LANE && hi in dirty ==>
              DirtyFrom(bs, dirty, lo) == [(hi, bs[hi])] + DirtyFrom(bs, dirty, hi + 1)
    decreases hi - lo
  {
    if lo < hi { DirtyFromSkips(bs, dirty, lo + 1, hi); }
  }

  /** An eviction for `hash` that started from `s` and has found no room so far. */
  ghost predicate Chain(a: Addressing, s: State, hash: Hash, home: nat, slots: seq<nat>, k: Hand)
    requires a.Valid()
  {
    && DirectInsert(a, s.buckets, hash).None?
    && (home == Primary(a, hash) || home == Secondary(a, hash))
    && (forall n :: 0 <= n < |slots| ==> slots[n] < FP_PER_BUCKET)
    && k == Kicked(a, s.buckets, a.probe(hash).0, home, slots)
    && NoRoom(a, s.buckets, a.probe(hash).0, home, slots)
  }

  lemma ChainStart(a: Addressing, s: State, hash: Hash, home: nat)
    requires a.Valid() && DirectInsert(a, s.buckets, hash).None?
    requires home == Primary(a, hash) || home == Secondary(a, hash)
    ensures Chain(a, s, hash, home, [], Hand(s.buckets, a.probe(hash).0, home, []))
  {
    hide DirectInsert;
  }

  /** One more slot drawn: the hand moves on, and the kicks before it found no room. */
  lemma OneMoreSlot(a: Addressing, s: State, hash: Hash, home: nat, slots: seq<nat>, k: Hand, slot: nat)
    requires a.Valid() && Chain(a, s, hash, home, slots, k) && slot < FP_PER_BUCKET
    ensures var fp, more := a.probe(hash).0, slots + [slot];
      && k.bucket < BUCKETS_PER_LANE
      && more[..|more| - 1] == slots
      && Kicked(a, s.buckets, fp, home, more) == Kick(a, k, slot)
      && (NoRoom(a, s.buckets, fp, home, more) <==> !HasRoom(Kick(a, k, slot)))
  {
    hide DirectInsert, Kick, HasRoom;
    assert (slots + [slot])[..|slots|] == slots;
  }

  lemma ChainNext(a: Addressing, s: State, hash: Hash, home: nat, slots: seq<nat>, k: Hand, slot: nat)
    requires a.Valid() && Chain(a, s, hash, home, slots, k)
    requires slot < FP_PER_BUCKET && k.bucket < BUCKETS_PER_LANE && !HasRoom(Kick(a, k, slot))
    ensures Chain(a, s, hash, home, slots + [slot], Kick(a, k, slot))
  {
    hide DirectInsert, Kick, HasRoom, Kicked, NoRoom;
    OneMoreSlot(a, s, hash, home, slots, k, slot);
  }

  /** The recorded overwrites are in range and undo the kicks. */
  lemma KicksUndone(a: Addressing, bs: LaneBuckets, hash: Hash, home: nat, slots: seq<nat>)
    requires a.Valid() && DirectInsert(a, bs, hash).None?
    requires home == Primary(a, hash) || home == Secondary(a, hash)
    requires forall n :: 0 <= n < |slots| ==> slots[n] < FP_PER_BUCKET
    requires slots == [] || NoRoom(a, bs, a.probe(hash).0, home, slots[..|slots| - 1])
    ensures var k := Kicked(a, bs, a.probe(hash).0, home, slots);
      && (forall n :: 0 <= n < |k.touched| ==> k.touched[n].0 < BUCKETS_PER_LANE)
      && Undo(k.lane, k.touched) == bs
  {
    hide Kicked, Undo, Occupied, CopiesWithHand, Count, TouchedBuckets, NoRoom, DirectInsert;
    CandidatesFull(a, bs, hash);
    KickedKeeps(a, bs, a.probe(hash).0, home, slots);
  }

  lemma ChainInRange(a: Addressing, s: State, hash: Hash, home: nat, slots: seq<nat>, k: Hand, slot: nat)
    requires a.Valid() && Chain(a, s, hash, home, slots, k)
    requires slot < FP_PER_BUCKET && k.bucket < BUCKETS_PER_LANE
    ensures var touched := Kick(a, k, slot).touched;
      forall n :: 0 <= n < |touched| ==> touched[n].0 < BUCKETS_PER_LANE
  {
    hide DirectInsert, Kick, HasRoom, Kicked, NoRoom, Undo;
    OneMoreSlot(a, s, hash, home, slots, k, slot);
    KicksUndone(a, s.buckets, hash, home, slots + [slot]);
  }

  lemma ChainLands(a: Addressing, s: State, hash: Hash, home: nat, slots: seq<nat>, k: Hand, slot: nat, s': State)
    requires a.Valid() && Chain(a, s, hash, home, slots, k)
    requires slot < FP_PER_BUCKET && |slots| < MAX_KICKS && k.bucket < BUCKETS_PER_LANE && HasRoom(Kick(a, k, slot))
    requires var k' := Kick(a, k, slot);
      s' == s.(buckets := Landed(k'), dirty := s.dirty + {k'.bucket} + TouchedBuckets(k'.touched),
               numItems := s.numItems + 1)
    ensures EvictedFp(a, s, hash, home, slots + [slot], true, s')
  {
    hide DirectInsert, Kick, HasRoom, Kicked, NoRoom, Landed, TouchedBuckets;
    OneMoreSlot(a, s, hash, home, slots, k, slot);
  }

  lemma ChainGivesUp(a: Addressing, s: State, hash: Hash, home: nat, slots: seq<nat>, k: Hand)
    requires a.Valid() && Chain(a, s, hash, home, slots, k) && |slots| == MAX_KICKS
    ensures forall n :: 0 <= n < |k.touched| ==> k.touched[n].0 < BUCKETS_PER_LANE
    ensures Undo(k.lane, k.touched) == s.buckets
    ensures EvictedFp(a, s, hash, home, slots, false, s)
  {
    hide DirectInsert, HasRoom, Kicked, Undo, Landed, TouchedBuckets;
    KicksUndone(a, s.buckets, hash, home, slots);
  }
}
