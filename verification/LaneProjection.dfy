/**
 What a run of KV events leaves in one lane of the local projection (local_ckf.rs,
 kv_index.rs): direct inserts and deletes with no record of what is already there,
 against the set of hashes the backend holds.
 */
module LaneProjection {
  import opened CuckooFilter
  import opened Lane
  import opened Ids
  import opened ProducerState
  import opened ProducerInvariants
  import opened FailedInsertions

  datatype LaneOp = Put(hash: Hash) | Take(hash: Hash) | Wipe

  /** The lane operations an event amounts to, in order. */
  function EventOps(event: KvCacheEvent): (ops: seq<LaneOp>) {
    match event
    case Stored(hs) => seq(|hs|, i requires 0 <= i < |hs| => Put(hs[i]))
    case Removed(hs) => seq(|hs|, i requires 0 <= i < |hs| => Take(hs[i]))
    case Clear => [Wipe]
    case Reset => [Wipe]
  }

  function Moved(a: Addressing, view: LaneBuckets, op: LaneOp): LaneBuckets
    requires a.Valid()
  {
    match op
    case Put(h) => Written(view, DirectInsert(a, view, h))
    case Take(h) => Written(view, DirectDelete(a, view, h))
    case Wipe => EmptyLane()
  }

  /** A lane after a list of operations. */
  function Projected(a: Addressing, view: LaneBuckets, ops: seq<LaneOp>): LaneBuckets
    requires a.Valid()
  {
    if ops == [] then view
    else Moved(a, Projected(a, view, ops[..|ops| - 1]), ops[|ops| - 1])
  }

  lemma ProjectedNext(a: Addressing, view: LaneBuckets, ops: seq<LaneOp>, op: LaneOp)
    requires a.Valid()
    ensures Projected(a, view, ops + [op]) == Moved(a, Projected(a, view, ops), op)
  {
    hide Moved;
    assert (ops + [op])[..|ops|] == ops;
  }

  lemma {:induction false} ProjectedAppend(a: Addressing, view: LaneBuckets, ops: seq<LaneOp>, more: seq<LaneOp>)
    requires a.Valid()
    ensures Projected(a, view, ops + more) == Projected(a, Projected(a, view, ops), more)
  {
    hide Moved;
    if more == [] {
      assert ops + more == ops;
    } else {
      var n := |more| - 1;
      ProjectedAppend(a, view, ops, more[..n]);
      assert ops + more == (ops + more[..n]) + [more[n]];
      ProjectedNext(a, view, ops + more[..n], more[n]);
    }
  }

  lemma ProjectedNone(a: Addressing, view: LaneBuckets)
    requires a.Valid()
    ensures Projected(a, view, []) == view
  {}

  lemma ProjectedWipe(a: Addressing, view: LaneBuckets)
    requires a.Valid()
    ensures Projected(a, view, [Wipe]) == EmptyLane()
  {}

  // ---------- against what the backend holds ----------

  function HeldAfter(held: set<Hash>, op: LaneOp): set<Hash> {
    match op
    case Put(h) => held + {h}
    case Take(h) => held - {h}
    case Wipe => {}
  }

  /** The hashes the backend holds after the operations, having held none before. */
  function Held(ops: seq<LaneOp>): set<Hash> {
    if ops == [] then {} else HeldAfter(Held(ops[..|ops| - 1]), ops[|ops| - 1])
  }

  /** What an event does to the held hashes: Stored adds its own, Removed takes its own away, the others take all. */
  lemma {:induction false} HeldStored(ops: seq<LaneOp>, hs: seq<Hash>, h: Hash, k: nat)
    requires k <= |hs|
    ensures h in Held(ops + EventOps(Stored(hs))[..k]) <==> h in Held(ops) || h in hs[..k]
  {
    var all := ops + EventOps(Stored(hs))[..k];
    if k == 0 {
      assert all == ops;
    } else {
      HeldStored(ops, hs, h, k - 1);
      assert all[..|all| - 1] == ops + EventOps(Stored(hs))[..k - 1];
    }
  }

  lemma {:induction false} HeldRemoved(ops: seq<LaneOp>, hs: seq<Hash>, h: Hash, k: nat)
    requires k <= |hs|
    ensures h in Held(ops + EventOps(Removed(hs))[..k]) <==> h in Held(ops) && h !in hs[..k]
  {
    var all := ops + EventOps(Removed(hs))[..k];
    if k == 0 {
      assert all == ops;
    } else {
      HeldRemoved(ops, hs, h, k - 1);
      assert all[..|all| - 1] == ops + EventOps(Removed(hs))[..k - 1];
    }
  }

  lemma HeldAfterEvent(ops: seq<LaneOp>, event: KvCacheEvent, h: Hash)
    ensures event.Stored? ==> (h in Held(ops + EventOps(event)) <==> h in Held(ops) || h in event.blockHashes)
    ensures event.Removed? ==> (h in Held(ops + EventOps(event)) <==> h in Held(ops) && h !in event.blockHashes)
    ensures event.Clear? || event.Reset? ==> Held(ops + EventOps(event)) == {}
  {
    match event
    case Stored(hs) =>
      HeldStored(ops, hs, h, |hs|);
      assert EventOps(event)[..|hs|] == EventOps(event) && hs[..|hs|] == hs;
    case Removed(hs) =>
      HeldRemoved(ops, hs, h, |hs|);
      assert EventOps(event)[..|hs|] == EventOps(event) && hs[..|hs|] == hs;
    case Clear =>
    case Reset =>
  }

  /** One copy for each held hash, class by class. */
  ghost predicate Faithful(a: Addressing, view: LaneBuckets, held: set<Hash>)
    requires a.Valid()
  {
    forall f: Fp, i: nat :: f != 0 && i < BUCKETS_PER_LANE ==> Copies(a, view, f, i) == Tracked(a, held, f, i)
  }

  /** The operation changes the lane just when it changes what is held. */
  predicate InStep(a: Addressing, view: LaneBuckets, held: set<Hash>, op: LaneOp)
    requires a.Valid()
  {
    match op
    case Put(h) => DirectInsert(a, view, h).Some? <==> h !in held
    case Take(h) => DirectDelete(a, view, h).Some? <==> h in held
    case Wipe => true
  }

  /** One copy too few: a new hash found no room, or a hash not held found a copy to delete. */
  function LostBy(a: Addressing, view: LaneBuckets, held: set<Hash>, op: LaneOp, f: Fp, i: nat): nat
    requires a.Valid()
  {
    match op
    case Put(h) => if h !in held && DirectInsert(a, view, h).None? && a.InClass(h, f, i) then 1 else 0
    case Take(h) => if h !in held && DirectDelete(a, view, h).Some? && a.InClass(h, f, i) then 1 else 0
    case Wipe => 0
  }

  /** One copy too many: a hash already held found room again, or a held hash found no copy to delete. */
  function ExtraBy(a: Addressing, view: LaneBuckets, held: set<Hash>, op: LaneOp, f: Fp, i: nat): nat
    requires a.Valid()
  {
    match op
    case Put(h) => if h in held && DirectInsert(a, view, h).Some? && a.InClass(h, f, i) then 1 else 0
    case Take(h) => if h in held && DirectDelete(a, view, h).None? && a.InClass(h, f, i) then 1 else 0
    case Wipe => 0
  }

  function Lost(a: Addressing, ops: seq<LaneOp>, f: Fp, i: nat): nat
    requires a.Valid()
  {
    if ops == [] || ops[|ops| - 1].Wipe? then 0
    else
      var before := ops[..|ops| - 1];
      Lost(a, before, f, i) + LostBy(a, Projected(a, EmptyLane(), before), Held(before), ops[|ops| - 1], f, i)
  }

  function Extra(a: Addressing, ops: seq<LaneOp>, f: Fp, i: nat): nat
    requires a.Valid()
  {
    if ops == [] || ops[|ops| - 1].Wipe? then 0
    else
      var before := ops[..|ops| - 1];
      Extra(a, before, f, i) + ExtraBy(a, Projected(a, EmptyLane(), before), Held(before), ops[|ops| - 1], f, i)
  }

  lemma MovedBalance(a: Addressing, view: LaneBuckets, held: set<Hash>, op: LaneOp, f: Fp, i: nat)
    requires a.Valid() && f != 0 && i < BUCKETS_PER_LANE && !op.Wipe?
    ensures Copies(a, Moved(a, view, op), f, i) + LostBy(a, view, held, op, f, i) + Tracked(a, held, f, i) ==
            Copies(a, view, f, i) + ExtraBy(a, view, held, op, f, i) + Tracked(a, HeldAfter(held, op), f, i)
  {
    hide Copies, Tracked, DirectInsert, DirectDelete, Occupied, Count, Addressing.InClass;
    var h := op.hash;
    match op
    case Put(_) =>
      DirectInsertCopies(a, view, h, f, i);
      if h in held { assert held + {h} == held; } else { TrackedAdd(a, held, h, f, i); }
    case Take(_) =>
      DirectDeleteCopies(a, view, h, f, i);
      if h in held {
        TrackedAdd(a, held - {h}, h, f, i);
        assert held - {h} + {h} == held;
      } else {
        assert held - {h} == held;
      }
  }

  lemma NothingHeld(a: Addressing, f: Fp, i: nat)
    requires a.Valid() && f != 0 && i < BUCKETS_PER_LANE
    ensures Copies(a, EmptyLane(), f, i) == 0 == Tracked(a, {}, f, i)
  {
    EmptyBucket();
    TrackedNone(a, f, i);
    hide Count, Tracked;
  }

  /** The balance of every lane history, class by class, since the lane was last wiped. */
  lemma {:induction false} LaneBalance(a: Addressing, ops: seq<LaneOp>, f: Fp, i: nat)
    requires a.Valid() && f != 0 && i < BUCKETS_PER_LANE
    ensures Copies(a, Projected(a, EmptyLane(), ops), f, i) + Lost(a, ops, f, i) ==
            Tracked(a, Held(ops), f, i) + Extra(a, ops, f, i)
  {
    hide Copies, Tracked, LostBy, ExtraBy;
    NothingHeld(a, f, i);
    if ops != [] && !ops[|ops| - 1].Wipe? {
      var before := ops[..|ops| - 1];
      LaneBalance(a, before, f, i);
      MovedBalance(a, Projected(a, EmptyLane(), before), Held(before), ops[|ops| - 1], f, i);
      hide Moved, HeldAfter, EmptyLane;
    }
  }

  /** A lane has one copy for each held hash exactly when, in every class, what was lost evens out what was extra. */
  lemma LaneFaithfulIff(a: Addressing, ops: seq<LaneOp>)
    requires a.Valid()
    ensures Faithful(a, Projected(a, EmptyLane(), ops), Held(ops)) <==>
            forall f: Fp, i: nat :: f != 0 && i < BUCKETS_PER_LANE ==> Lost(a, ops, f, i) == Extra(a, ops, f, i)
  {
    hide Copies, Tracked, Lost, Extra, Projected, Held, EmptyLane;
    var view, held := Projected(a, EmptyLane(), ops), Held(ops);
    if Faithful(a, view, held) {
      forall f: Fp, i: nat | f != 0 && i < BUCKETS_PER_LANE ensures Lost(a, ops, f, i) == Extra(a, ops, f, i) {
        LaneBalance(a, ops, f, i);
        assert Copies(a, view, f, i) == Tracked(a, held, f, i);
      }
    } else {
      var f: Fp, i: nat :| f != 0 && i < BUCKETS_PER_LANE && Copies(a, view, f, i) != Tracked(a, held, f, i);
      LaneBalance(a, ops, f, i);
      assert Lost(a, ops, f, i) != Extra(a, ops, f, i);
    }
  }

  /**
   One operation on a faithful lane leaves it faithful exactly when it is in step: a
   stored hash finds a free slot just when it is not held yet, and a removed hash finds a
   copy just when it is held.
   */
  lemma FaithfulStepIff(a: Addressing, view: LaneBuckets, held: set<Hash>, op: LaneOp)
    requires a.Valid() && Faithful(a, view, held)
    ensures Faithful(a, Moved(a, view, op), HeldAfter(held, op)) <==> InStep(a, view, held, op)
  {
    hide Copies, Tracked, DirectInsert, DirectDelete, Moved, HeldAfter, Addressing.InClass;
    if op.Wipe? {
      WipedFaithful(a, view, held);
    } else {
      var h := op.hash;
      forall f: Fp, i: nat | f != 0 && i < BUCKETS_PER_LANE
        ensures Copies(a, Moved(a, view, op), f, i) + LostBy(a, view, held, op, f, i) ==
                Tracked(a, HeldAfter(held, op), f, i) + ExtraBy(a, view, held, op, f, i)
      {
        MovedBalance(a, view, held, op, f, i);
        assert Copies(a, view, f, i) == Tracked(a, held, f, i);
      }
      if !InStep(a, view, held, op) {
        var f, i := a.probe(h).0, Primary(a, h);
        OwnClass(a, h);
        assert Copies(a, Moved(a, view, op), f, i) + LostBy(a, view, held, op, f, i) ==
               Tracked(a, HeldAfter(held, op), f, i) + ExtraBy(a, view, held, op, f, i);
      }
    }
  }

  lemma OwnClass(a: Addressing, h: Hash)
    requires a.Valid()
    ensures a.InClass(h, a.probe(h).0, Primary(a, h))
  {}

  lemma WipedFaithful(a: Addressing, view: LaneBuckets, held: set<Hash>)
    requires a.Valid()
    ensures Faithful(a, Moved(a, view, Wipe), HeldAfter(held, Wipe))
  {
    hide Copies, Tracked;
    forall f: Fp, i: nat | f != 0 && i < BUCKETS_PER_LANE
      ensures Copies(a, EmptyLane(), f, i) == Tracked(a, {}, f, i)
    {
      NothingHeld(a, f, i);
    }
  }

  ghost predicate FaithfulThroughout(a: Addressing, ops: seq<LaneOp>)
    requires a.Valid()
  {
    ops == [] || (FaithfulThroughout(a, ops[..|ops| - 1]) && Faithful(a, Projected(a, EmptyLane(), ops), Held(ops)))
  }

  predicate InStepThroughout(a: Addressing, ops: seq<LaneOp>)
    requires a.Valid()
  {
    ops == [] ||
    var before := ops[..|ops| - 1];
    InStepThroughout(a, before) && InStep(a, Projected(a, EmptyLane(), before), Held(before), ops[|ops| - 1])
  }

  /** Over every history: the lane is faithful after each operation exactly when each operation was in step. */
  lemma {:induction false} FaithfulThroughoutIff(a: Addressing, ops: seq<LaneOp>)
    requires a.Valid()
    ensures FaithfulThroughout(a, ops) <==> InStepThroughout(a, ops)
    ensures FaithfulThroughout(a, ops) ==> Faithful(a, Projected(a, EmptyLane(), ops), Held(ops))
  {
    hide Faithful, InStep, Moved, HeldAfter, EmptyLane;
    if ops == [] {
      EmptyFaithful(a);
    } else {
      var before := ops[..|ops| - 1];
      FaithfulThroughoutIff(a, before);
      if FaithfulThroughout(a, before) {
        FaithfulStepIff(a, Projected(a, EmptyLane(), before), Held(before), ops[|ops| - 1]);
      }
    }
  }

  lemma EmptyFaithful(a: Addressing)
    requires a.Valid()
    ensures Faithful(a, EmptyLane(), {})
  {
    WipedFaithful(a, EmptyLane(), {});
  }

  /**
   The projection does not deduplicate, the producer does: after storing a hash twice and
   removing it once, the lane keeps a copy, and every producer run has none of any class.
   */
  lemma StoredTwiceRemovedOnce(a: Addressing, h: Hash, b: BackendId, r: Run, f: Fp, i: nat)
    requires a.Valid() && r.Valid(a) && r.ops == [Store(h, b), Store(h, b), Remove(h, b)]
    requires f != 0 && i < BUCKETS_PER_LANE
    ensures Copies(a, Projected(a, EmptyLane(), [Put(h), Put(h), Take(h)]), a.probe(h).0, Primary(a, h)) == 1
    ensures Copies(a, r.states[3].buckets, f, i) == 0
  {
    hide Copies, Owns, Step, NewState, Tracked, DirectInsert, DirectDelete, OwnersOf, ExactAt;
    LaneKeepsCopy(a, h);
    RunConserves(a, r, 3);
    assert PairsAt(r.ops, 1) == PairsAfter(PairsAt(r.ops, 0), Store(h, b)) == {(h, b)};
    assert PairsAt(r.ops, 2) == PairsAfter(PairsAt(r.ops, 1), Store(h, b)) == {(h, b)};
    assert PairsAt(r.ops, 3) == PairsAfter(PairsAt(r.ops, 2), Remove(h, b)) == {};
    NoneTracked(r.states[3]);
    TrackedNone(a, f, i);
  }

  lemma NoneTracked(s: State)
    requires Owns(s, {})
    ensures s.entries.Keys == {}
  {
    forall h ensures h !in s.entries {
      if h in s.entries {
        var b :| b in s.entries[h].owners;
        OwnsPair(s, {}, h, b);
      }
    }
  }

  lemma LaneKeepsCopy(a: Addressing, h: Hash)
    requires a.Valid()
    ensures Copies(a, Projected(a, EmptyLane(), [Put(h), Put(h), Take(h)]), a.probe(h).0, Primary(a, h)) == 1
  {
    hide DirectInsert, DirectDelete, Occupied, EmptyLane, Count, Written, Projected;
    var f, i := a.probe(h).0, Primary(a, h);
    var v0: LaneBuckets := EmptyLane();
    var v1 := Moved(a, v0, Put(h));
    var v2 := Moved(a, v1, Put(h));
    OneByOne(a, v0, h);
    NothingHeld(a, f, i);
    EmptyTakesTwo(a, h);
    DirectInsertCopies(a, v0, h, f, i);
    DirectInsertCopies(a, v1, h, f, i);
    DirectDeleteCopies(a, v2, h, f, i);
    hide Copies;
  }

  lemma EmptyTakesTwo(a: Addressing, h: Hash)
    requires a.Valid()
    ensures DirectInsert(a, EmptyLane(), h).Some? && DirectInsert(a, Moved(a, EmptyLane(), Put(h)), h).Some?
  {
    EmptyBucket();
    TryInsertCount(0, a.probe(h).0, 0);
    assert EmptyLane()[Primary(a, h)] == 0;
    TryInsertCount(TryInsert(0, a.probe(h).0).value, a.probe(h).0, 0);
    assert Slot(0, 0) == 0;
    hide Count, TryInsert, Slot;
  }

  lemma OneByOne(a: Addressing, view: LaneBuckets, h: Hash)
    requires a.Valid()
    ensures Projected(a, view, [Put(h), Put(h), Take(h)]) == Moved(a, Moved(a, Moved(a, view, Put(h)), Put(h)), Take(h))
  {
    hide Moved;
    ProjectedNext(a, view, [], Put(h));
    ProjectedNext(a, view, [Put(h)], Put(h));
    ProjectedNext(a, view, [Put(h), Put(h)], Take(h));
    assert [] + [Put(h)] == [Put(h)] && [Put(h)] + [Put(h)] == [Put(h), Put(h)] &&
           [Put(h), Put(h)] + [Take(h)] == [Put(h), Put(h), Take(h)];
  }
}
