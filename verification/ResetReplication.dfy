/**
 What a reset does to delta replication (ckf_producer.rs, reset_internal): the buckets
 are emptied without being marked dirty, so a lane falls out of sync, and comes back
 bucket by bucket as later operations happen to mark what it held.
 */
module ResetReplication {
  import opened CuckooFilter
  import opened Lane
  import opened Ids
  import opened ProducerState
  import opened ProducerInvariants
  import opened Replication
  import opened Reachability

  /** Buckets marked dirty by the operations between the reset at `j` and `k`. */
  function MarkedSince(r: Run, j: nat, k: nat): set<nat>
    requires k < |r.states|
  {
    if k <= j + 1 then {} else MarkedSince(r, j, k - 1) + r.states[k].dirty
  }

  /** No snapshot and no other reset from the reset at `j` up to `k`. */
  predicate OnlyDeltas(ops: seq<Op>, j: nat, k: nat)
    requires j < k <= |ops|
  {
    && ops[j].ResetAll?
    && forall m :: j < m < k ==> !ops[m].ResetAll? && !ops[m].TakeSnapshot?
  }

  /**
   A marked bucket is dirty or up to date; an unmarked one is as the reset found it on the
   lane, and empty at the producer.
   */
  ghost predicate Recovers(w: LaneBuckets, view: LaneBuckets, s: State, marked: set<nat>) {
    && s.dirty <= marked
    && forall i :: 0 <= i < BUCKETS_PER_LANE ==>
         if i in marked then i in s.dirty || view[i] == s.buckets[i]
         else view[i] == w[i] && s.buckets[i] == 0
  }

  /** Every bucket where the lane is not empty is among the marked ones. */
  ghost predicate AllMarked(w: LaneBuckets, marked: set<nat>) {
    forall i :: 0 <= i < BUCKETS_PER_LANE && w[i] != 0 ==> i in marked
  }

  /** The lane holds something in bucket `p` only. */
  ghost predicate OnlyAt(w: LaneBuckets, p: nat) {
    forall i :: 0 <= i < BUCKETS_PER_LANE ==> (w[i] != 0 <==> i == p)
  }

  lemma MarkedOnlyAt(w: LaneBuckets, p: nat, q: nat)
    requires p < BUCKETS_PER_LANE && OnlyAt(w, p)
    ensures AllMarked(w, {q}) <==> p == q
  {
    assert w[p] != 0;
  }

  lemma RecoveryStart(a: Addressing, s: State, ok: bool, s': State, w: LaneBuckets)
    requires a.Valid() && Step(a, s, ResetAll, ok, s')
    ensures Recovers(w, ViewAfter(w, Messages(s, ResetAll)), s', {})
  {
    hide StoredStep, RemovedStep, ClearedStep;
    ViewAfterNothing(w);
  }

  lemma RecoveryStep(a: Addressing, s: State, op: Op, ok: bool, s': State, w: LaneBuckets, view: LaneBuckets,
                     marked: set<nat>)
    requires a.Valid() && Step(a, s, op, ok, s') && !op.ResetAll? && !op.TakeSnapshot?
    requires Recovers(w, view, s, marked)
    ensures Recovers(w, ViewAfter(view, Messages(s, op)), s', marked + s'.dirty)
  {
    hide ApplyChanges, DirtyFrom, StoredStep, RemovedStep, ClearedStep, NewState, ViewAfter;
    if op.TakeDelta? {
      if s.dirty == {} {
        ViewAfterNothing(view);
      } else {
        var m := Messages(s, op)[0];
        assert Messages(s, op) == [] + [m];
        ViewAfterNothing(view);
        ViewAfterOne(view, [], m);
        forall i | 0 <= i < BUCKETS_PER_LANE
          ensures ApplyChanges(view, DirtyFrom(s.buckets, s.dirty, 0))[i] ==
                  if i in s.dirty then s.buckets[i] else view[i]
        {
          DirtyFromApplied(view, s.buckets, s.dirty, 0, i);
        }
      }
    } else {
      StepMarks(a, s, op, ok, s');
      ViewAfterNothing(view);
    }
  }

  lemma {:induction false} RunRecovers(a: Addressing, r: Run, j: nat, k: nat, v0: LaneBuckets)
    requires a.Valid() && r.Valid(a) && j < k <= |r.ops| && OnlyDeltas(r.ops, j, k)
    ensures Recovers(ViewAfter(v0, RunMessages(r, j)), ViewAfter(v0, RunMessages(r, k)), r.states[k],
            MarkedSince(r, j, k))
  {
    hide Step, NewState, Recovers, ViewAfter, Messages;
    var w := ViewAfter(v0, RunMessages(r, j));
    StepAt(a, r, k - 1);
    RunMessagesNext(r, k - 1);
    ViewAfterAppend(v0, RunMessages(r, k - 1), Messages(r.states[k - 1], r.ops[k - 1]));
    if k == j + 1 {
      RecoveryStart(a, r.states[j], r.oks[j], r.states[k], w);
    } else {
      RunRecovers(a, r, j, k - 1, v0);
      RecoveryStep(a, r.states[k - 1], r.ops[k - 1], r.oks[k - 1], r.states[k], w,
                   ViewAfter(v0, RunMessages(r, k - 1)), MarkedSince(r, j, k - 1));
    }
  }

  /**
   Deltas after a reset, with no snapshot: the lane is in sync exactly when every bucket
   where it was not empty at the reset has been marked dirty since; and after a delta
   that is exactly when it equals the producer's buckets.
   */
  lemma ResetInSyncIff(a: Addressing, r: Run, j: nat, k: nat, v0: LaneBuckets)
    requires a.Valid() && r.Valid(a) && j < k <= |r.ops| && OnlyDeltas(r.ops, j, k)
    ensures var w, view := ViewAfter(v0, RunMessages(r, j)), ViewAfter(v0, RunMessages(r, k));
      && (InSync(view, r.states[k]) <==> AllMarked(w, MarkedSince(r, j, k)))
      && (r.ops[k - 1].TakeDelta? ==> (view == r.states[k].buckets <==> AllMarked(w, MarkedSince(r, j, k))))
  {
    hide Step, NewState, ViewAfter, RunMessages, MarkedSince, AllMarked, InSync, Recovers;
    var w, view := ViewAfter(v0, RunMessages(r, j)), ViewAfter(v0, RunMessages(r, k));
    RunRecovers(a, r, j, k, v0);
    RecoveredIff(w, view, r.states[k], MarkedSince(r, j, k));
    if r.ops[k - 1].TakeDelta? {
      StepAt(a, r, k - 1);
      DeltaLeavesClean(a, r.states[k - 1], r.oks[k - 1], r.states[k]);
      CleanInSync(view, r.states[k]);
    }
  }

  lemma RecoveredIff(w: LaneBuckets, view: LaneBuckets, s: State, marked: set<nat>)
    requires Recovers(w, view, s, marked)
    ensures InSync(view, s) <==> AllMarked(w, marked)
  {}

  lemma DeltaLeavesClean(a: Addressing, s: State, ok: bool, s': State)
    requires a.Valid() && Step(a, s, TakeDelta, ok, s')
    ensures s'.dirty == {}
  {
    hide StoredStep, RemovedStep, ClearedStep, NewState;
  }

  lemma CleanInSync(view: LaneBuckets, s: State)
    requires s.dirty == {}
    ensures InSync(view, s) <==> view == s.buckets
  {}

  // ---------- a run that loses a bucket ----------

  /** Store a hash, publish, reset, store another, publish a delta. */
  function StoreResetStore(h: Hash, g: Hash, b: BackendId): seq<Op> {
    [Store(h, b), TakeSnapshot, ResetAll, Store(g, b), TakeDelta]
  }

  lemma FirstStore(a: Addressing, s: State, h: Hash, b: BackendId, ok: bool, s': State)
    requires a.Valid() && s == NewState().(pubSeq := s.pubSeq) && StoredStep(a, s, h, b, ok, s')
    ensures s'.dirty == {Primary(a, h)} && s'.buckets[Primary(a, h)] != 0
    ensures forall i :: 0 <= i < BUCKETS_PER_LANE && i != Primary(a, h) ==> s'.buckets[i] == 0
  {
    hide Count, TryInsert, Slot;
    var p, fp := Primary(a, h), a.probe(h).0;
    EmptyBucket();
    TryInsertCount(0, fp, fp);
    TryInsertCount(0, fp, 0);
    assert s.buckets[p] == 0;
  }

  lemma LaneOfFirstStore(a: Addressing, r: Run, h: Hash, g: Hash, b: BackendId, v0: LaneBuckets)
    requires a.Valid() && r.Valid(a) && r.ops == StoreResetStore(h, g, b)
    ensures OnlyAt(ViewAfter(v0, RunMessages(r, 2)), Primary(a, h))
  {
    hide ViewAfter, Messages, StoredStep, NewState;
    StepAt(a, r, 0);
    StepAt(a, r, 1);
    FirstStore(a, r.states[0], h, b, r.oks[0], r.states[1]);
    RunMessagesNext(r, 1);
    ViewAfterAppend(v0, RunMessages(r, 1), Messages(r.states[1], TakeSnapshot));
    SnapshotAligns(r.states[1], ViewAfter(v0, RunMessages(r, 1)));
  }

  lemma MarkedBySecondStore(a: Addressing, r: Run, h: Hash, g: Hash, b: BackendId)
    requires a.Valid() && r.Valid(a) && r.ops == StoreResetStore(h, g, b)
    ensures MarkedSince(r, 2, 5) == {Primary(a, g)}
  {
    hide StoredStep, NewState;
    StepAt(a, r, 2);
    StepAt(a, r, 3);
    StepAt(a, r, 4);
    FirstStore(a, r.states[3], g, b, r.oks[3], r.states[4]);
    assert r.states[5].dirty == {};
    assert MarkedSince(r, 2, 4) == MarkedSince(r, 2, 3) + r.states[4].dirty == r.states[4].dirty;
    assert MarkedSince(r, 2, 5) == MarkedSince(r, 2, 4) + {} == MarkedSince(r, 2, 4);
  }

  /**
   In every such run the lane ends up equal to the producer exactly when the two hashes share
   their primary bucket.
   */
  lemma ResetThenDelta(a: Addressing, r: Run, h: Hash, g: Hash, b: BackendId, v0: LaneBuckets)
    requires a.Valid() && r.Valid(a) && r.ops == StoreResetStore(h, g, b)
    ensures ViewAfter(v0, RunMessages(r, 5)) == r.states[5].buckets <==> Primary(a, h) == Primary(a, g)
  {
    hide ViewAfter, RunMessages, MarkedSince, Step, NewState, AllMarked, OnlyAt, InSync;
    LaneOfFirstStore(a, r, h, g, b, v0);
    MarkedBySecondStore(a, r, h, g, b);
    ResetInSyncIff(a, r, 2, 5, v0);
    MarkedOnlyAt(ViewAfter(v0, RunMessages(r, 2)), Primary(a, h), Primary(a, g));
  }

  /** And such a run exists: the lane differs from the producer after the delta. */
  lemma ResetLosesBucket(a: Addressing, h: Hash, g: Hash, b: BackendId, v0: LaneBuckets) returns (r: Run)
    requires a.Valid() && Primary(a, h) != Primary(a, g)
    ensures r.Valid(a) && r.ops == StoreResetStore(h, g, b)
    ensures ViewAfter(v0, RunMessages(r, 5)) != r.states[5].buckets
  {
    hide ViewAfter, RunMessages, Step, NewState;
    r := RunExists(a, StoreResetStore(h, g, b));
    ResetThenDelta(a, r, h, g, b, v0);
  }
}
