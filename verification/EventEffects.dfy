/**
 What a whole event does to a producer: to ownership as plain set algebra on (hash,
 backend) pairs, and to the marks of what is yet to be published.
 */
module EventEffects {
  import opened CuckooFilter
  import opened Lane
  import opened Ids
  import opened ProducerState
  import opened Insertion
  import opened ProducerInvariants
  import opened Replication

  lemma PairsAtPrefix(ops: seq<Op>, more: seq<Op>, k: nat)
    requires k <= |ops|
    ensures PairsAt(ops + more, k) == PairsAt(ops, k)
  {
    hide PairsAfter;
    if k > 0 { PairsAtPrefix(ops, more, k - 1); }
  }

  /** The pairs left by the operations of an event, from the pairs before it. */
  ghost predicate EventPairs(event: KvCacheEvent, backend: BackendId, before: set<Pair>, after: set<Pair>) {
    match event
    case Stored(hs) => forall h, b :: (h, b) in after <==> (h, b) in before || (h in hs && b == backend)
    case Removed(hs) => forall h, b :: (h, b) in after <==> (h, b) in before && !(h in hs && b == backend)
    case Clear => forall h, b :: (h, b) in after <==> (h, b) in before && b != backend
    case Reset => after == {}
  }

  lemma {:induction false} StoredPairs(ops: seq<Op>, hs: seq<Hash>, backend: BackendId, k: nat)
    requires k <= |hs|
    ensures EventPairs(Stored(hs[..k]), backend, PairsAt(ops, |ops|),
                       PairsAt(ops + OpsOf(Stored(hs), backend), |ops| + k))
  {
    var all := ops + OpsOf(Stored(hs), backend);
    if k == 0 {
      PairsAtPrefix(ops, OpsOf(Stored(hs), backend), |ops|);
    } else {
      StoredPairs(ops, hs, backend, k - 1);
      assert all[|ops| + k - 1] == Store(hs[k - 1], backend);
      assert hs[..k] == hs[..k - 1] + [hs[k - 1]];
    }
  }

  lemma {:induction false} RemovedPairs(ops: seq<Op>, hs: seq<Hash>, backend: BackendId, k: nat)
    requires k <= |hs|
    ensures EventPairs(Removed(hs[..k]), backend, PairsAt(ops, |ops|),
                       PairsAt(ops + OpsOf(Removed(hs), backend), |ops| + k))
  {
    var all := ops + OpsOf(Removed(hs), backend);
    if k == 0 {
      PairsAtPrefix(ops, OpsOf(Removed(hs), backend), |ops|);
    } else {
      RemovedPairs(ops, hs, backend, k - 1);
      assert all[|ops| + k - 1] == Remove(hs[k - 1], backend);
      assert hs[..k] == hs[..k - 1] + [hs[k - 1]];
    }
  }

  lemma PairsAfterEvent(ops: seq<Op>, event: KvCacheEvent, backend: BackendId)
    ensures var all := ops + OpsOf(event, backend);
      EventPairs(event, backend, PairsAt(ops, |ops|), PairsAt(all, |all|))
  {
    match event
    case Stored(hs) =>
      StoredPairs(ops, hs, backend, |hs|);
      assert hs[..|hs|] == hs;
    case Removed(hs) =>
      RemovedPairs(ops, hs, backend, |hs|);
      assert hs[..|hs|] == hs;
    case Clear =>
      PairsAtPrefix(ops, [ClearAll(backend)], |ops|);
    case Reset =>
  }

  /** Operations other than a reset and publications only ever add marks. */
  lemma {:induction false} EventMarks(a: Addressing, r: Run, j: nat, k: nat)
    requires a.Valid() && r.Valid(a) && j <= k <= |r.ops|
    requires forall m :: j <= m < k ==> r.ops[m].Store? || r.ops[m].Remove? || r.ops[m].ClearAll?
    ensures MarksChanges(r.states[j], r.states[k]) && r.states[k].pubSeq == r.states[j].pubSeq
  {
    hide Step, NewState, Messages;
    if j < k {
      EventMarks(a, r, j, k - 1);
      StepAt(a, r, k - 1);
      StepMarks(a, r.states[k - 1], r.ops[k - 1], r.oks[k - 1], r.states[k]);
      SequenceStep(a, r.states[k - 1], r.ops[k - 1], r.oks[k - 1], r.states[k]);
      NoMessages(r.states[k - 1], r.ops[k - 1]);
    }
  }

  lemma NoMessages(s: State, op: Op)
    requires op.Store? || op.Remove? || op.ClearAll? || op.ResetAll?
    ensures Messages(s, op) == []
  {}

  /** The effect of an event on the last state of a run. */
  lemma EventOutcome(a: Addressing, r: Run, s: State, r': Run, s': State, event: KvCacheEvent, backend: BackendId)
    requires a.Valid() && r.EndsIn(a, s) && r'.EndsIn(a, s') && r'.Extends(r, OpsOf(event, backend))
    ensures event.Stored? ==> forall h, b ::
              b in OwnersOf(s', h) <==> b in OwnersOf(s, h) || (h in event.blockHashes && b == backend)
    ensures event.Removed? ==> forall h, b ::
              b in OwnersOf(s', h) <==> b in OwnersOf(s, h) && !(h in event.blockHashes && b == backend)
    ensures event.Clear? ==> forall h, b :: b in OwnersOf(s', h) <==> b in OwnersOf(s, h) && b != backend
    ensures event.Reset? ==> forall h :: OwnersOf(s', h) == {}
    ensures !event.Reset? ==> MarksChanges(s, s')
    ensures event.Reset? ==> s'.dirty == {} && s'.buckets == EmptyLane()
    ensures s'.pubSeq == s.pubSeq
  {
    hide Owns, OwnersOf, PairsAt, Counted, ExactAt, MarksChanges, Step, NewState, OpsOf;
    var before, after := PairsAt(r.ops, |r.ops|), PairsAt(r'.ops, |r'.ops|);
    RunConserves(a, r, |r.ops|);
    RunConserves(a, r', |r'.ops|);
    PairsAfterEvent(r.ops, event, backend);
    forall h, b
      ensures (h, b) in before <==> b in OwnersOf(s, h)
      ensures (h, b) in after <==> b in OwnersOf(s', h)
    {
      OwnsPair(s, before, h, b);
      OwnsPair(s', after, h, b);
    }
    if event.Reset? {
      ResetOutcome(a, r, s, r', s', backend);
    } else {
      EventsOnly(event, backend);
      EventMarks(a, r', |r.ops|, |r'.ops|);
    }
  }

  lemma EventsOnly(event: KvCacheEvent, backend: BackendId)
    requires !event.Reset?
    ensures forall m :: 0 <= m < |OpsOf(event, backend)| ==>
              var op := OpsOf(event, backend)[m]; op.Store? || op.Remove? || op.ClearAll?
  {}

  lemma ResetOutcome(a: Addressing, r: Run, s: State, r': Run, s': State, backend: BackendId)
    requires a.Valid() && r.EndsIn(a, s) && r'.EndsIn(a, s') && r'.Extends(r, OpsOf(Reset, backend))
    ensures s'.dirty == {} && s'.buckets == EmptyLane() && s'.pubSeq == s.pubSeq
  {
    hide StoredStep, RemovedStep, ClearedStep;
    StepAt(a, r', |r.ops|);
  }
}
