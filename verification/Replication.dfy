/**
 Publications and what they do to a consumer lane (ckf_producer.rs, ckf_consumer.rs):
 a lane that applies every publication in order equals the producer's buckets after
 each of them, as long as a reset is followed by a snapshot.
 */
module Replication {
  import opened Arithmetic
  import opened CuckooFilter
  import opened Lane
  import opened Ids
  import opened ProducerState
  import opened Insertion
  import opened ProducerInvariants

  /** `apply_delta`: store each listed word, ignoring indices out of range. */
  function ApplyChanges(view: LaneBuckets, changed: seq<(nat, PackedBucket)>): LaneBuckets
    decreases |changed|
  {
    if changed == [] then view
    else
      var (i, v) := changed[0];
      ApplyChanges(if i < BUCKETS_PER_LANE then view[i := v] else view, changed[1..])
  }

  /** `install_snapshot`: overwrite the lane word by word; a short snapshot leaves the rest. */
  function Overwritten(view: LaneBuckets, words: seq<PackedBucket>): LaneBuckets {
    if |words| <= BUCKETS_PER_LANE then words + view[|words|..] else words[..BUCKETS_PER_LANE]
  }

  /** A lane after one publication; sequence numbers are not looked at. */
  function Applied(view: LaneBuckets, m: Publication): LaneBuckets {
    match m
    case CkfSnapshot(_, words) => Overwritten(view, words)
    case CkfDelta(_, _, changed) => ApplyChanges(view, changed)
  }

  function ViewAfter(view: LaneBuckets, ms: seq<Publication>): LaneBuckets {
    if ms == [] then view else Applied(ViewAfter(view, ms[..|ms| - 1]), ms[|ms| - 1])
  }

  function RunMessages(r: Run, k: nat): seq<Publication>
    requires k <= |r.ops| <= |r.states|
  {
    if k == 0 then [] else RunMessages(r, k - 1) + Messages(r.states[k - 1], r.ops[k - 1])
  }

  /** The last reset, if any, has been followed by a snapshot. */
  predicate AlignedAt(ops: seq<Op>, k: nat, start: bool)
    requires k <= |ops|
  {
    if k == 0 then start
    else match ops[k - 1]
      case TakeSnapshot => true
      case ResetAll => false
      case _ => AlignedAt(ops, k - 1, start)
  }

  /** A lane may differ from the producer in dirty buckets only. */
  ghost predicate InSync(view: LaneBuckets, s: State) {
    forall j :: 0 <= j < BUCKETS_PER_LANE && j !in s.dirty ==> view[j] == s.buckets[j]
  }

  lemma ApplyFirst(view: LaneBuckets, i: nat, v: PackedBucket, rest: seq<(nat, PackedBucket)>)
    requires i < BUCKETS_PER_LANE
    ensures ApplyChanges(view, [(i, v)] + rest) == ApplyChanges(view[i := v], rest)
  {
    assert ([(i, v)] + rest)[1..] == rest;
  }

  lemma {:induction false} DirtyFromApplied(view: LaneBuckets, bs: LaneBuckets, dirty: set<nat>, i: nat, j: nat)
    requires i <= BUCKETS_PER_LANE && j < BUCKETS_PER_LANE
    ensures ApplyChanges(view, DirtyFrom(bs, dirty, i))[j] == if i <= j && j in dirty then bs[j] else view[j]
    decreases BUCKETS_PER_LANE - i
  {
    if i < BUCKETS_PER_LANE {
      var rest := DirtyFrom(bs, dirty, i + 1);
      if i in dirty {
        DirtyFromApplied(view[i := bs[i]], bs, dirty, i + 1, j);
        assert DirtyFrom(bs, dirty, i) == [(i, bs[i])] + rest;
        ApplyFirst(view, i, bs[i], rest);
      } else {
        DirtyFromApplied(view, bs, dirty, i + 1, j);
        assert DirtyFrom(bs, dirty, i) == rest;
      }
      hide ApplyChanges, DirtyFrom;
    }
  }

  /** A delta brings a lane to the producer's buckets exactly when the lane was in sync. */
  lemma DeltaAlignsIffInSync(view: LaneBuckets, s: State)
    ensures ApplyChanges(view, DirtyFrom(s.buckets, s.dirty, 0)) == s.buckets <==> InSync(view, s)
  {
    hide ApplyChanges, DirtyFrom;
    var view' := ApplyChanges(view, DirtyFrom(s.buckets, s.dirty, 0));
    forall j | 0 <= j < BUCKETS_PER_LANE
      ensures view'[j] == if j in s.dirty then s.buckets[j] else view[j]
    {
      DirtyFromApplied(view, s.buckets, s.dirty, 0, j);
    }
    SameLane(view, view', s.buckets, s.dirty);
  }

  lemma SameLane(view: LaneBuckets, view': LaneBuckets, bs: LaneBuckets, dirty: set<nat>)
    requires forall j :: 0 <= j < BUCKETS_PER_LANE ==> view'[j] == if j in dirty then bs[j] else view[j]
    ensures view' == bs <==> forall j :: 0 <= j < BUCKETS_PER_LANE && j !in dirty ==> view[j] == bs[j]
  {
    if forall j :: 0 <= j < BUCKETS_PER_LANE && j !in dirty ==> view[j] == bs[j] {
      assert forall j :: 0 <= j < BUCKETS_PER_LANE ==> view'[j] == bs[j];
    }
  }

  lemma DeletedMarks(a: Addressing, s: State, h: Hash)
    requires a.Valid()
    ensures MarksChanges(s, DeletedFp(a, s, h))
  {
    hide TryDelete;
  }

  lemma ReleasedMarks(a: Addressing, s: State, h: Hash, b: BackendId)
    requires a.Valid()
    ensures MarksChanges(s, Released(a, s, h, b))
  {
    hide DeletedFp;
    DeletedMarks(a, s, h);
  }

  lemma {:induction false} ReleasedAllMarks(a: Addressing, s: State, hs: seq<Hash>, b: BackendId)
    requires a.Valid()
    ensures MarksChanges(s, ReleasedAll(a, s, hs, b))
  {
    if hs != [] {
      ReleasedAllMarks(a, s, hs[..|hs| - 1], b);
      ReleasedMarks(a, ReleasedAll(a, s, hs[..|hs| - 1], b), hs[|hs| - 1], b);
      hide Released;
    }
  }

  /** Every step except a reset and a publication marks the buckets it changes. */
  lemma StepMarks(a: Addressing, s: State, op: Op, ok: bool, s': State)
    requires a.Valid() && Step(a, s, op, ok, s')
    requires op.Store? || op.Remove? || op.ClearAll?
    ensures MarksChanges(s, s')
  {
    match op
    case Store(h, b) =>
      hide InsertedFp, OneMoreCopy;
      if b !in OwnersOf(s, h) && OwnersOf(s, h) == {} {
        InsertionAddsOne(a, Joined(s, h, b), h, ok, s');
      }
    case Remove(h, b) =>
      ReleasedMarks(a, s.(workers := if b in s.workers then s.workers[b := s.workers[b] - {h}] else s.workers), h, b);
      hide Released;
    case ClearAll(b) =>
      var hs :| Enumerates(hs, HashesOf(s, b)) && s' == ClearedStep(a, s, hs, b);
      ReleasedAllMarks(a, s.(workers := s.workers - {b}), hs, b);
      hide ReleasedAll;
  }

  lemma ViewAfterOne(view: LaneBuckets, ms: seq<Publication>, m: Publication)
    ensures ViewAfter(view, ms + [m]) == Applied(ViewAfter(view, ms), m)
  {
    assert (ms + [m])[..|ms|] == ms;
  }

  lemma ReplicaStep(a: Addressing, s: State, op: Op, ok: bool, s': State, view: LaneBuckets)
    requires a.Valid() && Step(a, s, op, ok, s')
    requires InSync(view, s)
    ensures !op.ResetAll? ==> InSync(ViewAfter(view, Messages(s, op)), s')
    ensures op.TakeSnapshot? || op.TakeDelta? ==> ViewAfter(view, Messages(s, op)) == s'.buckets
  {
    hide ApplyChanges, DirtyFrom, StoredStep, RemovedStep, ClearedStep, NewState, ViewAfter;
    match op
    case TakeSnapshot =>
      SnapshotAligns(s, view);
    case TakeDelta =>
      DeltaAligns(s, view);
    case ResetAll =>
    case _ =>
      StepMarks(a, s, op, ok, s');
      ViewAfterNothing(view);
  }

  lemma ViewAfterNothing(view: LaneBuckets)
    ensures ViewAfter(view, []) == view
  {}

  lemma DeltaAligns(s: State, view: LaneBuckets)
    requires InSync(view, s)
    ensures ViewAfter(view, Messages(s, TakeDelta)) == s.buckets
  {
    hide ApplyChanges, DirtyFrom, InSync;
    DeltaAlignsIffInSync(view, s);
    if s.dirty == {} {
      AllClean(s, view);
    } else {
      ViewAfterOne(view, [], Messages(s, TakeDelta)[0]);
      assert Messages(s, TakeDelta) == [] + [Messages(s, TakeDelta)[0]];
    }
  }

  lemma AllClean(s: State, view: LaneBuckets)
    requires InSync(view, s) && s.dirty == {}
    ensures view == s.buckets
  {}

  lemma WholeOverwritten(view: LaneBuckets, bs: LaneBuckets)
    ensures Overwritten(view, bs) == bs
  {}

  lemma SnapshotAligns(s: State, view: LaneBuckets)
    ensures ViewAfter(view, Messages(s, TakeSnapshot)) == s.buckets
  {
    hide ViewAfter, Overwritten;
    ViewAfterNothing(view);
    ViewAfterOne(view, [], Messages(s, TakeSnapshot)[0]);
    WholeOverwritten(view, s.buckets);
    assert Messages(s, TakeSnapshot) == [] + [Messages(s, TakeSnapshot)[0]];
  }

  lemma {:induction false} ViewAfterAppend(view: LaneBuckets, ms: seq<Publication>, more: seq<Publication>)
    ensures ViewAfter(view, ms + more) == ViewAfter(ViewAfter(view, ms), more)
  {
    hide Applied;
    if more == [] {
      assert ms + more == ms;
    } else {
      var n := |more| - 1;
      ViewAfterAppend(view, ms, more[..n]);
      assert ms + more == (ms + more[..n]) + [more[n]];
      ViewAfterOne(view, ms + more[..n], more[n]);
    }
  }

  /** What a lane that applied the publications of the first `k` operations knows. */
  ghost predicate FollowsAt(r: Run, k: nat, v0: LaneBuckets, start: bool)
    requires k <= |r.ops| < |r.states|
  {
    AlignedAt(r.ops, k, start) ==>
      && InSync(ViewAfter(v0, RunMessages(r, k)), r.states[k])
      && (k > 0 && (r.ops[k - 1].TakeSnapshot? || r.ops[k - 1].TakeDelta?) ==>
            ViewAfter(v0, RunMessages(r, k)) == r.states[k].buckets)
  }

  lemma FollowsAtStart(r: Run, v0: LaneBuckets, start: bool)
    requires 0 < |r.states| && |r.ops| < |r.states| && r.states[0] == NewState()
    requires start ==> v0 == EmptyLane()
    ensures FollowsAt(r, 0, v0, start)
  {}

  /**
   A lane that starts as `v0` (empty, if nothing was published before) and applies
   every publication of a run in order is in sync after each operation, and equal to
   the producer's buckets after each publication, whenever the last reset has been
   followed by a snapshot.
   */
  lemma {:induction false} ReplicaFollows(a: Addressing, r: Run, k: nat, v0: LaneBuckets, start: bool)
    requires a.Valid() && r.Valid(a) && k <= |r.ops|
    requires start ==> v0 == EmptyLane()
    ensures FollowsAt(r, k, v0, start)
  {
    hide FollowsAt;
    if k == 0 {
      FollowsAtStart(r, v0, start);
    } else {
      ReplicaFollows(a, r, k - 1, v0, start);
      ReplicaFollowsStep(a, r, k - 1, v0, start);
    }
  }

  lemma ReplicaFollowsStep(a: Addressing, r: Run, k: nat, v0: LaneBuckets, start: bool)
    requires a.Valid() && r.Valid(a) && k < |r.ops| && FollowsAt(r, k, v0, start)
    ensures FollowsAt(r, k + 1, v0, start)
  {
    hide ViewAfter, Messages, RunMessages, NewState, StoredStep, RemovedStep, ClearedStep;
    var s, op := r.states[k], r.ops[k];
    var view := ViewAfter(v0, RunMessages(r, k));
    StepAt(a, r, k);
    RunMessagesNext(r, k);
    ViewAfterAppend(v0, RunMessages(r, k), Messages(s, op));
    SnapshotAligns(s, view);
    assert op.TakeSnapshot? ==> r.states[k + 1].buckets == s.buckets;
    if AlignedAt(r.ops, k, start) { ReplicaStep(a, s, op, r.oks[k], r.states[k + 1], view); }
  }

  /** Publications are numbered 1, 2, 3, ... and each delta names its predecessor. */
  lemma {:induction false} SequenceChain(a: Addressing, r: Run, k: nat, j: nat)
    requires a.Valid() && r.Valid(a) && k <= |r.ops|
    ensures Chained(r.states[k].pubSeq, RunMessages(r, k), j)
  {
    hide Step, Messages, Chained;
    if k == 0 {
      SequenceStart(j);
    } else {
      SequenceChain(a, r, k - 1, j);
      SequenceChainStep(a, r, k - 1, j);
    }
  }

  lemma SequenceStart(j: nat)
    ensures Chained(0, [], j)
  {}

  ghost predicate Chained(pubSeq: nat, ms: seq<Publication>, j: nat) {
    && pubSeq == |ms| % U64
    && (j < |ms| ==>
          && ms[j].sequence == (j + 1) % U64
          && (ms[j].CkfDelta? ==> ms[j].prevSequence == j % U64))
  }

  lemma ChainedMessages(s: State, op: Op, pubSeq': nat, ms: seq<Publication>, j: nat)
    requires Chained(s.pubSeq, ms, j)
    requires pubSeq' == if Messages(s, op) == [] then s.pubSeq else (s.pubSeq + 1) % U64
    ensures Chained(pubSeq', ms + Messages(s, op), j)
  {
    hide DirtyFrom;
    WrappingSucc(|ms|);
    if Messages(s, op) == [] { assert ms + Messages(s, op) == ms; }
  }

  lemma RunMessagesNext(r: Run, k: nat)
    requires k < |r.ops| < |r.states|
    ensures RunMessages(r, k + 1) == RunMessages(r, k) + Messages(r.states[k], r.ops[k])
  {
    hide Messages;
  }

  lemma SequenceChainStep(a: Addressing, r: Run, k: nat, j: nat)
    requires a.Valid() && r.Valid(a) && k < |r.ops| && Chained(r.states[k].pubSeq, RunMessages(r, k), j)
    ensures Chained(r.states[k + 1].pubSeq, RunMessages(r, k + 1), j)
  {
    hide RunMessages, Messages, Step, Chained, NewState;
    StepAt(a, r, k);
    SequenceStep(a, r.states[k], r.ops[k], r.oks[k], r.states[k + 1]);
    ChainedMessages(r.states[k], r.ops[k], r.states[k + 1].pubSeq, RunMessages(r, k), j);
    RunMessagesNext(r, k);
  }

  lemma WrappingSucc(n: nat)
    ensures (n % U64 + 1) % U64 == (n + 1) % U64
  {
    var q := n / U64;
    assert n == q * U64 + n % U64;
    if n % U64 + 1 == U64 {
      assert n + 1 == (q + 1) * U64;
    }
  }

  lemma SequenceStep(a: Addressing, s: State, op: Op, ok: bool, s': State)
    requires a.Valid() && Step(a, s, op, ok, s')
    ensures s'.pubSeq == if Messages(s, op) == [] then s.pubSeq else (s.pubSeq + 1) % U64
  {
    match op
    case ClearAll(b) =>
      var hs :| Enumerates(hs, HashesOf(s, b)) && s' == ClearedStep(a, s, hs, b);
      ReleasedAllSequence(a, s.(workers := s.workers - {b}), hs, b);
      hide ReleasedAll;
    case _ =>
  }

  lemma {:induction false} ReleasedAllSequence(a: Addressing, s: State, hs: seq<Hash>, b: BackendId)
    requires a.Valid()
    ensures ReleasedAll(a, s, hs, b).pubSeq == s.pubSeq
  {
    hide DirectDelete;
    if hs != [] { ReleasedAllSequence(a, s, hs[..|hs| - 1], b); }
  }
}
