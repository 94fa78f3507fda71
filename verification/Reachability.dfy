/**
 Runs that exist: whatever the state, every operation can be taken, so a list of
 operations can always be run. Used to show failing behaviour on reachable states.
 */
module Reachability {
  import opened CuckooFilter
  import opened Collisions
  import opened Lane
  import opened Ids
  import opened ProducerState
  import opened ProducerInvariants
  import opened FailedInsertions

  // ---------- every operation can be taken ----------

  /** Some outcome of an insertion: the draws are all zero, up to room or to the limit. */
  lemma InsertionTotal(a: Addressing, s: State, h: Hash) returns (ok: bool, s': State)
    requires a.Valid()
    ensures InsertedFp(a, s, h, ok, s')
  {
    var w := DirectInsert(a, s.buckets, h);
    if w.Some? {
      ok, s' := true, s.(buckets := Written(s.buckets, w), dirty := s.dirty + {w.value.0}, numItems := s.numItems + 1);
    } else {
      hide DirectInsert;
      var slots;
      ok, s', slots := KicksEnd(a, s, h, []);
      assert EvictedFp(a, s, h, Primary(a, h), slots, ok, s');
      hide *;
      hide EvictedFp;
    }
  }

  lemma {:induction false} KicksEnd(a: Addressing, s: State, h: Hash, slots: seq<nat>)
    returns (ok: bool, s': State, all: seq<nat>)
    requires a.Valid() && |slots| < MAX_KICKS
    requires forall n :: 0 <= n < |slots| ==> slots[n] < FP_PER_BUCKET
    requires NoRoom(a, s.buckets, a.probe(h).0, Primary(a, h), slots)
    ensures EvictedFp(a, s, h, Primary(a, h), all, ok, s')
    decreases MAX_KICKS - |slots|
  {
    hide Kick, HasRoom, Landed, TouchedBuckets;
    all := slots + [0];
    assert all[..|slots|] == slots;
    var k := Kicked(a, s.buckets, a.probe(h).0, Primary(a, h), all);
    ok := HasRoom(k);
    if ok {
      s' := s.(buckets := Landed(k), dirty := s.dirty + {k.bucket} + TouchedBuckets(k.touched),
               numItems := s.numItems + 1);
    } else if |all| == MAX_KICKS {
      s' := s;
    } else {
      ok, s', all := KicksEnd(a, s, h, all);
    }
  }

  lemma StoreTotal(a: Addressing, s: State, h: Hash, b: BackendId) returns (ok: bool, s': State)
    requires a.Valid()
    ensures Step(a, s, Store(h, b), ok, s')
  {
    hide InsertedFp;
    ok := true;
    if b in OwnersOf(s, h) {
      s' := s;
    } else if OwnersOf(s, h) == {} {
      ok, s' := InsertionTotal(a, Joined(s, h, b), h);
    } else {
      s' := Joined(s, h, b);
    }
  }

  lemma ClearTotal(a: Addressing, s: State, b: BackendId) returns (s': State)
    requires a.Valid()
    ensures Step(a, s, ClearAll(b), true, s')
  {
    hide ClearedStep, HashesOf;
    var hs := Listed(HashesOf(s, b));
    s' := ClearedStep(a, s, hs, b);
    assert Enumerates(hs, HashesOf(s, b)) && s' == ClearedStep(a, s, hs, b);
  }

  lemma {:induction false} Listed(all: set<Hash>) returns (hs: seq<Hash>)
    ensures Enumerates(hs, all)
  {
    hs := [];
    if all != {} {
      var h :| h in all;
      hs := Listed(all - {h});
      hs := hs + [h];
    }
  }

  lemma StepTotal(a: Addressing, s: State, op: Op) returns (ok: bool, s': State)
    requires a.Valid()
    ensures Step(a, s, op, ok, s')
  {
    hide StoredStep, RemovedStep, ClearedStep, ResetState, Published;
    ok := true;
    match op
    case Store(h, b) => ok, s' := StoreTotal(a, s, h, b);
    case Remove(h, b) => s' := RemovedStep(a, s, h, b);
    case ClearAll(b) => s' := ClearTotal(a, s, b);
    case ResetAll => s' := ResetState(s);
    case TakeSnapshot => s' := Published(s);
    case TakeDelta => s' := if s.dirty == {} then s else Published(s);
  }

  /** Every list of operations can be run. */
  lemma {:induction false} RunExists(a: Addressing, ops: seq<Op>) returns (r: Run)
    requires a.Valid()
    ensures r.Valid(a) && r.ops == ops
  {
    hide Step, NewState;
    if ops == [] {
      r := Run([], [], [NewState()]);
    } else {
      var n := |ops| - 1;
      var before := RunExists(a, ops[..n]);
      var ok, s' := StepTotal(a, before.states[n], ops[n]);
      RunThen(a, before, before.states[n], ops[n], ok, s');
      r := before.Then(ops[n], ok, s');
      assert ops[..n] + [ops[n]] == ops;
    }
  }

  // ---------- more siblings than a class has slots ----------

  ghost predicate Siblings(a: Addressing, hs: seq<Hash>)
    requires a.Valid() && hs != []
  {
    && (forall m, n :: 0 <= m < n < |hs| ==> hs[m] != hs[n])
    && forall n :: 0 <= n < |hs| ==> a.InClass(hs[n], a.probe(hs[0]).0, Primary(a, hs[0]))
  }

  /** Store all, then remove all but the last. */
  ghost predicate StoresThenRemoves(ops: seq<Op>, hs: seq<Hash>, b: BackendId) {
    && |ops| == |hs| + |hs| - 1
    && (forall n :: 0 <= n < |hs| ==> ops[n] == Store(hs[n], b))
    && forall n :: 0 <= n < |hs| - 1 ==> ops[|hs| + n] == Remove(hs[n], b)
  }

  function OwnedBy(hs: seq<Hash>, b: BackendId): set<Pair> { set h | h in hs :: (h, b) }

  lemma {:induction false} PairsStored(ops: seq<Op>, hs: seq<Hash>, b: BackendId, k: nat)
    requires StoresThenRemoves(ops, hs, b) && k <= |hs|
    ensures PairsAt(ops, k) == OwnedBy(hs[..k], b)
  {
    if k > 0 {
      PairsStored(ops, hs, b, k - 1);
      assert hs[..k] == hs[..k - 1] + [hs[k - 1]];
    }
  }

  lemma {:induction false} PairsLeft(a: Addressing, ops: seq<Op>, hs: seq<Hash>, b: BackendId, k: nat)
    requires a.Valid() && hs != [] && Siblings(a, hs) && StoresThenRemoves(ops, hs, b) && k < |hs|
    ensures PairsAt(ops, |hs| + k) == OwnedBy(hs[k..], b)
  {
    hide OwnedBy, Addressing.InClass;
    if k == 0 {
      PairsStored(ops, hs, b, |hs|);
      assert hs[..|hs|] == hs == hs[0..];
    } else {
      PairsLeft(a, ops, hs, b, k - 1);
      assert hs[k - 1..] == [hs[k - 1]] + hs[k..];
      OneFewer(hs[k - 1], hs[k..], b);
    }
  }

  lemma OneFewer(h: Hash, hs: seq<Hash>, b: BackendId)
    requires h !in hs
    ensures OwnedBy([h] + hs, b) - {(h, b)} == OwnedBy(hs, b)
  {}

  /** Each removal deletes a copy as long as there is one. */
  lemma {:induction false} CopiesLeft(a: Addressing, r: Run, hs: seq<Hash>, b: BackendId, k: nat)
    requires a.Valid() && hs != [] && Siblings(a, hs) && r.Valid(a) && StoresThenRemoves(r.ops, hs, b) && k < |hs|
    ensures Copies(a, r.states[|hs| + k].buckets, a.probe(hs[0]).0, Primary(a, hs[0])) <= Minus(2 * FP_PER_BUCKET, k)
  {
    hide Copies, Tracked, Owns, Counted, NewState, PairsAt, RemovedStep, ExactAt, OwnersOf, StoredStep, ClearedStep;
    var f, i := a.probe(hs[0]).0, Primary(a, hs[0]);
    if k == 0 {
      AtMostEight(a, r.states[|hs|].buckets, f, i);
    } else {
      var n := |hs| + k - 1;
      CopiesLeft(a, r, hs, b, k - 1);
      PairsLeft(a, r.ops, hs, b, k - 1);
      RunConserves(a, r, n);
      StepAt(a, r, n);
      LastOwnerRemoved(a, r.states[n], hs[k - 1..], hs[k - 1], b, f, i);
    }
  }

  lemma LastOwnerRemoved(a: Addressing, s: State, hs: seq<Hash>, h: Hash, b: BackendId, f: Fp, i: nat)
    requires a.Valid() && Owns(s, OwnedBy(hs, b)) && h in hs && f != 0 && i < BUCKETS_PER_LANE && a.InClass(h, f, i)
    ensures Copies(a, RemovedStep(a, s, h, b).buckets, f, i) == Minus(Copies(a, s.buckets, f, i), 1)
  {
    hide Copies, Tracked, Owns, RemovedStep, OwnersOf;
    SoleOwner(s, hs, h, b);
    RemovedBalance(a, s, h, b, OwnedBy(hs, b), f, i);
    assert LastOwned(s, {h}, b) == {h};
    TrackedOne(a, h, f, i);
  }

  lemma AtMostEight(a: Addressing, bs: LaneBuckets, f: Fp, i: nat)
    requires a.Valid() && i < BUCKETS_PER_LANE
    ensures Copies(a, bs, f, i) <= 2 * FP_PER_BUCKET
  {}

  lemma SoleOwner(s: State, hs: seq<Hash>, h: Hash, b: BackendId)
    requires Owns(s, OwnedBy(hs, b)) && h in hs
    ensures OwnersOf(s, h) == {b}
  {
    hide Owns, OwnersOf;
    forall x ensures x in OwnersOf(s, h) <==> x == b {
      OwnsPair(s, OwnedBy(hs, b), h, x);
    }
  }

  /**
   Nine or more siblings stored and all but the last removed, in every run: an insertion
   has failed on the way, and the last hash is owned with no copy in either of its buckets.
   */
  lemma SiblingLosesItsCopy(a: Addressing, r: Run, hs: seq<Hash>, b: BackendId)
    requires a.Valid() && |hs| > 2 * FP_PER_BUCKET && Siblings(a, hs)
    requires r.Valid(a) && StoresThenRemoves(r.ops, hs, b)
    ensures var s, h := r.states[|r.ops|], hs[|hs| - 1];
      && OwnersOf(s, h) == {b}
      && Copies(a, s.buckets, a.probe(h).0, Primary(a, h)) == 0
      && FailedAt(a, r, |r.ops|, a.probe(h).0, Primary(a, h)) > 0
  {
    hide Copies, Tracked, Owns, Counted, NewState, Step, PairsAt, FailedAt, MissedAt, ExactAt, OwnersOf;
    var k := |hs| - 1;
    var s, h := r.states[|r.ops|], hs[k];
    var f, i := a.probe(h).0, Primary(a, h);
    CopiesLeft(a, r, hs, b, k);
    EmptyClass(a, s.buckets, h, a.probe(hs[0]).0, Primary(a, hs[0]));
    PairsLeft(a, r.ops, hs, b, k);
    RunConserves(a, r, |r.ops|);
    SoleOwner(s, hs[k..], h, b);
    RunBalance(a, r, |r.ops|, f, i);
    OwnedIsTracked(a, s, h, b, f, i);
  }

  lemma OwnedIsTracked(a: Addressing, s: State, h: Hash, b: BackendId, f: Fp, i: nat)
    requires a.Valid() && OwnersOf(s, h) == {b} && a.InClass(h, f, i)
    ensures Tracked(a, s.entries.Keys, f, i) > 0
  {
    var rivals := set x | x in s.entries.Keys && a.InClass(x, f, i);
    assert h in rivals;
    assert |rivals| == Tracked(a, s.entries.Keys, f, i);
  }

  /** Such siblings, and so such a run, exist under every addressing. */
  lemma SiblingLossIsReachable(a: Addressing, b: BackendId) returns (r: Run, h: Hash)
    requires a.Valid()
    ensures r.Valid(a) && OwnersOf(r.states[|r.ops|], h) == {b}
    ensures Copies(a, r.states[|r.ops|].buckets, a.probe(h).0, Primary(a, h)) == 0
  {
    hide Copies, OwnersOf, FailedAt, Step, NewState, SamePlace;
    var hs := NineInOnePlace(a);
    SamePlaceSiblings(a, hs);
    r := RunExists(a, StoreNineRemoveEight(hs, b));
    h := hs[8];
    SiblingLosesItsCopy(a, r, hs, b);
  }

  function StoreNineRemoveEight(hs: seq<Hash>, b: BackendId): (ops: seq<Op>)
    requires |hs| == 9
    ensures StoresThenRemoves(ops, hs, b)
  {
    seq(17, n requires 0 <= n < 17 => if n < 9 then Store(hs[n], b) else Remove(hs[n - 9], b))
  }

  lemma SamePlaceSiblings(a: Addressing, hs: seq<Hash>)
    requires a.Valid() && hs != [] && SamePlace(a, hs)
    ensures Siblings(a, hs)
  {
    forall n | 0 <= n < |hs| ensures a.InClass(hs[n], a.probe(hs[0]).0, Primary(a, hs[0])) {
      assert n > 0 ==> a.probe(hs[0]) == a.probe(hs[n]);
    }
  }
}
