/**
 Safety of the producer over whole runs: ownership is a plain set of (hash, backend)
 pairs, and the fingerprint copies follow the tracked hashes.
 */
module ProducerInvariants {
  import opened CuckooFilter
  import opened Lane
  import opened Ids
  import opened ProducerState
  import opened Insertion

  type Pair = (Hash, BackendId)

  // ---------- what a run amounts to ----------

  /** Ownership after the first `k` operations, as set algebra on (hash, backend) pairs. */
  function PairsAt(ops: seq<Op>, k: nat): set<Pair>
    requires k <= |ops|
  {
    if k == 0 then {} else PairsAfter(PairsAt(ops, k - 1), ops[k - 1])
  }

  function PairsAfter(pairs: set<Pair>, op: Op): set<Pair> {
    match op
    case Store(h, b) => pairs + {(h, b)}
    case Remove(h, b) => pairs - {(h, b)}
    case ClearAll(b) => set p | p in pairs && p.1 != b
    case ResetAll => {}
    case _ => pairs
  }

  /** No insertion has failed since the start or the last reset. */
  predicate ExactAt(r: Run, k: nat)
    requires k <= |r.ops| == |r.oks|
  {
    k == 0 || match r.ops[k - 1] {
      case ResetAll => true
      case Store(_, _) => ExactAt(r, k - 1) && r.oks[k - 1]
      case _ => ExactAt(r, k - 1)
    }
  }

  // ---------- invariants ----------

  /** Both tables are views of one set of pairs. */
  ghost predicate Owns(s: State, pairs: set<Pair>) {
    && (forall h, b :: (h, b) in pairs <==> b in OwnersOf(s, h))
    && (forall h, b :: (h, b) in pairs <==> h in HashesOf(s, b))
    && (forall h :: h in s.entries ==> s.entries[h].refcount == |s.entries[h].owners| && s.entries[h].owners != {})
  }

  /** Number of tracked hashes competing in class (f, i). */
  ghost function Tracked(a: Addressing, hashes: set<Hash>, f: Fp, i: nat): nat {
    |set h | h in hashes && a.InClass(h, f, i)|
  }

  ghost predicate Counted(a: Addressing, s: State, exact: bool)
    requires a.Valid()
  {
    && s.numItems == Occupied(s.buckets)
    && forall f: Fp, i: nat :: f != 0 && i < BUCKETS_PER_LANE ==>
         && Copies(a, s.buckets, f, i) <= Tracked(a, s.entries.Keys, f, i)
         && (exact ==> Copies(a, s.buckets, f, i) == Tracked(a, s.entries.Keys, f, i))
  }

  lemma TrackedAdd(a: Addressing, hashes: set<Hash>, h: Hash, f: Fp, i: nat)
    requires h !in hashes
    ensures Tracked(a, hashes + {h}, f, i) == Tracked(a, hashes, f, i) + (if a.InClass(h, f, i) then 1 else 0)
  {
    var before := set x | x in hashes && a.InClass(x, f, i);
    var after := set x | x in hashes + {h} && a.InClass(x, f, i);
    assert after == if a.InClass(h, f, i) then before + {h} else before;
  }

  lemma EmptyInvariant(a: Addressing, s: State)
    requires a.Valid() && s == NewState().(pubSeq := s.pubSeq)
    ensures Owns(s, {}) && Counted(a, s, true)
  {
    hide Count, Occupied;
    EmptyBucket();
    OccupiedEmpty(EmptyLane());
    forall f: Fp, i: nat | f != 0 && i < BUCKETS_PER_LANE
      ensures Copies(a, EmptyLane(), f, i) == 0 == Tracked(a, {}, f, i)
    {
      assert (set h: Hash | h in {} && a.InClass(h, f, i)) == {};
    }
  }

  lemma JoinedTables(s: State, h: Hash, b: BackendId, x: Hash, y: BackendId)
    ensures OwnersOf(Joined(s, h, b), x) == if x == h then OwnersOf(s, h) + {b} else OwnersOf(s, x)
    ensures HashesOf(Joined(s, h, b), y) == if y == b then HashesOf(s, b) + {h} else HashesOf(s, y)
  {}

  lemma OwnsPair(s: State, pairs: set<Pair>, h: Hash, b: BackendId)
    requires Owns(s, pairs)
    ensures (h, b) in pairs <==> b in OwnersOf(s, h)
    ensures (h, b) in pairs <==> h in HashesOf(s, b)
  {}

  lemma JoinedOwns(s: State, h: Hash, b: BackendId, pairs: set<Pair>)
    requires Owns(s, pairs) && b !in OwnersOf(s, h)
    ensures Owns(Joined(s, h, b), pairs + {(h, b)})
  {
    hide Owns, Joined, OwnersOf, HashesOf;
    var s' := Joined(s, h, b);
    var pairs' := pairs + {(h, b)};
    forall x, y
      ensures (x, y) in pairs' <==> y in OwnersOf(s', x)
      ensures (x, y) in pairs' <==> x in HashesOf(s', y)
    {
      OwnsPair(s, pairs, x, y);
      JoinedTables(s, h, b, x, y);
    }
    forall x | x in s'.entries ensures s'.entries[x].refcount == |s'.entries[x].owners| && s'.entries[x].owners != {} {
      JoinedRefcount(s, h, b, pairs, x);
    }
    OwnsAll(s', pairs');
  }

  lemma OwnsAll(s: State, pairs: set<Pair>)
    requires forall h, b :: (h, b) in pairs <==> b in OwnersOf(s, h)
    requires forall h, b :: (h, b) in pairs <==> h in HashesOf(s, b)
    requires forall h :: h in s.entries ==> s.entries[h].refcount == |s.entries[h].owners| && s.entries[h].owners != {}
    ensures Owns(s, pairs)
  {}

  lemma JoinedRefcount(s: State, h: Hash, b: BackendId, pairs: set<Pair>, x: Hash)
    requires Owns(s, pairs) && b !in OwnersOf(s, h) && x in Joined(s, h, b).entries
    ensures var e := Joined(s, h, b).entries[x]; e.refcount == |e.owners| && e.owners != {}
  {
    assert |OwnersOf(s, h) + {b}| == |OwnersOf(s, h)| + 1;
  }

  lemma InsertedFrame(a: Addressing, s: State, h: Hash, ok: bool, s': State)
    requires a.Valid() && InsertedFp(a, s, h, ok, s')
    ensures s'.entries == s.entries && s'.workers == s.workers && s'.pubSeq == s.pubSeq
  {
    hide InsertedFp, OneMoreCopy, MarksChanges;
    InsertionAddsOne(a, s, h, ok, s');
  }

  lemma StoredOwns(a: Addressing, s: State, h: Hash, b: BackendId, ok: bool, s': State, pairs: set<Pair>)
    requires a.Valid() && Owns(s, pairs) && StoredStep(a, s, h, b, ok, s')
    ensures Owns(s', pairs + {(h, b)})
    ensures b in OwnersOf(s, h) ==> s' == s && ok
  {
    if b in OwnersOf(s, h) {
      assert (h, b) in pairs;
      hide *;
      assert pairs + {(h, b)} == pairs;
    } else {
      JoinedOwns(s, h, b, pairs);
      if OwnersOf(s, h) == {} {
        InsertedFrame(a, Joined(s, h, b), h, ok, s');
        SameTablesOwn(Joined(s, h, b), s', pairs + {(h, b)});
        hide *;
      } else {
        hide *;
      }
    }
  }

  lemma SameTablesOwn(s: State, s': State, pairs: set<Pair>)
    requires Owns(s, pairs) && s'.entries == s.entries && s'.workers == s.workers
    ensures Owns(s', pairs)
  {
    forall h, b
      ensures (h, b) in pairs <==> b in OwnersOf(s', h)
      ensures (h, b) in pairs <==> h in HashesOf(s', b)
    {
      assert OwnersOf(s', h) == OwnersOf(s, h) && HashesOf(s', b) == HashesOf(s, b);
    }
  }

  lemma InsertedCounted(a: Addressing, s: State, t: State, h: Hash, ok: bool, s': State, exact: bool)
    requires a.Valid() && Counted(a, s, exact) && InsertedFp(a, t, h, ok, s')
    requires h !in s.entries.Keys && t.entries.Keys == s.entries.Keys + {h}
    requires t.buckets == s.buckets && t.numItems == s.numItems
    ensures Counted(a, s', exact && ok)
  {
    hide Count, Occupied, Copies, Tracked, InsertedFp, MarksChanges;
    InsertionAddsOne(a, t, h, ok, s');
    assert s'.entries == t.entries;
    forall f: Fp, i: nat { TrackedAdd(a, s.entries.Keys, h, f, i); }
  }

  lemma StoredCounted(a: Addressing, s: State, h: Hash, b: BackendId, ok: bool, s': State, pairs: set<Pair>,
                      exact: bool)
    requires a.Valid() && Owns(s, pairs) && Counted(a, s, exact) && StoredStep(a, s, h, b, ok, s')
    ensures Counted(a, s', exact && ok)
  {
    hide Count, Occupied, Copies, Tracked, InsertedFp, Counted;
    if b !in OwnersOf(s, h) {
      var t := Joined(s, h, b);
      if OwnersOf(s, h) == {} {
        assert h !in s.entries.Keys && t.entries.Keys == s.entries.Keys + {h};
        InsertedCounted(a, s, t, h, ok, s', exact);
      } else {
        assert t.entries.Keys == s.entries.Keys;
        SameTrackedCounted(a, s, t, exact);
      }
    }
  }

  lemma RemovedFrame(a: Addressing, s: State, h: Hash, b: BackendId)
    requires a.Valid() && b in OwnersOf(s, h) && s.entries[h].refcount == |s.entries[h].owners|
    ensures var s', left := RemovedStep(a, s, h, b), s.entries[h].owners - {b};
      && s'.workers == (if b in s.workers then s.workers[b := s.workers[b] - {h}] else s.workers)
      && s'.entries == if left == {} then s.entries - {h} else s.entries[h := HashEntry(|left|, left)]
  {
    hide DirectDelete, Written;
    var left := s.entries[h].owners - {b};
    assert |left| == |s.entries[h].owners| - 1;
  }

  lemma RemovedTables(a: Addressing, s: State, h: Hash, b: BackendId, x: Hash, y: BackendId)
    requires a.Valid() && b in OwnersOf(s, h) && s.entries[h].refcount == |s.entries[h].owners|
    ensures OwnersOf(RemovedStep(a, s, h, b), x) == if x == h then OwnersOf(s, h) - {b} else OwnersOf(s, x)
    ensures HashesOf(RemovedStep(a, s, h, b), y) == if y == b then HashesOf(s, b) - {h} else HashesOf(s, y)
  {
    hide RemovedStep;
    RemovedFrame(a, s, h, b);
  }

  lemma RemovedRefcount(a: Addressing, s: State, h: Hash, b: BackendId, pairs: set<Pair>, x: Hash)
    requires a.Valid() && Owns(s, pairs) && b in OwnersOf(s, h) && x in RemovedStep(a, s, h, b).entries
    ensures var e := RemovedStep(a, s, h, b).entries[x]; e.refcount == |e.owners| && e.owners != {}
  {
    hide RemovedStep;
    RemovedFrame(a, s, h, b);
  }

  lemma RemovedOwns(a: Addressing, s: State, h: Hash, b: BackendId, pairs: set<Pair>)
    requires a.Valid() && Owns(s, pairs)
    ensures Owns(RemovedStep(a, s, h, b), pairs - {(h, b)})
    ensures b !in OwnersOf(s, h) ==> RemovedStep(a, s, h, b) == s
  {
    hide Owns, Released, OwnersOf, HashesOf;
    OwnsPair(s, pairs, h, b);
    if b in OwnersOf(s, h) {
      var s', pairs' := RemovedStep(a, s, h, b), pairs - {(h, b)};
      OwnedRefcount(s, pairs, h, b);
      hide RemovedStep;
      forall x, y
        ensures (x, y) in pairs' <==> y in OwnersOf(s', x)
        ensures (x, y) in pairs' <==> x in HashesOf(s', y)
      {
        OwnsPair(s, pairs, x, y);
        RemovedTables(a, s, h, b, x, y);
      }
      forall x | x in s'.entries
        ensures s'.entries[x].refcount == |s'.entries[x].owners| && s'.entries[x].owners != {}
      {
        RemovedRefcount(a, s, h, b, pairs, x);
      }
      OwnsAll(s', pairs');
    } else {
      assert pairs - {(h, b)} == pairs;
    }
  }

  lemma OwnedRefcount(s: State, pairs: set<Pair>, h: Hash, b: BackendId)
    requires Owns(s, pairs) && b in OwnersOf(s, h)
    ensures h in s.entries && s.entries[h].refcount == |s.entries[h].owners|
  {}

  lemma RemovedCounted(a: Addressing, s: State, h: Hash, b: BackendId, pairs: set<Pair>, exact: bool)
    requires a.Valid() && Owns(s, pairs) && Counted(a, s, exact)
    ensures Counted(a, RemovedStep(a, s, h, b), exact)
  {
    hide Count, Occupied, Copies, Tracked, DirectDelete;
    var s' := RemovedStep(a, s, h, b);
    if b in OwnersOf(s, h) {
      var left := s.entries[h].owners - {b};
      assert |left| == |s.entries[h].owners| - 1;
      if left == {} {
        assert s'.entries.Keys == s.entries.Keys - {h};
        assert s.entries.Keys == s'.entries.Keys + {h};
        forall f: Fp, i: nat | f != 0 && i < BUCKETS_PER_LANE
          ensures Copies(a, s'.buckets, f, i) <= Tracked(a, s'.entries.Keys, f, i)
          ensures exact ==> Copies(a, s'.buckets, f, i) == Tracked(a, s'.entries.Keys, f, i)
        {
          TrackedAdd(a, s'.entries.Keys, h, f, i);
          DirectDeleteCopies(a, s.buckets, h, f, i);
          EmptyClass(a, s.buckets, h, f, i);
        }
        DirectDeleteCopies(a, s.buckets, h, a.probe(h).0, Primary(a, h));
      } else {
        assert |left| > 0;
        assert s'.entries.Keys == s.entries.Keys;
      }
    }
  }

  /** All hashes of one class see the same copies. */
  lemma EmptyClass(a: Addressing, bs: LaneBuckets, h: Hash, f: Fp, i: nat)
    requires a.Valid() && i < BUCKETS_PER_LANE
    ensures a.InClass(h, f, i) ==> Copies(a, bs, f, i) == Copies(a, bs, a.probe(h).0, Primary(a, h))
  {
    hide Count;
    PairSymmetric(a, f, i, Primary(a, h));
  }

  // ---------- clear ----------

  lemma {:induction false} ReleaseIgnoresWorkers(a: Addressing, s: State, h: Hash, b: BackendId,
                                                 w: map<BackendId, set<Hash>>)
    requires a.Valid()
    ensures Released(a, s.(workers := w), h, b) == Released(a, s, h, b).(workers := w)
  {
    hide DirectDelete, Written;
  }

  lemma {:induction false} RemovedAllOwns(a: Addressing, s: State, hs: seq<Hash>, b: BackendId, pairs: set<Pair>,
                                          exact: bool)
    requires a.Valid() && Owns(s, pairs) && Counted(a, s, exact)
    ensures Owns(RemovedAll(a, s, hs, b), set p | p in pairs && !(p.0 in hs && p.1 == b))
    ensures Counted(a, RemovedAll(a, s, hs, b), exact)
  {
    hide Counted, Owns, RemovedStep;
    if hs == [] {
      assert (set p | p in pairs && !(p.0 in hs && p.1 == b)) == pairs;
    } else {
      var n := |hs| - 1;
      RemovedAllOwns(a, s, hs[..n], b, pairs, exact);
      var mid := RemovedAll(a, s, hs[..n], b);
      var rest := set p | p in pairs && !(p.0 in hs[..n] && p.1 == b);
      RemovedOwns(a, mid, hs[n], b, rest);
      RemovedCounted(a, mid, hs[n], b, rest, exact);
      assert hs == hs[..n] + [hs[n]];
      assert (set p | p in pairs && !(p.0 in hs && p.1 == b)) == rest - {(hs[n], b)};
    }
  }

  /**
   Clear is the removal of each of the backend's hashes, in any order: the states
   differ only in the backend's own (then empty) entry of the reverse table.
   */
  lemma {:induction false} ClearIsRemovals(a: Addressing, s: State, hs: seq<Hash>, b: BackendId, pairs: set<Pair>,
                                           exact: bool)
    requires a.Valid() && Owns(s, pairs) && Counted(a, s, exact)
    requires forall h :: h in hs ==> h in HashesOf(s, b)
    requires forall i, j :: 0 <= i < j < |hs| ==> hs[i] != hs[j]
    ensures ClearedStep(a, s, hs, b) ==
            RemovedAll(a, s, hs, b).(workers := RemovedAll(a, s, hs, b).workers - {b})
  {
    hide Released, Counted, RemovedStep;
    if hs != [] {
      var n := |hs| - 1;
      var h := hs[n];
      ClearIsRemovals(a, s, hs[..n], b, pairs, exact);
      RemovedAllOwns(a, s, hs[..n], b, pairs, exact);
      var mid := RemovedAll(a, s, hs[..n], b);
      var rest := set p | p in pairs && !(p.0 in hs[..n] && p.1 == b);
      assert h !in hs[..n] && h in HashesOf(s, b) && (h, b) in pairs;
      assert (h, b) in rest;
      RemovalIgnoresWorker(a, mid, h, b, rest);
    }
  }

  /** Removing a held hash does the same with the backend's reverse entry already gone. */
  lemma RemovalIgnoresWorker(a: Addressing, s: State, h: Hash, b: BackendId, pairs: set<Pair>)
    requires a.Valid() && Owns(s, pairs) && (h, b) in pairs
    ensures Released(a, s.(workers := s.workers - {b}), h, b) ==
            RemovedStep(a, s, h, b).(workers := RemovedStep(a, s, h, b).workers - {b})
  {
    assert b in OwnersOf(s, h) && h in HashesOf(s, b);
    var w := s.workers[b := s.workers[b] - {h}];
    ReleaseIgnoresWorkers(a, s, h, b, s.workers - {b});
    ReleaseIgnoresWorkers(a, s, h, b, w);
    assert w - {b} == s.workers - {b};
    hide Released, Owns;
  }

  lemma DroppedWorkerOwns(s: State, b: BackendId, pairs: set<Pair>)
    requires Owns(s, pairs) && forall p :: p in pairs ==> p.1 != b
    ensures Owns(s.(workers := s.workers - {b}), pairs)
  {}

  lemma ClearedInvariant(a: Addressing, s: State, hs: seq<Hash>, b: BackendId, pairs: set<Pair>, exact: bool)
    requires a.Valid() && Owns(s, pairs) && Counted(a, s, exact)
    requires Enumerates(hs, HashesOf(s, b))
    ensures Owns(ClearedStep(a, s, hs, b), PairsAfter(pairs, ClearAll(b)))
    ensures Counted(a, ClearedStep(a, s, hs, b), exact)
  {
    hide RemovedAll, ClearedStep, Counted;
    ClearIsRemovals(a, s, hs, b, pairs, exact);
    RemovedAllOwns(a, s, hs, b, pairs, exact);
    var rest := set p | p in pairs && !(p.0 in hs && p.1 == b);
    assert rest == PairsAfter(pairs, ClearAll(b)) by {
      forall p | p in pairs && p.1 == b ensures p.0 in hs {
        var (h, _) := p;
        assert (h, b) in pairs <==> h in HashesOf(s, b);
      }
    }
    DroppedWorkerOwns(RemovedAll(a, s, hs, b), b, rest);
    SameTrackedCounted(a, RemovedAll(a, s, hs, b), ClearedStep(a, s, hs, b), exact);
    hide Owns;
  }

  // ---------- runs ----------

  lemma StepInvariant(a: Addressing, s: State, op: Op, ok: bool, s': State, pairs: set<Pair>, exact: bool)
    requires a.Valid() && Owns(s, pairs) && Counted(a, s, exact) && Step(a, s, op, ok, s')
    ensures Owns(s', PairsAfter(pairs, op))
    ensures Counted(a, s', op.ResetAll? || (exact && ok))
  {
    hide Owns, Counted, StoredStep, RemovedStep, ClearedStep, NewState;
    match op
    case Store(h, b) =>
      StoredOwns(a, s, h, b, ok, s', pairs);
      StoredCounted(a, s, h, b, ok, s', pairs, exact);
    case Remove(h, b) =>
      RemovedOwns(a, s, h, b, pairs);
      RemovedCounted(a, s, h, b, pairs, exact);
    case ClearAll(b) =>
      var hs :| Enumerates(hs, HashesOf(s, b)) && s' == ClearedStep(a, s, hs, b);
      ClearedInvariant(a, s, hs, b, pairs, exact);
    case ResetAll =>
      EmptyInvariant(a, s');
    case _ =>
      SameTablesOwn(s, s', pairs);
      SameTrackedCounted(a, s, s', exact);
  }

  lemma SameTrackedCounted(a: Addressing, s: State, s': State, exact: bool)
    requires a.Valid() && Counted(a, s, exact)
    requires s'.buckets == s.buckets && s'.entries.Keys == s.entries.Keys && s'.numItems == s.numItems
    ensures Counted(a, s', exact)
  {
    hide Occupied, Copies, Tracked;
  }

  lemma StepAt(a: Addressing, r: Run, k: nat)
    requires a.Valid() && r.Valid(a) && k < |r.ops|
    ensures Step(a, r.states[k], r.ops[k], r.oks[k], r.states[k + 1])
  {
    hide Step, NewState;
    assert r.TakesStep(a, k);
  }

  lemma OnlyStoresFail(a: Addressing, s: State, op: Op, ok: bool, s': State)
    requires a.Valid() && Step(a, s, op, ok, s')
    ensures !op.Store? ==> ok
  {
    hide StoredStep, RemovedStep, ClearedStep;
  }

  lemma RunConservesStep(a: Addressing, r: Run, k: nat)
    requires a.Valid() && r.Valid(a) && k < |r.ops|
    requires Owns(r.states[k], PairsAt(r.ops, k)) && Counted(a, r.states[k], ExactAt(r, k))
    ensures Owns(r.states[k + 1], PairsAt(r.ops, k + 1)) && Counted(a, r.states[k + 1], ExactAt(r, k + 1))
  {
    hide Owns, Counted, Step, NewState, PairsAfter;
    var op, ok := r.ops[k], r.oks[k];
    StepAt(a, r, k);
    OnlyStoresFail(a, r.states[k], op, ok, r.states[k + 1]);
    StepInvariant(a, r.states[k], op, ok, r.states[k + 1], PairsAt(r.ops, k), ExactAt(r, k));
    assert ExactAt(r, k + 1) == (op.ResetAll? || (ExactAt(r, k) && ok));
  }

  lemma RunConservesStart(a: Addressing, r: Run)
    requires a.Valid() && r.Valid(a)
    ensures Owns(r.states[0], PairsAt(r.ops, 0)) && Counted(a, r.states[0], ExactAt(r, 0))
  {
    hide Owns, Counted, Step;
    EmptyInvariant(a, r.states[0]);
  }

  /**
   After every run: the tables refine the set of pairs; the copies of every class are
   at most the tracked hashes of that class, and exactly those when no insertion has
   failed since the last reset; the item counter is the number of occupied slots.
   */
  lemma {:induction false} RunConserves(a: Addressing, r: Run, k: nat)
    requires a.Valid() && r.Valid(a) && k <= |r.ops|
    ensures Owns(r.states[k], PairsAt(r.ops, k))
    ensures Counted(a, r.states[k], ExactAt(r, k))
  {
    hide Owns, Counted, Step, NewState, ExactAt, PairsAt;
    if k == 0 {
      RunConservesStart(a, r);
    } else {
      RunConserves(a, r, k - 1);
      RunConservesStep(a, r, k - 1);
    }
  }

  /**
   Two buckets of four slots hold at most eight copies, so a run that tracks nine hashes of a
   class has failed to place one.
   */
  lemma ClassOfNineIsInexact(a: Addressing, r: Run, k: nat, f: Fp, i: nat)
    requires a.Valid() && r.Valid(a) && k <= |r.ops| && f != 0 && i < BUCKETS_PER_LANE
    requires Tracked(a, r.states[k].entries.Keys, f, i) > 2 * FP_PER_BUCKET
    ensures !ExactAt(r, k)
  {
    hide Owns, Tracked, Step, NewState, ExactAt;
    RunConserves(a, r, k);
  }
}
