/** Which buckets an operation marks dirty: those it changes and no other, but for an eviction chain. */
module DirtyMarks {
  import opened CuckooFilter
  import opened Lane
  import opened Ids
  import opened ProducerState

  /** The marks grow by exactly the buckets whose words differ. */
  ghost predicate MarkedExactly(s: State, s': State) {
    forall i: nat :: i in s'.dirty <==> i in s.dirty || (i < BUCKETS_PER_LANE && s'.buckets[i] != s.buckets[i])
  }

  /** Every bucket is as it was or has more room. */
  ghost predicate OnlyFrees(s: State, s': State) {
    forall i :: 0 <= i < BUCKETS_PER_LANE ==>
                  s'.buckets[i] == s.buckets[i] || Count(s'.buckets[i], 0) > Count(s.buckets[i], 0)
  }

  lemma InsertChanges(b: PackedBucket, fp: Fp)
    requires fp != 0 && TryInsert(b, fp).Some?
    ensures TryInsert(b, fp).value != b
  {
    TryInsertCount(b, fp, fp);
    hide TryInsert, Count;
  }

  lemma DeleteFrees(b: PackedBucket, fp: Fp)
    requires fp != 0 && TryDelete(b, fp).Some?
    ensures Count(TryDelete(b, fp).value, 0) > Count(b, 0)
  {
    TryDeleteCount(b, fp, 0);
    hide TryDelete, Count;
  }

  lemma DeletedMarksExactly(a: Addressing, s: State, h: Hash)
    requires a.Valid()
    ensures MarkedExactly(s, DeletedFp(a, s, h)) && OnlyFrees(s, DeletedFp(a, s, h))
  {
    hide TryDelete, Count;
    var w := DirectDelete(a, s.buckets, h);
    if w.Some? { DeleteFrees(s.buckets[w.value.0], a.probe(h).0); }
  }

  lemma ReleasedMarksExactly(a: Addressing, s: State, h: Hash, b: BackendId)
    requires a.Valid()
    ensures MarkedExactly(s, Released(a, s, h, b)) && OnlyFrees(s, Released(a, s, h, b))
  {
    hide DeletedFp, Count;
    DeletedMarksExactly(a, s, h);
  }

  /** What frees room never gives a word back, so the marks of two such changes add up. */
  lemma MarksAddUp(s: State, m: State, s': State)
    requires MarkedExactly(s, m) && OnlyFrees(s, m) && MarkedExactly(m, s') && OnlyFrees(m, s')
    ensures MarkedExactly(s, s') && OnlyFrees(s, s')
  {
    hide Count;
  }

  lemma {:induction false} ReleasedAllMarksExactly(a: Addressing, s: State, hs: seq<Hash>, b: BackendId)
    requires a.Valid()
    ensures MarkedExactly(s, ReleasedAll(a, s, hs, b)) && OnlyFrees(s, ReleasedAll(a, s, hs, b))
  {
    hide Released, Count;
    if hs != [] {
      var m := ReleasedAll(a, s, hs[..|hs| - 1], b);
      ReleasedAllMarksExactly(a, s, hs[..|hs| - 1], b);
      ReleasedMarksExactly(a, m, hs[|hs| - 1], b);
      MarksAddUp(s, m, ReleasedAll(a, s, hs, b));
    }
  }

  lemma DirectInsertMarksExactly(a: Addressing, s: State, h: Hash, ok: bool, s': State)
    requires a.Valid() && InsertedFp(a, s, h, ok, s') && DirectInsert(a, s.buckets, h).Some?
    ensures MarkedExactly(s, s')
  {
    hide TryInsert;
    var w := DirectInsert(a, s.buckets, h).value;
    InsertChanges(s.buckets[w.0], a.probe(h).0);
  }

  lemma {:induction false} TouchedAtMost(touched: seq<(nat, PackedBucket)>)
    ensures |TouchedBuckets(touched)| <= |touched|
  {
    if touched != [] {
      var n := |touched| - 1;
      TouchedAtMost(touched[..n]);
      TouchedLast(touched);
    }
    hide TouchedBuckets;
  }

  lemma TouchedLast(touched: seq<(nat, PackedBucket)>)
    requires touched != []
    ensures TouchedBuckets(touched) == TouchedBuckets(touched[..|touched| - 1]) + {touched[|touched| - 1].0}
  {
    var n := |touched| - 1;
    forall i | i in TouchedBuckets(touched)
      ensures i in TouchedBuckets(touched[..n]) || i == touched[n].0
    {
      var k :| 0 <= k < |touched| && touched[k].0 == i;
      if k < n { assert touched[..n][k] == touched[k]; }
    }
    forall k | 0 <= k < n ensures touched[k].0 in TouchedBuckets(touched) {}
    assert touched[n].0 in TouchedBuckets(touched);
  }

  lemma {:induction false} KickedTouches(a: Addressing, bs: LaneBuckets, fp: Fp, home: nat, slots: seq<nat>)
    requires a.Valid() && home < BUCKETS_PER_LANE
    requires forall n :: 0 <= n < |slots| ==> slots[n] < FP_PER_BUCKET
    ensures |Kicked(a, bs, fp, home, slots).touched| == |slots|
  {
    if slots != [] { KickedTouches(a, bs, fp, home, slots[..|slots| - 1]); }
  }

  /** An eviction chain marks at most one bucket a kick, and the one it ends in. */
  lemma EvictionMarksFew(a: Addressing, s: State, h: Hash, home: nat, slots: seq<nat>, s': State)
    requires a.Valid() && EvictedFp(a, s, h, home, slots, true, s')
    ensures |s'.dirty - s.dirty| <= |slots| + 1
  {
    hide TouchedBuckets, Kicked, NoRoom, HasRoom, Landed;
    var k := Kicked(a, s.buckets, a.probe(h).0, home, slots);
    KickedTouches(a, s.buckets, a.probe(h).0, home, slots);
    TouchedAtMost(k.touched);
    FewMore(s.dirty, TouchedBuckets(k.touched), k.bucket);
    assert s'.dirty == s.dirty + {k.bucket} + TouchedBuckets(k.touched);
  }

  lemma FewMore(dirty: set<nat>, touched: set<nat>, last: nat)
    ensures |(dirty + {last} + touched) - dirty| <= |touched| + 1
  {
    var all := touched + {last};
    Smaller((dirty + {last} + touched) - dirty, all);
  }

  lemma {:induction false} Smaller(x: set<nat>, y: set<nat>)
    requires x <= y
    ensures |x| <= |y|
  {
    if x != {} {
      var i :| i in x;
      Smaller(x - {i}, y - {i});
    }
  }

  /** A Stored that evicts: its hash is new and both its buckets are full. */
  predicate Evicts(a: Addressing, s: State, op: Op, ok: bool)
    requires a.Valid()
  {
    op.Store? && ok && OwnersOf(s, op.hash) == {} && DirectInsert(a, s.buckets, op.hash).None?
  }

  /**
   Stored, Removed and Clear mark exactly the buckets whose words they change; only a
   Stored that evicts may mark more, no more than one for each of its kicks and one.
   */
  lemma StepMarksExactly(a: Addressing, s: State, op: Op, ok: bool, s': State)
    requires a.Valid() && Step(a, s, op, ok, s') && (op.Store? || op.Remove? || op.ClearAll?)
    ensures !Evicts(a, s, op, ok) ==> MarkedExactly(s, s')
    ensures Evicts(a, s, op, ok) ==> |s'.dirty - s.dirty| <= MAX_KICKS + 1
  {
    hide DirectInsert, EvictedFp, MarkedExactly, Released, ReleasedAll;
    match op
    case Store(h, b) => StoredMarks(a, s, h, b, ok, s');
    case Remove(h, b) => RemovedMarks(a, s, h, b);
    case ClearAll(b) => ClearedMarks(a, s, op.backend, s');
  }

  lemma RemovedMarks(a: Addressing, s: State, h: Hash, b: BackendId)
    requires a.Valid()
    ensures MarkedExactly(s, RemovedStep(a, s, h, b))
  {
    hide Released;
    ReleasedMarksExactly(a, s.(workers := if b in s.workers then s.workers[b := s.workers[b] - {h}] else s.workers),
                         h, b);
  }

  lemma ClearedMarks(a: Addressing, s: State, b: BackendId, s': State)
    requires a.Valid() && Step(a, s, ClearAll(b), true, s')
    ensures MarkedExactly(s, s')
  {
    hide ReleasedAll, Enumerates;
    var hs :| Enumerates(hs, HashesOf(s, b)) && s' == ClearedStep(a, s, hs, b);
    ReleasedAllMarksExactly(a, s.(workers := s.workers - {b}), hs, b);
  }

  lemma InsertedMarks(a: Addressing, s: State, h: Hash, ok: bool, s': State)
    requires a.Valid() && InsertedFp(a, s, h, ok, s')
    ensures DirectInsert(a, s.buckets, h).Some? || !ok ==> MarkedExactly(s, s')
    ensures DirectInsert(a, s.buckets, h).None? && ok ==> |s'.dirty - s.dirty| <= MAX_KICKS + 1
  {
    hide DirectInsert, EvictedFp;
    if DirectInsert(a, s.buckets, h).Some? {
      DirectInsertMarksExactly(a, s, h, ok, s');
    } else {
      var home, slots :| EvictedFp(a, s, h, home, slots, ok, s');
      EvictionMarks(a, s, h, home, slots, ok, s');
    }
  }

  lemma JoinedKeeps(s: State, h: Hash, b: BackendId, s': State)
    ensures Joined(s, h, b).dirty == s.dirty && Joined(s, h, b).buckets == s.buckets
    ensures MarkedExactly(Joined(s, h, b), s') ==> MarkedExactly(s, s')
  {}

  lemma StoredMarks(a: Addressing, s: State, h: Hash, b: BackendId, ok: bool, s': State)
    requires a.Valid() && StoredStep(a, s, h, b, ok, s')
    ensures !Evicts(a, s, Store(h, b), ok) ==> MarkedExactly(s, s')
    ensures Evicts(a, s, Store(h, b), ok) ==> |s'.dirty - s.dirty| <= MAX_KICKS + 1
  {
    hide DirectInsert, InsertedFp, Joined, OwnersOf, MarkedExactly;
    JoinedKeeps(s, h, b, s');
    UnchangedMarks(s');
    if b !in OwnersOf(s, h) && OwnersOf(s, h) == {} {
      InsertedMarks(a, Joined(s, h, b), h, ok, s');
    }
  }

  lemma UnchangedMarks(s: State)
    ensures MarkedExactly(s, s)
  {}

  lemma EvictionMarks(a: Addressing, s: State, h: Hash, home: nat, slots: seq<nat>, ok: bool, s': State)
    requires a.Valid() && EvictedFp(a, s, h, home, slots, ok, s')
    ensures if ok then |s'.dirty - s.dirty| <= MAX_KICKS + 1 else s' == s
  {
    hide TouchedBuckets, Kicked, NoRoom, HasRoom, Landed;
    if ok { EvictionMarksFew(a, s, h, home, slots, s'); }
  }
}
