/**
 What failed insertions cost. A hash that found no room stays tracked, so the copies of a
 class fall behind its tracked hashes; and its removal, or a sibling's, may later find no
 copy, which evens the score. The balance is exact over every run.
 */
module FailedInsertions {
  import opened CuckooFilter
  import opened Lane
  import opened Ids
  import opened ProducerState
  import opened Insertion
  import opened ProducerInvariants

  // ---------- the counters ----------

  function Minus(x: nat, y: nat): nat { if x <= y then 0 else x - y }

  function Elements(hs: seq<Hash>): set<Hash> { set h | h in hs }

  /** The hashes among `hs` that would lose their last owner with `b`. */
  function LastOwned(s: State, hs: set<Hash>, b: BackendId): set<Hash> {
    set h | h in hs && OwnersOf(s, h) == {b}
  }

  /** The hashes whose last owner the operation removes. */
  function Dropped(s: State, op: Op): set<Hash> {
    match op
    case Remove(h, b) => LastOwned(s, {h}, b)
    case ClearAll(b) => LastOwned(s, HashesOf(s, b), b)
    case _ => {}
  }

  /** How many of them find no copy of their class left to delete. */
  ghost function MissedBy(a: Addressing, s: State, op: Op, f: Fp, i: nat): nat
    requires a.Valid() && i < BUCKETS_PER_LANE
  {
    Minus(Tracked(a, Dropped(s, op), f, i), Copies(a, s.buckets, f, i))
  }

  function FailedBy(a: Addressing, op: Op, ok: bool, f: Fp, i: nat): nat {
    if op.Store? && !ok && a.InClass(op.hash, f, i) then 1 else 0
  }

  /** Insertions of the class that failed since the start or the last reset. */
  function FailedAt(a: Addressing, r: Run, k: nat, f: Fp, i: nat): nat
    requires k <= |r.ops| == |r.oks|
  {
    if k == 0 || r.ops[k - 1].ResetAll? then 0
    else FailedAt(a, r, k - 1, f, i) + FailedBy(a, r.ops[k - 1], r.oks[k - 1], f, i)
  }

  /** Last-owner removals of the class, since the start or the last reset, that found no copy. */
  ghost function MissedAt(a: Addressing, r: Run, k: nat, f: Fp, i: nat): nat
    requires a.Valid() && k <= |r.ops| < |r.states| && i < BUCKETS_PER_LANE
  {
    if k == 0 || r.ops[k - 1].ResetAll? then 0
    else MissedAt(a, r, k - 1, f, i) + MissedBy(a, r.states[k - 1], r.ops[k - 1], f, i)
  }

  // ---------- one operation ----------

  lemma TrackedMinus(a: Addressing, hashes: set<Hash>, gone: set<Hash>, f: Fp, i: nat)
    requires gone <= hashes
    ensures Tracked(a, hashes, f, i) == Tracked(a, hashes - gone, f, i) + Tracked(a, gone, f, i)
  {
    var all := set x | x in hashes && a.InClass(x, f, i);
    var left := set x | x in hashes - gone && a.InClass(x, f, i);
    var lost := set x | x in gone && a.InClass(x, f, i);
    assert all == left + lost && left !! lost;
  }

  lemma TrackedNone(a: Addressing, f: Fp, i: nat)
    ensures Tracked(a, {}, f, i) == 0
  {
    assert (set x: Hash | x in {} && a.InClass(x, f, i)) == {};
  }

  lemma TrackedOne(a: Addressing, h: Hash, f: Fp, i: nat)
    ensures Tracked(a, {h}, f, i) == if a.InClass(h, f, i) then 1 else 0
  {
    hide Tracked;
    TrackedNone(a, f, i);
    TrackedAdd(a, {}, h, f, i);
    assert {} + {h} == {h};
  }

  /** A removal deletes a copy for the hash it drops, if the class has one left. */
  lemma RemovedBalance(a: Addressing, s: State, h: Hash, b: BackendId, pairs: set<Pair>, f: Fp, i: nat)
    requires a.Valid() && Owns(s, pairs) && f != 0 && i < BUCKETS_PER_LANE
    ensures var s', last := RemovedStep(a, s, h, b), LastOwned(s, {h}, b);
      && s'.entries.Keys == s.entries.Keys - last && last <= s.entries.Keys
      && Copies(a, s'.buckets, f, i) == Minus(Copies(a, s.buckets, f, i), Tracked(a, last, f, i))
  {
    hide Count, Occupied, Copies, Tracked, DirectDelete;
    TrackedNone(a, f, i);
    if b in OwnersOf(s, h) {
      RemovedFrame(a, s, h, b);
      if OwnersOf(s, h) == {b} {
        assert LastOwned(s, {h}, b) == {h} && |{b}| == 1;
        TrackedOne(a, h, f, i);
        DirectDeleteCopies(a, s.buckets, h, f, i);
        EmptyClass(a, s.buckets, h, f, i);
      } else {
        assert LastOwned(s, {h}, b) == {};
        NotLastKeepsBuckets(a, s, h, b);
      }
    } else {
      assert LastOwned(s, {h}, b) == {};
    }
  }

  lemma NotLastKeepsBuckets(a: Addressing, s: State, h: Hash, b: BackendId)
    requires a.Valid() && b in OwnersOf(s, h) && OwnersOf(s, h) != {b}
    requires s.entries[h].refcount == |s.entries[h].owners|
    ensures RemovedStep(a, s, h, b).buckets == s.buckets
  {
    hide DeletedFp;
    var left := s.entries[h].owners - {b};
    assert |left| == |s.entries[h].owners| - 1;
    assert left != {};
  }

  /** Several removals: however they are ordered, they delete what the class has, up to what they drop. */
  lemma {:induction false} RemovedAllBalance(a: Addressing, s: State, hs: seq<Hash>, b: BackendId, pairs: set<Pair>,
                                             f: Fp, i: nat)
    requires a.Valid() && Owns(s, pairs) && Counted(a, s, false) && f != 0 && i < BUCKETS_PER_LANE
    requires forall m, n :: 0 <= m < n < |hs| ==> hs[m] != hs[n]
    ensures var s', last := RemovedAll(a, s, hs, b), LastOwned(s, Elements(hs), b);
      && s'.entries.Keys == s.entries.Keys - last && last <= s.entries.Keys
      && Copies(a, s'.buckets, f, i) == Minus(Copies(a, s.buckets, f, i), Tracked(a, last, f, i))
  {
    hide Copies, Tracked, RemovedStep, Counted, Owns, OwnersOf;
    if hs == [] {
      assert LastOwned(s, Elements(hs), b) == {};
      TrackedNone(a, f, i);
    } else {
      var n := |hs| - 1;
      var before, h := hs[..n], hs[n];
      var mid := RemovedAll(a, s, before, b);
      RemovedAllBalance(a, s, before, b, pairs, f, i);
      RemovedAllOwns(a, s, before, b, pairs, false);
      var rest := set p | p in pairs && !(p.0 in before && p.1 == b);
      RemovedBalance(a, mid, h, b, rest, f, i);
      OtherOwnersStay(s, mid, pairs, rest, before, h, b);
      LastOwnedNext(s, mid, before, h, b);
      assert hs == before + [h];
      TrackedMinus(a, LastOwned(s, Elements(hs), b), LastOwned(mid, {h}, b), f, i);
    }
  }

  lemma OtherOwnersStay(s: State, mid: State, pairs: set<Pair>, rest: set<Pair>, hs: seq<Hash>, h: Hash, b: BackendId)
    requires Owns(s, pairs) && Owns(mid, rest) && h !in hs
    requires rest == set p | p in pairs && !(p.0 in hs && p.1 == b)
    ensures OwnersOf(mid, h) == OwnersOf(s, h)
  {
    hide Owns;
    forall x ensures x in OwnersOf(mid, h) <==> x in OwnersOf(s, h) {
      assert (h, x) in rest <==> (h, x) in pairs;
      OwnsPair(s, pairs, h, x);
      OwnsPair(mid, rest, h, x);
    }
  }

  lemma LastOwnedNext(s: State, mid: State, hs: seq<Hash>, h: Hash, b: BackendId)
    requires OwnersOf(mid, h) == OwnersOf(s, h) && h !in hs
    ensures var all, before := LastOwned(s, Elements(hs + [h]), b), LastOwned(s, Elements(hs), b);
      var last := LastOwned(mid, {h}, b);
      all == before + last && before !! last && before == all - last
  {
    hide OwnersOf;
  }

  /** One operation other than a reset moves copies, tracked hashes, failures and misses in step. */
  lemma StepBalance(a: Addressing, s: State, op: Op, ok: bool, s': State, pairs: set<Pair>, f: Fp, i: nat)
    requires a.Valid() && Owns(s, pairs) && Counted(a, s, false) && Step(a, s, op, ok, s') && !op.ResetAll?
    requires f != 0 && i < BUCKETS_PER_LANE
    ensures Tracked(a, s'.entries.Keys, f, i) + MissedBy(a, s, op, f, i) + Copies(a, s.buckets, f, i) ==
            Tracked(a, s.entries.Keys, f, i) + FailedBy(a, op, ok, f, i) + Copies(a, s'.buckets, f, i)
  {
    hide Copies, Tracked, StoredStep, RemovedStep, ClearedStep, Counted, Owns, LastOwned;
    TrackedNone(a, f, i);
    match op
    case Store(h, b) =>
      StoredBalance(a, s, h, b, ok, s', pairs, f, i);
    case Remove(h, b) =>
      RemovedBalance(a, s, h, b, pairs, f, i);
      TrackedMinus(a, s.entries.Keys, Dropped(s, op), f, i);
    case ClearAll(b) =>
      var hs :| Enumerates(hs, HashesOf(s, b)) && s' == ClearedStep(a, s, hs, b);
      ClearIsRemovals(a, s, hs, b, pairs, false);
      RemovedAllBalance(a, s, hs, b, pairs, f, i);
      assert Elements(hs) == HashesOf(s, b);
      TrackedMinus(a, s.entries.Keys, Dropped(s, op), f, i);
    case _ =>
  }

  lemma StoredBalance(a: Addressing, s: State, h: Hash, b: BackendId, ok: bool, s': State, pairs: set<Pair>, f: Fp,
                      i: nat)
    requires a.Valid() && Owns(s, pairs) && StoredStep(a, s, h, b, ok, s') && f != 0 && i < BUCKETS_PER_LANE
    ensures Tracked(a, s'.entries.Keys, f, i) + Copies(a, s.buckets, f, i) ==
            Tracked(a, s.entries.Keys, f, i) + FailedBy(a, Store(h, b), ok, f, i) + Copies(a, s'.buckets, f, i)
  {
    hide Copies, Tracked, InsertedFp, Occupied, MarksChanges, Addressing.InClass, Owns;
    if b !in OwnersOf(s, h) {
      var t := Joined(s, h, b);
      if OwnersOf(s, h) == {} {
        NotTracked(s, h, pairs);
        assert t.entries.Keys == s.entries.Keys + {h};
        InsertionAddsOne(a, t, h, ok, s');
        TrackedAdd(a, s.entries.Keys, h, f, i);
      } else {
        assert t.entries.Keys == s.entries.Keys;
      }
    }
  }

  lemma NotTracked(s: State, h: Hash, pairs: set<Pair>)
    requires Owns(s, pairs) && OwnersOf(s, h) == {}
    ensures h !in s.entries.Keys
  {}

  // ---------- runs ----------

  /**
   The balance of every run, class by class, since the start or the last reset: tracked
   hashes exceed copies by the failed insertions less the removals that found no copy.
   */
  lemma {:induction false} RunBalance(a: Addressing, r: Run, k: nat, f: Fp, i: nat)
    requires a.Valid() && r.Valid(a) && k <= |r.ops| && f != 0 && i < BUCKETS_PER_LANE
    ensures Tracked(a, r.states[k].entries.Keys, f, i) + MissedAt(a, r, k, f, i) ==
            Copies(a, r.states[k].buckets, f, i) + FailedAt(a, r, k, f, i)
  {
    hide Copies, Tracked, Owns, Counted, Step, MissedBy, FailedBy, NewState;
    if k == 0 {
      NothingTracked(a, r.states[0], f, i);
    } else {
      StepAt(a, r, k - 1);
      if r.ops[k - 1].ResetAll? {
        AfterReset(a, r.states[k - 1], r.ops[k - 1], r.oks[k - 1], r.states[k], f, i);
      } else {
        RunBalance(a, r, k - 1, f, i);
        RunConserves(a, r, k - 1);
        Inexact(a, r.states[k - 1], ExactAt(r, k - 1));
        StepBalance(a, r.states[k - 1], r.ops[k - 1], r.oks[k - 1], r.states[k], PairsAt(r.ops, k - 1), f, i);
      }
    }
  }

  lemma NothingTracked(a: Addressing, s: State, f: Fp, i: nat)
    requires a.Valid() && s == NewState().(pubSeq := s.pubSeq) && f != 0 && i < BUCKETS_PER_LANE
    ensures Tracked(a, s.entries.Keys, f, i) == 0 == Copies(a, s.buckets, f, i)
  {
    EmptyInvariant(a, s);
    TrackedNone(a, f, i);
    hide Owns, Copies, Tracked;
  }

  lemma AfterReset(a: Addressing, s: State, op: Op, ok: bool, s': State, f: Fp, i: nat)
    requires a.Valid() && Step(a, s, op, ok, s') && op.ResetAll? && f != 0 && i < BUCKETS_PER_LANE
    ensures Tracked(a, s'.entries.Keys, f, i) == 0 == Copies(a, s'.buckets, f, i)
  {
    hide Copies, Tracked, StoredStep, RemovedStep, ClearedStep, NewState;
    NothingTracked(a, s', f, i);
  }

  lemma Inexact(a: Addressing, s: State, exact: bool)
    requires a.Valid() && Counted(a, s, exact)
    ensures Counted(a, s, false)
  {
    hide Copies, Tracked, Occupied;
  }

  /**
   Counts are exact exactly when, in every class, every failed insertion has been evened out by
   a removal that found no copy.
   */
  lemma RunExactIff(a: Addressing, r: Run, k: nat)
    requires a.Valid() && r.Valid(a) && k <= |r.ops|
    ensures Counted(a, r.states[k], true) <==>
            forall f: Fp, i: nat :: f != 0 && i < BUCKETS_PER_LANE ==>
                FailedAt(a, r, k, f, i) == MissedAt(a, r, k, f, i)
  {
    hide Copies, Tracked, Owns, Step, NewState, FailedAt, MissedAt, Occupied, ExactAt, Counted;
    RunConserves(a, r, k);
    var s := r.states[k];
    if Counted(a, s, true) {
      forall f: Fp, i: nat | f != 0 && i < BUCKETS_PER_LANE ensures FailedAt(a, r, k, f, i) == MissedAt(a, r, k, f, i) {
        RunBalance(a, r, k, f, i);
        ExactClass(a, s, f, i);
      }
    } else {
      var f: Fp, i := InexactClass(a, s, ExactAt(r, k));
      RunBalance(a, r, k, f, i);
    }
  }

  lemma ExactClass(a: Addressing, s: State, f: Fp, i: nat)
    requires a.Valid() && Counted(a, s, true) && f != 0 && i < BUCKETS_PER_LANE
    ensures Copies(a, s.buckets, f, i) == Tracked(a, s.entries.Keys, f, i)
  {
    hide Copies, Tracked, Occupied;
  }

  lemma InexactClass(a: Addressing, s: State, exact: bool) returns (f: Fp, i: nat)
    requires a.Valid() && Counted(a, s, exact) && !Counted(a, s, true)
    ensures f != 0 && i < BUCKETS_PER_LANE && Copies(a, s.buckets, f, i) != Tracked(a, s.entries.Keys, f, i)
  {
    hide Copies, Tracked, Occupied;
    f, i :| f != 0 && i < BUCKETS_PER_LANE && Copies(a, s.buckets, f, i) != Tracked(a, s.entries.Keys, f, i);
  }
}
