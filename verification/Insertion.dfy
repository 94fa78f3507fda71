/**
 What an insertion keeps, whatever the random generator draws: one more copy of the
 inserted class and of no other on success, nothing changed at all on failure.
 */
module Insertion {
  import opened CuckooFilter
  import opened Lane
  import opened ProducerState

  /** Buckets outside the dirty set are untouched, and marks are never dropped. */
  ghost predicate MarksChanges(s: State, s': State) {
    && s.dirty <= s'.dirty
    && forall j :: 0 <= j < BUCKETS_PER_LANE && j !in s'.dirty ==> s'.buckets[j] == s.buckets[j]
  }

  /** One more copy of the class of `h`, and of no other class. */
  ghost predicate OneMoreCopy(a: Addressing, bs: LaneBuckets, h: Hash, bs': LaneBuckets)
    requires a.Valid()
  {
    && Occupied(bs') == Occupied(bs) + 1
    && forall f: Fp, i: nat :: f != 0 && i < BUCKETS_PER_LANE ==>
         Copies(a, bs', f, i) == Copies(a, bs, f, i) + (if a.InClass(h, f, i) then 1 else 0)
  }

  /** The effect of an insertion on everything its caller relies on. */
  ghost predicate AddsOne(a: Addressing, s: State, h: Hash, ok: bool, s': State)
    requires a.Valid()
  {
    && s' == s.(buckets := s'.buckets, numItems := s'.numItems, dirty := s'.dirty)
    && (!ok ==> s' == s)
    && (ok ==> s'.numItems == s.numItems + 1 && OneMoreCopy(a, s.buckets, h, s'.buckets))
    && MarksChanges(s, s')
  }

  lemma DirectAddsOne(a: Addressing, s: State, h: Hash, s': State)
    requires a.Valid() && DirectInsert(a, s.buckets, h).Some? && InsertedFp(a, s, h, true, s')
    ensures AddsOne(a, s, h, true, s')
  {
    hide Count, Occupied, Copies, DirectInsert;
    forall f: Fp, i: nat | f != 0 && i < BUCKETS_PER_LANE
      ensures Copies(a, s'.buckets, f, i) == Copies(a, s.buckets, f, i) + (if a.InClass(h, f, i) then 1 else 0)
    {
      DirectInsertCopies(a, s.buckets, h, f, i);
    }
    DirectInsertCopies(a, s.buckets, h, 1, 0);
  }

  /** Both candidate buckets are full when nothing can be placed directly. */
  lemma CandidatesFull(a: Addressing, bs: LaneBuckets, h: Hash)
    requires a.Valid() && DirectInsert(a, bs, h).None?
    ensures Count(bs[Primary(a, h)], 0) == 0 && Count(bs[Secondary(a, h)], 0) == 0
  {
    hide Count, DirectInsert, Copies, Occupied;
    DirectInsertCopies(a, bs, h, 1, 0);
  }

  /** The class of `h` is the one carried from either of its candidate buckets. */
  lemma HandClass(a: Addressing, bs: LaneBuckets, h: Hash, home: nat, f: Fp, i: nat)
    requires a.Valid() && i < BUCKETS_PER_LANE
    requires home == Primary(a, h) || home == Secondary(a, h)
    ensures CopiesWithHand(a, Hand(bs, a.probe(h).0, home, []), f, i) ==
            Copies(a, bs, f, i) + (if a.InClass(h, f, i) then 1 else 0)
  {
    hide Copies;
    PairSymmetric(a, f, i, home);
    PairSymmetric(a, f, i, Primary(a, h));
  }

  lemma EvictionMarks(a: Addressing, s: State, k0: Hand, k: Hand, s': State)
    requires a.Valid() && Kicking(a, k0, k) && k0.lane == s.buckets && HasRoom(k)
    requires s'.buckets == Landed(k) && s'.dirty == s.dirty + {k.bucket} + TouchedBuckets(k.touched)
    ensures MarksChanges(s, s')
  {
    hide Undo, Occupied, CopiesWithHand, TouchedBuckets, TryInsert, HasRoom;
  }

  lemma EvictionAddsOne(a: Addressing, s: State, h: Hash, home: nat, slots: seq<nat>, ok: bool, s': State)
    requires a.Valid() && DirectInsert(a, s.buckets, h).None? && EvictedFp(a, s, h, home, slots, ok, s')
    ensures AddsOne(a, s, h, ok, s')
  {
    hide Count, Kicking, HasRoom, Landed, TouchedBuckets, Kicked, NoRoom, CopiesWithHand, Copies, Occupied,
        DirectInsert;
    if ok {
      var fp := a.probe(h).0;
      var k0 := Hand(s.buckets, fp, home, []);
      var k := Kicked(a, s.buckets, fp, home, slots);
      CandidatesFull(a, s.buckets, h);
      KickedKeeps(a, s.buckets, fp, home, slots);
      EvictionMarks(a, s, k0, k, s');
      forall f: Fp, i: nat | f != 0 && i < BUCKETS_PER_LANE
        ensures Copies(a, s'.buckets, f, i) == Copies(a, s.buckets, f, i) + (if a.InClass(h, f, i) then 1 else 0)
      {
        KickLands(a, k0, k, f, i);
        HandClass(a, s.buckets, h, home, f, i);
      }
      KickLands(a, k0, k, 1, 0);
    }
  }

  /** Every insertion, direct or by eviction. */
  lemma InsertionAddsOne(a: Addressing, s: State, h: Hash, ok: bool, s': State)
    requires a.Valid() && InsertedFp(a, s, h, ok, s')
    ensures AddsOne(a, s, h, ok, s')
  {
    hide DirectInsert, AddsOne, EvictedFp;
    if DirectInsert(a, s.buckets, h).Some? {
      DirectAddsOne(a, s, h, s');
    } else {
      var home, slots :| EvictedFp(a, s, h, home, slots, ok, s');
      EvictionAddsOne(a, s, h, home, slots, ok, s');
    }
  }

  /**
   A failed insertion gives up after exactly MAX_KICKS kicks, none of which found room, from
   full candidate buckets.
   */
  lemma FailsOnlyAfterMaxKicks(a: Addressing, s: State, h: Hash, s': State)
    requires a.Valid() && InsertedFp(a, s, h, false, s')
    ensures s' == s && Count(s.buckets[Primary(a, h)], 0) == 0 && Count(s.buckets[Secondary(a, h)], 0) == 0
    ensures exists home, slots :: EvictedFp(a, s, h, home, slots, false, s') && |slots| == MAX_KICKS
              && NoRoom(a, s.buckets, a.probe(h).0, home, slots)
  {
    hide DirectInsert, Count, Kicked, HasRoom, Landed, TouchedBuckets;
    CandidatesFull(a, s.buckets, h);
  }
}
