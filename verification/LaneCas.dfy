/**
 Concurrent inserts and deletes on one lane of the local projection (local_ckf.rs):
 every call loads a bucket, computes the new word and tries to swap it in, retrying on
 interference. The model interleaves the loads and the compare-exchanges of any number
 of calls, sequentially consistent, on a lane that stays active.
 */
module LaneCas {
  import opened Wrappers
  import opened CuckooFilter
  import opened Lane

  datatype Kind = Insert | Delete

  datatype Pc =
    | Loading(second: bool)                                              // about to load a candidate bucket
    | Swapping(second: bool, packed: PackedBucket, word: PackedBucket)   // about to compare-exchange
    | Done(ok: bool)

  datatype Call = Call(kind: Kind, hash: Hash, pc: Pc)

  datatype State = State(lane: LaneBuckets, calls: map<nat, Call>)

  function Target(a: Addressing, h: Hash, second: bool): (i: nat)
    requires a.Valid()
    ensures i < BUCKETS_PER_LANE
  {
    if second then Secondary(a, h) else Primary(a, h)
  }

  /** The word the call wants to store in place of `packed`. */
  function Wanted(a: Addressing, c: Call, packed: PackedBucket): Option<PackedBucket> {
    match c.kind
    case Insert => TryInsert(packed, a.probe(c.hash).0)
    case Delete => TryDelete(packed, a.probe(c.hash).0)
  }

  /** A new call enters. */
  ghost predicate Enter(s: State, id: nat, kind: Kind, hash: Hash, s': State) {
    id !in s.calls && s' == s.(calls := s.calls[id := Call(kind, hash, Loading(false))])
  }

  /** Load the current bucket; nothing to do there means moving on to the second one, or giving up. */
  ghost predicate Load(a: Addressing, s: State, id: nat, s': State)
    requires a.Valid()
  {
    && id in s.calls && s.calls[id].pc.Loading?
    && var c := s.calls[id];
       var packed := s.lane[Target(a, c.hash, c.pc.second)];
       var pc := match Wanted(a, c, packed)
         case Some(word) => Swapping(c.pc.second, packed, word)
         case None => if c.pc.second then Done(false) else Loading(true);
       s' == s.(calls := s.calls[id := c.(pc := pc)])
  }

  /** Compare-exchange: store the new word if the bucket still holds the loaded one, else load again. */
  ghost predicate CompareExchange(a: Addressing, s: State, id: nat, s': State)
    requires a.Valid()
  {
    && id in s.calls && s.calls[id].pc.Swapping?
    && var c := s.calls[id];
       var i := Target(a, c.hash, c.pc.second);
       s' ==
       if s.lane[i] == c.pc.packed then
         State(s.lane[i := c.pc.word], s.calls[id := c.(pc := Done(true))])
       else
         s.(calls := s.calls[id := c.(pc := Loading(c.pc.second))])
  }

  ghost predicate Next(a: Addressing, s: State, s': State)
    requires a.Valid()
  {
    || (exists id, kind, hash :: Enter(s, id, kind, hash, s'))
    || (exists id :: Load(a, s, id, s'))
    || (exists id :: CompareExchange(a, s, id, s'))
  }

  /** An interleaving that starts with the given lane and no calls. */
  ghost predicate Interleaving(a: Addressing, lane: LaneBuckets, run: seq<State>)
    requires a.Valid()
  {
    && |run| > 0 && run[0] == State(lane, map[])
    && forall k :: 0 < k < |run| ==> Moves(a, run, k)
  }

  ghost predicate Moves(a: Addressing, run: seq<State>, k: nat)
    requires a.Valid() && 0 < k < |run|
  {
    Next(a, run[k - 1], run[k])
  }

  /** Calls of a kind that have succeeded, on hashes of class (f, i). */
  ghost function Succeeded(a: Addressing, calls: map<nat, Call>, kind: Kind, f: Fp, i: nat): set<nat> {
    set id | id in calls && calls[id].kind == kind && calls[id].pc == Done(true) && a.InClass(calls[id].hash, f, i)
  }

  /** Copies now plus successful deletes equal copies at the start plus successful inserts. */
  ghost predicate Balanced(a: Addressing, lane: LaneBuckets, s: State, f: Fp, i: nat)
    requires a.Valid() && i < BUCKETS_PER_LANE
  {
    Copies(a, s.lane, f, i) + |Succeeded(a, s.calls, Delete, f, i)| ==
    Copies(a, lane, f, i) + |Succeeded(a, s.calls, Insert, f, i)|
  }

  /** A pending swap stores what its call wants for the word it loaded. */
  ghost predicate Prepared(a: Addressing, s: State) {
    forall id :: id in s.calls && s.calls[id].pc.Swapping? ==>
      Wanted(a, s.calls[id], s.calls[id].pc.packed) == Some(s.calls[id].pc.word)
  }

  /** Moving a call between unsuccessful states changes no tally. */
  lemma TallySame(a: Addressing, calls: map<nat, Call>, id: nat, c: Call, kind: Kind, f: Fp, i: nat)
    requires id in calls ==> calls[id].pc != Done(true)
    requires c.pc != Done(true)
    ensures Succeeded(a, calls[id := c], kind, f, i) == Succeeded(a, calls, kind, f, i)
  {}

  lemma TallyAdd(a: Addressing, calls: map<nat, Call>, id: nat, c: Call, kind: Kind, f: Fp, i: nat)
    requires id in calls && calls[id].pc != Done(true) && c.pc == Done(true)
    ensures |Succeeded(a, calls[id := c], kind, f, i)| ==
            |Succeeded(a, calls, kind, f, i)| + (if c.kind == kind && a.InClass(c.hash, f, i) then 1 else 0)
  {
    var before := Succeeded(a, calls, kind, f, i);
    var after := Succeeded(a, calls[id := c], kind, f, i);
    assert id !in before;
    assert after == if c.kind == kind && a.InClass(c.hash, f, i) then before + {id} else before;
  }

  /** A successful swap moves exactly one copy, in the class of its call. */
  lemma SwapCopies(a: Addressing, lane: LaneBuckets, c: Call, f: Fp, i: nat)
    requires a.Valid() && i < BUCKETS_PER_LANE && f != 0 && c.pc.Swapping?
    requires lane[Target(a, c.hash, c.pc.second)] == c.pc.packed
    requires Wanted(a, c, c.pc.packed) == Some(c.pc.word)
    ensures Copies(a, lane[Target(a, c.hash, c.pc.second) := c.pc.word], f, i) ==
            Copies(a, lane, f, i) +
            (if !a.InClass(c.hash, f, i) then 0 else if c.kind == Insert then 1 else -1)
  {
    hide Count, TryInsert, TryDelete, Copies;
    var j, fp := Target(a, c.hash, c.pc.second), a.probe(c.hash).0;
    TryInsertCount(c.pc.packed, fp, f);
    TryDeleteCount(c.pc.packed, fp, f);
    CopiesWrite(a, lane, j, c.pc.word, f, i);
    PairSymmetric(a, f, i, Primary(a, c.hash));
  }

  lemma NextBalanced(a: Addressing, lane: LaneBuckets, s: State, s': State, f: Fp, i: nat)
    requires a.Valid() && i < BUCKETS_PER_LANE && f != 0
    requires Prepared(a, s) && Balanced(a, lane, s, f, i) && Next(a, s, s')
    ensures Balanced(a, lane, s', f, i)
  {
    hide Copies, Succeeded, TryInsert, TryDelete;
    if id, kind, hash :| Enter(s, id, kind, hash, s') {
      TallySame(a, s.calls, id, s'.calls[id], Insert, f, i);
      TallySame(a, s.calls, id, s'.calls[id], Delete, f, i);
    } else if id :| Load(a, s, id, s') {
      TallySame(a, s.calls, id, s'.calls[id], Insert, f, i);
      TallySame(a, s.calls, id, s'.calls[id], Delete, f, i);
    } else {
      var id :| CompareExchange(a, s, id, s');
      var c := s.calls[id];
      if s.lane[Target(a, c.hash, c.pc.second)] == c.pc.packed {
        TallyAdd(a, s.calls, id, s'.calls[id], Insert, f, i);
        TallyAdd(a, s.calls, id, s'.calls[id], Delete, f, i);
        SwapCopies(a, s.lane, c, f, i);
      } else {
        TallySame(a, s.calls, id, s'.calls[id], Insert, f, i);
        TallySame(a, s.calls, id, s'.calls[id], Delete, f, i);
      }
    }
  }

  lemma NextPrepared(a: Addressing, s: State, s': State)
    requires a.Valid() && Prepared(a, s) && Next(a, s, s')
    ensures Prepared(a, s')
  {
    hide TryInsert, TryDelete;
  }

  /**
   In every interleaving, for every class: copies in the lane = copies at the start
   + inserts that returned true - deletes that returned true. So a call touches no
   class but its own, and exactly once if it reports success.
   */
  lemma {:induction false} InterleavingConserves(a: Addressing, lane: LaneBuckets, run: seq<State>, k: nat, f: Fp,
                                                 i: nat)
    requires a.Valid() && Interleaving(a, lane, run) && k < |run|
    requires i < BUCKETS_PER_LANE && f != 0
    ensures Prepared(a, run[k]) && Balanced(a, lane, run[k], f, i)
  {
    hide Copies, Next, Prepared, Balanced;
    if k == 0 {
      StartBalanced(a, lane, f, i);
    } else {
      InterleavingConserves(a, lane, run, k - 1, f, i);
      assert Moves(a, run, k);
      NextPrepared(a, run[k - 1], run[k]);
      NextBalanced(a, lane, run[k - 1], run[k], f, i);
    }
  }

  lemma StartBalanced(a: Addressing, lane: LaneBuckets, f: Fp, i: nat)
    requires a.Valid() && i < BUCKETS_PER_LANE
    ensures Prepared(a, State(lane, map[])) && Balanced(a, lane, State(lane, map[]), f, i)
  {
    hide Copies;
    assert Succeeded(a, map[], Insert, f, i) == {} && Succeeded(a, map[], Delete, f, i) == {};
  }

  // ---------- calls that return false ----------

  /** The call has found nothing to do in its first bucket: it goes on to the second one. */
  ghost predicate LeavesFirst(s: State, s': State, id: nat) {
    && id in s.calls && s.calls[id].pc == Loading(false)
    && id in s'.calls && s'.calls[id].pc == Loading(true)
  }

  /** It has found nothing to do in the second bucket either, and returns false. */
  ghost predicate GivesUp(s: State, s': State, id: nat) {
    && id in s.calls && s.calls[id].pc == Loading(true)
    && id in s'.calls && s'.calls[id].pc == Done(false)
  }

  /** What makes a bucket of no use to a call: for an insert it is full, for a delete it has no copy. */
  predicate Useless(a: Addressing, c: Call, b: PackedBucket) {
    Count(b, if c.kind == Insert then 0 else a.probe(c.hash).0) == 0
  }

  lemma UselessIffNothingWanted(a: Addressing, c: Call, b: PackedBucket)
    ensures Useless(a, c, b) <==> Wanted(a, c, b).None?
  {
    hide Count, TryInsert, TryDelete;
    TryInsertCount(b, a.probe(c.hash).0, 0);
    TryDeleteCount(b, a.probe(c.hash).0, 0);
  }

  /** A call leaves a bucket, or gives up, exactly on what it has just seen there. */
  lemma SawUseless(a: Addressing, s: State, s': State, id: nat)
    requires a.Valid() && Next(a, s, s') && (LeavesFirst(s, s', id) || GivesUp(s, s', id))
    ensures var c := s.calls[id]; Useless(a, c, s.lane[Target(a, c.hash, c.pc.second)]) && s'.lane == s.lane
    ensures s'.calls[id].kind == s.calls[id].kind && s'.calls[id].hash == s.calls[id].hash
  {
    hide Wanted, Useless, Target, Next;
    if Load(a, s, id, s') {
      UselessIffNothingWanted(a, s.calls[id], s.lane[Target(a, s.calls[id].hash, s.calls[id].pc.second)]);
    } else {
      OnlyOwnLoadMoves(a, s, s', id);
    }
  }

  /** A call about to load is moved by its own load only. */
  lemma OnlyOwnLoadMoves(a: Addressing, s: State, s': State, id: nat)
    requires a.Valid() && Next(a, s, s') && id in s.calls && s.calls[id].pc.Loading? && !Load(a, s, id, s')
    ensures id in s'.calls && s'.calls[id] == s.calls[id]
  {
    hide Wanted, Target;
  }

  /** No swap on either candidate bucket of `h` from state `lo` to state `hi`. */
  ghost predicate PairUntouched(a: Addressing, run: seq<State>, h: Hash, lo: nat, hi: nat)
    requires a.Valid() && lo <= hi < |run|
  {
    forall m :: lo < m <= hi ==> SamePair(a, run, h, m)
  }

  ghost predicate SamePair(a: Addressing, run: seq<State>, h: Hash, m: nat)
    requires a.Valid() && 0 < m < |run|
  {
    && run[m].lane[Primary(a, h)] == run[m - 1].lane[Primary(a, h)]
    && run[m].lane[Secondary(a, h)] == run[m - 1].lane[Secondary(a, h)]
  }

  lemma {:induction false} PairStays(a: Addressing, run: seq<State>, h: Hash, lo: nat, hi: nat)
    requires a.Valid() && lo <= hi < |run| && PairUntouched(a, run, h, lo, hi)
    ensures run[hi].lane[Primary(a, h)] == run[lo].lane[Primary(a, h)]
    ensures run[hi].lane[Secondary(a, h)] == run[lo].lane[Secondary(a, h)]
  {
    if lo < hi {
      PairStays(a, run, h, lo, hi - 1);
      assert SamePair(a, run, h, hi);
    }
  }

  /** A call keeps its kind and hash. */
  lemma SameRequest(a: Addressing, s: State, s': State, id: nat)
    requires a.Valid() && Next(a, s, s') && id in s.calls
    ensures id in s'.calls && s'.calls[id].kind == s.calls[id].kind && s'.calls[id].hash == s.calls[id].hash
  {
    hide Wanted, Target;
  }

  lemma {:induction false} SameRequestThroughout(a: Addressing, lane: LaneBuckets, run: seq<State>, id: nat, lo: nat,
                                                 hi: nat)
    requires a.Valid() && Interleaving(a, lane, run) && lo <= hi < |run| && id in run[lo].calls
    ensures id in run[hi].calls
    ensures run[hi].calls[id].kind == run[lo].calls[id].kind && run[hi].calls[id].hash == run[lo].calls[id].hash
  {
    hide Next;
    if lo < hi {
      SameRequestThroughout(a, lane, run, id, lo, hi - 1);
      assert Moves(a, run, hi);
      SameRequest(a, run[hi - 1], run[hi], id);
    }
  }

  /**
   A call that returns false has seen its first bucket useless on leaving it at step `j`
   and its second on giving up at step `k`. If nothing was swapped in the pair in between,
   both were useless throughout: a failed insert met a full pair, a failed delete a class
   without any copy.
   */
  lemma FailedCallSaw(a: Addressing, lane: LaneBuckets, run: seq<State>, id: nat, j: nat, k: nat)
    requires a.Valid() && Interleaving(a, lane, run) && 0 < j < k < |run|
    requires LeavesFirst(run[j - 1], run[j], id) && GivesUp(run[k - 1], run[k], id)
    ensures var c := run[k].calls[id];
      && Useless(a, c, run[j].lane[Primary(a, c.hash)]) && Useless(a, c, run[k].lane[Secondary(a, c.hash)])
      && (PairUntouched(a, run, c.hash, j, k) ==>
            forall m :: j <= m <= k ==>
              Useless(a, c, run[m].lane[Primary(a, c.hash)]) && Useless(a, c, run[m].lane[Secondary(a, c.hash)]))
  {
    hide Next, Useless, Primary, Secondary;
    var c := run[k].calls[id];
    assert Moves(a, run, j) && Moves(a, run, k);
    SameRequestThroughout(a, lane, run, id, j - 1, k);
    SameRequestThroughout(a, lane, run, id, k - 1, k);
    SawUseless(a, run[j - 1], run[j], id);
    SawUseless(a, run[k - 1], run[k], id);
    UselessAlike(a, run[j - 1].calls[id], c, run[j].lane[Primary(a, c.hash)]);
    UselessAlike(a, run[k - 1].calls[id], c, run[k].lane[Secondary(a, c.hash)]);
    if PairUntouched(a, run, c.hash, j, k) {
      forall m | j <= m <= k
        ensures Useless(a, c, run[m].lane[Primary(a, c.hash)]) && Useless(a, c, run[m].lane[Secondary(a, c.hash)])
      {
        PairStays(a, run, c.hash, j, m);
        PairStays(a, run, c.hash, m, k);
      }
    }
  }

  lemma UselessAlike(a: Addressing, c: Call, d: Call, b: PackedBucket)
    requires c.kind == d.kind && c.hash == d.hash
    ensures Useless(a, c, b) <==> Useless(a, d, b)
  {
    hide Count;
  }

  /** With an untouched pair a failed delete means that its class had no copy. */
  lemma FailedDeleteMeansNoCopy(a: Addressing, lane: LaneBuckets, run: seq<State>, id: nat, j: nat, k: nat, m: nat)
    requires a.Valid() && Interleaving(a, lane, run) && 0 < j < k < |run| && j <= m <= k
    requires LeavesFirst(run[j - 1], run[j], id) && GivesUp(run[k - 1], run[k], id)
    requires run[k].calls[id].kind == Delete && PairUntouched(a, run, run[k].calls[id].hash, j, k)
    ensures var h := run[k].calls[id].hash; Copies(a, run[m].lane, a.probe(h).0, Primary(a, h)) == 0
  {
    FailedCallSaw(a, lane, run, id, j, k);
    hide Interleaving, LeavesFirst, GivesUp, PairUntouched, Count;
  }

  // ---------- a delete that misses a copy that was always there ----------

  function WithPc(s: State, id: nat, pc: Pc): State
    requires id in s.calls
  {
    s.(calls := s.calls[id := s.calls[id].(pc := pc)])
  }

  /** A call loads a bucket with something to do there. */
  lemma LoadsUseful(a: Addressing, s: State, id: nat, word: PackedBucket)
    requires a.Valid() && id in s.calls && s.calls[id].pc.Loading?
    requires Wanted(a, s.calls[id], s.lane[Target(a, s.calls[id].hash, s.calls[id].pc.second)]) == Some(word)
    ensures var c := s.calls[id];
      Next(a, s, WithPc(s, id, Swapping(c.pc.second, s.lane[Target(a, c.hash, c.pc.second)], word)))
  {
    hide Wanted, Target;
    var c := s.calls[id];
    assert Load(a, s, id, WithPc(s, id, Swapping(c.pc.second, s.lane[Target(a, c.hash, c.pc.second)], word)));
  }

  /** A call loads a bucket with nothing to do there. */
  lemma LoadsUseless(a: Addressing, s: State, id: nat)
    requires a.Valid() && id in s.calls && s.calls[id].pc.Loading?
    requires Wanted(a, s.calls[id], s.lane[Target(a, s.calls[id].hash, s.calls[id].pc.second)]).None?
    ensures Next(a, s, WithPc(s, id, if s.calls[id].pc.second then Done(false) else Loading(true)))
  {
    hide Wanted, Target;
    assert Load(a, s, id, WithPc(s, id, if s.calls[id].pc.second then Done(false) else Loading(true)));
  }

  /** A call swaps its word in, undisturbed. */
  lemma Swaps(a: Addressing, s: State, id: nat)
    requires a.Valid() && id in s.calls && s.calls[id].pc.Swapping?
    requires s.lane[Target(a, s.calls[id].hash, s.calls[id].pc.second)] == s.calls[id].pc.packed
    ensures var c := s.calls[id];
      Next(a, s, WithPc(s, id, Done(true)).(lane := s.lane[Target(a, c.hash, c.pc.second) := c.pc.word]))
  {
    hide Target;
    var c := s.calls[id];
    assert CompareExchange(a, s, id,
           WithPc(s, id, Done(true)).(lane := s.lane[Target(a, c.hash, c.pc.second) := c.pc.word]));
  }

  lemma Enters(a: Addressing, s: State, id: nat, kind: Kind, h: Hash)
    requires a.Valid() && id !in s.calls
    ensures Next(a, s, s.(calls := s.calls[id := Call(kind, h, Loading(false))]))
  {
    assert Enter(s, id, kind, h, s.(calls := s.calls[id := Call(kind, h, Loading(false))]));
  }

  /** The class of `h` has a copy in every state. */
  ghost predicate AlwaysCopied(a: Addressing, run: seq<State>, h: Hash)
    requires a.Valid()
  {
    forall k :: 0 <= k < |run| ==> Copies(a, run[k].lane, a.probe(h).0, Primary(a, h)) > 0
  }

  /**
   A delete of `h` finds the first bucket empty; a sibling insert then fills it, and a
   second delete, which had also passed that bucket, takes the copy from the second one,
   where the first delete now finds nothing: it returns false although the class has had
   a copy all along.
   */
  lemma FailedDeleteDespiteCopy(a: Addressing, lane: LaneBuckets, h: Hash) returns (run: seq<State>)
    requires a.Valid() && Count(lane[Primary(a, h)], a.probe(h).0) == 0 && Count(lane[Primary(a, h)], 0) > 0
    requires Count(lane[Secondary(a, h)], a.probe(h).0) == 1
    ensures Interleaving(a, lane, run) && AlwaysCopied(a, run, h)
    ensures var s := run[|run| - 1]; 0 in s.calls && s.calls[0] == Call(Delete, h, Done(false))
  {
    hide Count, TryInsert, TryDelete, Next, Copies;
    var p, q, fp := Primary(a, h), Secondary(a, h), a.probe(h).0;
    TryInsertCount(lane[p], fp, fp);
    TryDeleteCount(lane[p], fp, fp);
    TryDeleteCount(lane[q], fp, fp);
    var inserted, deleted := TryInsert(lane[p], fp).value, TryDelete(lane[q], fp).value;
    TryDeleteCount(deleted, fp, fp);
    var s0 := State(lane, map[]);
    var s1 := s0.(calls := s0.calls[0 := Call(Delete, h, Loading(false))]);
    var s2 := s1.(calls := s1.calls[1 := Call(Insert, h, Loading(false))]);
    var s3 := s2.(calls := s2.calls[2 := Call(Delete, h, Loading(false))]);
    var s4 := WithPc(s3, 0, Loading(true));
    var s5 := WithPc(s4, 2, Loading(true));
    var s6 := WithPc(s5, 1, Swapping(false, lane[p], inserted));
    var s7 := WithPc(s6, 1, Done(true)).(lane := lane[p := inserted]);
    var s8 := WithPc(s7, 2, Swapping(true, lane[q], deleted));
    var s9 := WithPc(s8, 2, Done(true)).(lane := s8.lane[q := deleted]);
    var s10 := WithPc(s9, 0, Done(false));
    Enters(a, s0, 0, Delete, h);
    Enters(a, s1, 1, Insert, h);
    Enters(a, s2, 2, Delete, h);
    LoadsUseless(a, s3, 0);
    LoadsUseless(a, s4, 2);
    LoadsUseful(a, s5, 1, inserted);
    Swaps(a, s6, 1);
    LoadsUseful(a, s7, 2, deleted);
    Swaps(a, s8, 2);
    LoadsUseless(a, s9, 0);
    CopiesOfThree(a, lane, h, inserted, deleted);
    hide WithPc, Interleaving, AlwaysCopied;
    run := AtStart(a, lane, h);
    run := Then(a, lane, run, s1, h);
    run := Then(a, lane, run, s2, h);
    run := Then(a, lane, run, s3, h);
    run := Then(a, lane, run, s4, h);
    run := Then(a, lane, run, s5, h);
    run := Then(a, lane, run, s6, h);
    run := Then(a, lane, run, s7, h);
    run := Then(a, lane, run, s8, h);
    run := Then(a, lane, run, s9, h);
    run := Then(a, lane, run, s10, h);
  }

  lemma AtStart(a: Addressing, lane: LaneBuckets, h: Hash) returns (run: seq<State>)
    requires a.Valid() && Copies(a, lane, a.probe(h).0, Primary(a, h)) > 0
    ensures run == [State(lane, map[])] && Interleaving(a, lane, run) && AlwaysCopied(a, run, h)
  {
    hide Copies, Next;
    run := [State(lane, map[])];
  }

  /** One step more, with a copy still there. */
  lemma Then(a: Addressing, lane: LaneBuckets, run: seq<State>, s': State, h: Hash) returns (run': seq<State>)
    requires a.Valid() && Interleaving(a, lane, run) && AlwaysCopied(a, run, h)
    requires Next(a, run[|run| - 1], s') && Copies(a, s'.lane, a.probe(h).0, Primary(a, h)) > 0
    ensures Interleaving(a, lane, run') && AlwaysCopied(a, run', h) && run'[|run'| - 1] == s'
  {
    hide Next, Copies;
    run' := run + [s'];
    forall k | 0 < k < |run'| ensures Moves(a, run', k) {
      if k < |run| { assert Moves(a, run, k); }
    }
  }

  lemma CopiesOfThree(a: Addressing, lane: LaneBuckets, h: Hash, inserted: PackedBucket, deleted: PackedBucket)
    requires a.Valid() && Count(lane[Secondary(a, h)], a.probe(h).0) > 0 && Count(inserted, a.probe(h).0) > 0
    ensures var lane1 := lane[Primary(a, h) := inserted];
      && Copies(a, lane, a.probe(h).0, Primary(a, h)) > 0
      && Copies(a, lane1, a.probe(h).0, Primary(a, h)) > 0
      && Copies(a, lane1[Secondary(a, h) := deleted], a.probe(h).0, Primary(a, h)) > 0
  {
    hide Count;
  }

  /** Such a lane exists, for every hash. */
  lemma CopyInSecondBucket(a: Addressing, h: Hash) returns (lane: LaneBuckets)
    requires a.Valid()
    ensures Count(lane[Primary(a, h)], a.probe(h).0) == 0 && Count(lane[Primary(a, h)], 0) > 0
    ensures Count(lane[Secondary(a, h)], a.probe(h).0) == 1
  {
    EmptyBucket();
    TryInsertCount(0, a.probe(h).0, a.probe(h).0);
    lane := EmptyLane()[Secondary(a, h) := TryInsert(0, a.probe(h).0).value];
  }
}
