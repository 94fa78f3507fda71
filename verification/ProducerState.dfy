/**
 What a CKF producer does to its state (ckf_producer.rs), as values: the removal
 and clear steps are functions, an insertion is a relation because the eviction
 loop is steered by a random generator.
 */
module ProducerState {
  import opened Arithmetic
  import opened CuckooFilter
  import opened Lane
  import opened Ids

  datatype HashEntry = HashEntry(refcount: nat, owners: set<BackendId>)

  datatype State = State(
    buckets: LaneBuckets,
    numItems: nat,
    dirty: set<nat>,
    pubSeq: nat,
    entries: map<Hash, HashEntry>,
    workers: map<BackendId, set<Hash>>)

  function NewState(): State { State(EmptyLane(), 0, {}, 0, map[], map[]) }

  datatype Op =
    | Store(hash: Hash, backend: BackendId)
    | Remove(hash: Hash, backend: BackendId)
    | ClearAll(backend: BackendId)
    | ResetAll
    | TakeSnapshot
    | TakeDelta

  function OwnersOf(s: State, h: Hash): set<BackendId> { if h in s.entries then s.entries[h].owners else {} }

  function HashesOf(s: State, b: BackendId): set<Hash> { if b in s.workers then s.workers[b] else {} }

  /** The operations an event amounts to, in order. */
  function OpsOf(event: KvCacheEvent, backend: BackendId): (ops: seq<Op>) {
    match event
    case Stored(hs) => seq(|hs|, i requires 0 <= i < |hs| => Store(hs[i], backend))
    case Removed(hs) => seq(|hs|, i requires 0 <= i < |hs| => Remove(hs[i], backend))
    case Clear => [ClearAll(backend)]
    case Reset => [ResetAll]
  }

  // ---------- insertion ----------

  /**
   The eviction loop from `home`, one of the two full candidate buckets, when the generator
   draws `slots`: it stops at the first bucket with room, or gives up after MAX_KICKS kicks
   and leaves everything as it was.
   */
  ghost predicate EvictedFp(a: Addressing, s: State, h: Hash, home: nat, slots: seq<nat>, ok: bool, s': State)
    requires a.Valid()
  {
    && (home == Primary(a, h) || home == Secondary(a, h))
    && (forall n :: 0 <= n < |slots| ==> slots[n] < FP_PER_BUCKET)
    && 0 < |slots| <= MAX_KICKS
    && var fp := a.probe(h).0;
    && var k := Kicked(a, s.buckets, fp, home, slots);
    && NoRoom(a, s.buckets, fp, home, slots[..|slots| - 1])
    && ok == HasRoom(k)
    && if ok then
         s' == s.(buckets := Landed(k), dirty := s.dirty + {k.bucket} + TouchedBuckets(k.touched),
                  numItems := s.numItems + 1)
       else |slots| == MAX_KICKS && s' == s
  }

  /** What `insert_fingerprint` may do: the two candidate buckets first, then eviction by some draws. */
  ghost predicate InsertedFp(a: Addressing, s: State, h: Hash, ok: bool, s': State)
    requires a.Valid()
  {
    var w := DirectInsert(a, s.buckets, h);
    if w.Some? then
      ok && s' == s.(buckets := Written(s.buckets, w), dirty := s.dirty + {w.value.0}, numItems := s.numItems + 1)
    else exists home, slots :: EvictedFp(a, s, h, home, slots, ok, s')
  }

  /** The bookkeeping half of `apply_stored`, before any fingerprint is placed. */
  function Joined(s: State, h: Hash, b: BackendId): State {
    var refcount: nat := if h in s.entries then s.entries[h].refcount else 0;
    s.(entries := s.entries[h := HashEntry(refcount + 1, OwnersOf(s, h) + {b})],
       workers := s.workers[b := HashesOf(s, b) + {h}])
  }

  ghost predicate StoredStep(a: Addressing, s: State, h: Hash, b: BackendId, ok: bool, s': State)
    requires a.Valid()
  {
    if b in OwnersOf(s, h) then s' == s && ok
    else if OwnersOf(s, h) == {} then InsertedFp(a, Joined(s, h, b), h, ok, s')
    else s' == Joined(s, h, b) && ok
  }

  // ---------- removal ----------

  function DeletedFp(a: Addressing, s: State, h: Hash): State
    requires a.Valid()
  {
    var w := DirectDelete(a, s.buckets, h);
    if w.Some? then
      s.(buckets := Written(s.buckets, w), dirty := s.dirty + {w.value.0}, numItems := SaturatingDec(s.numItems))
    else s
  }

  /** Drop one owner of a tracked hash; the last owner takes the fingerprint with it. */
  function Released(a: Addressing, s: State, h: Hash, b: BackendId): State
    requires a.Valid()
  {
    if h !in s.entries then s
    else
      var e := HashEntry(SaturatingDec(s.entries[h].refcount), s.entries[h].owners - {b});
      if e.refcount == 0 then
        var d := DeletedFp(a, s, h);
        d.(entries := d.entries - {h})
      else s.(entries := s.entries[h := e])
  }

  function RemovedStep(a: Addressing, s: State, h: Hash, b: BackendId): State
    requires a.Valid()
  {
    if b !in OwnersOf(s, h) then s
    else Released(a, s.(workers := if b in s.workers then s.workers[b := s.workers[b] - {h}] else s.workers), h, b)
  }

  function ReleasedAll(a: Addressing, s: State, hs: seq<Hash>, b: BackendId): State
    requires a.Valid()
  {
    if hs == [] then s else Released(a, ReleasedAll(a, s, hs[..|hs| - 1], b), hs[|hs| - 1], b)
  }

  function RemovedAll(a: Addressing, s: State, hs: seq<Hash>, b: BackendId): State
    requires a.Valid()
  {
    if hs == [] then s else RemovedStep(a, RemovedAll(a, s, hs[..|hs| - 1], b), hs[|hs| - 1], b)
  }

  /** `apply_clear`, for one iteration order of the backend's hash set. */
  function ClearedStep(a: Addressing, s: State, hs: seq<Hash>, b: BackendId): State
    requires a.Valid()
  {
    ReleasedAll(a, s.(workers := s.workers - {b}), hs, b)
  }

  ghost predicate Enumerates(hs: seq<Hash>, all: set<Hash>) {
    && (forall h :: h in hs <==> h in all)
    && forall i, j :: 0 <= i < j < |hs| ==> hs[i] != hs[j]
  }

  // ---------- reset and publication ----------

  function ResetState(s: State): State {
    NewState().(pubSeq := s.pubSeq)
  }

  function Published(s: State): State { s.(dirty := {}, pubSeq := (s.pubSeq + 1) % U64) }

  datatype Publication =
    | CkfSnapshot(sequence: nat, words: seq<PackedBucket>)
    | CkfDelta(sequence: nat, prevSequence: nat, changed: seq<(nat, PackedBucket)>)

  /** The dirty buckets with their words, in index order. */
  function DirtyFrom(bs: LaneBuckets, dirty: set<nat>, i: nat): seq<(nat, PackedBucket)>
    requires i <= BUCKETS_PER_LANE
    decreases BUCKETS_PER_LANE - i
  {
    if i == BUCKETS_PER_LANE then []
    else (if i in dirty then [(i, bs[i])] else []) + DirtyFrom(bs, dirty, i + 1)
  }

  /** What the operation sends out, if anything. */
  function Messages(s: State, op: Op): (ms: seq<Publication>)
    ensures |ms| <= 1
  {
    match op
    case TakeSnapshot => [CkfSnapshot(Published(s).pubSeq, s.buckets)]
    case TakeDelta =>
      if s.dirty == {} then [] else [CkfDelta(Published(s).pubSeq, s.pubSeq, DirtyFrom(s.buckets, s.dirty, 0))]
    case _ => []
  }

  // ---------- steps and runs ----------

  /** `ok` is false exactly when a first owner's fingerprint could not be placed. */
  ghost predicate Step(a: Addressing, s: State, op: Op, ok: bool, s': State)
    requires a.Valid()
  {
    match op
    case Store(h, b) => StoredStep(a, s, h, b, ok, s')
    case Remove(h, b) => ok && s' == RemovedStep(a, s, h, b)
    case ClearAll(b) => ok && exists hs :: Enumerates(hs, HashesOf(s, b)) && s' == ClearedStep(a, s, hs, b)
    case ResetAll => ok && s' == ResetState(s)
    case TakeSnapshot => ok && s' == Published(s)
    case TakeDelta => ok && s' == if s.dirty == {} then s else Published(s)
  }

  /** A run from a new producer, with every intermediate state. */
  datatype Run = Run(ops: seq<Op>, oks: seq<bool>, states: seq<State>) {
    ghost predicate Valid(a: Addressing)
      requires a.Valid()
    {
      && |oks| == |ops| && |states| == |ops| + 1
      && states[0] == NewState()
      && forall k :: 0 <= k < |ops| ==> TakesStep(a, k)
    }

    ghost predicate TakesStep(a: Addressing, k: nat)
      requires a.Valid() && k < |ops| == |oks| && k + 1 < |states|
    {
      Step(a, states[k], ops[k], oks[k], states[k + 1])
    }

    ghost predicate EndsIn(a: Addressing, s: State)
      requires a.Valid()
    {
      Valid(a) && states[|ops|] == s
    }

    /** This run continues `r0` with these operations. */
    predicate Extends(r0: Run, more: seq<Op>) {
      ops == r0.ops + more && r0.states <= states && r0.oks <= oks
    }

    function Then(op: Op, ok: bool, s: State): Run { Run(ops + [op], oks + [ok], states + [s]) }
  }

  lemma ExtendsThen(r: Run, r0: Run, more: seq<Op>, op: Op, ok: bool, s: State)
    requires r.Extends(r0, more)
    ensures r.Then(op, ok, s).Extends(r0, more + [op])
  {}

  lemma RunThen(a: Addressing, r: Run, s: State, op: Op, ok: bool, s': State)
    requires a.Valid() && r.EndsIn(a, s) && Step(a, s, op, ok, s')
    ensures r.Then(op, ok, s').EndsIn(a, s')
  {
    var r' := r.Then(op, ok, s');
    hide Step, NewState;
    forall k | 0 <= k < |r'.ops| ensures r'.TakesStep(a, k) {
      if k < |r.ops| { assert r.TakesStep(a, k); }
    }
  }
}
