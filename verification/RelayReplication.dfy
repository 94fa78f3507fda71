/**
 The relay with the producers behind it (ckf_relay.rs, ckf_producer.rs): every pool
 carries the whole run of its producer, and so all it has published. At rest, with
 nothing pending, what was published brings a remote lane up to date.
 */
module RelayReplication {
  import opened Lane
  import opened CuckooFilter
  import opened ProducerState
  import opened ProducerInvariants
  import opened Replication
  import CkfRelay

  type PoolId = CkfRelay.PoolId
  type Action = CkfRelay.Action

  datatype RelayState = RelayState(runs: map<PoolId, Run>, pending: nat, tasks: map<nat, CkfRelay.Task>)

  function NewRun(): Run { Run([], [], [NewState()]) }

  function RunOf(s: RelayState, p: PoolId): Run { if p in s.runs then s.runs[p] else NewRun() }

  function TaskOf(s: RelayState, id: nat): CkfRelay.Task { if id in s.tasks then s.tasks[id] else CkfRelay.Idle }

  function Goto(s: RelayState, id: nat, t: CkfRelay.Task): RelayState { s.(tasks := s.tasks[id := t]) }

  predicate Dirty(r: Run) { r.states != [] && r.states[|r.states| - 1].dirty != {} }

  /** `r'` is a run of a producer that continues `r` with these operations. */
  ghost predicate Grown(a: Addressing, r: Run, ops: seq<Op>, r': Run)
    requires a.Valid()
  {
    r'.Valid(a) && r'.Extends(r, ops)
  }

  ghost predicate Applies(a: Addressing, r: Run, r': Run)
    requires a.Valid()
  {
    exists event, backend :: Grown(a, r, OpsOf(event, backend), r')
  }

  /** The producers' side of the relay's steps; the tasks and the counter move as in CkfRelay. */
  ghost predicate RelayStep(a: Addressing, s: RelayState, id: nat, action: Action, s': RelayState)
    requires a.Valid()
  {
    match action
    case Update(p, leavesDirty) =>
      && TaskOf(s, id).Idle? && p in s'.runs && Applies(a, RunOf(s, p), s'.runs[p])
      && leavesDirty == Dirty(s'.runs[p])
      && s' == Goto(s, id, CkfRelay.Updated(p)).(runs := s.runs[p := s'.runs[p]])
    case Bump(threshold) =>
      && TaskOf(s, id).Updated?
      && var next := if s.pending + 1 >= threshold then CkfRelay.FlushStart else CkfRelay.Idle;
         s' == Goto(s, id, next).(pending := s.pending + 1)
    case Wake =>
      && TaskOf(s, id).Idle? && s.pending > 0
      && s' == Goto(s, id, CkfRelay.FlushStart)
    case Zero =>
      && TaskOf(s, id).FlushStart?
      && s' == Goto(s, id, CkfRelay.Zeroed(s.runs.Keys)).(pending := 0)
    case List(listed) =>
      && TaskOf(s, id).Zeroed? && TaskOf(s, id).known <= listed <= s.runs.Keys
      && s' == Goto(s, id, CkfRelay.Draining(listed))
    case Drain(p) =>
      && TaskOf(s, id).Draining? && p in TaskOf(s, id).rest && p in s.runs && p in s'.runs
      && Grown(a, s.runs[p], [TakeDelta], s'.runs[p])
      && s' == Goto(s, id, CkfRelay.Draining(TaskOf(s, id).rest - {p})).(runs := s.runs[p := s'.runs[p]])
    case Finish =>
      && TaskOf(s, id).Draining? && TaskOf(s, id).rest == {}
      && s' == Goto(s, id, CkfRelay.Idle)
    case Barrier(p) =>
      && TaskOf(s, id).Idle?
      && if p in s.runs then
           && p in s'.runs && Grown(a, s.runs[p], [TakeSnapshot], s'.runs[p])
           && s' == s.(runs := s.runs[p := s'.runs[p]])
         else s' == s
  }

  /** The relay's own view: which pools there are, and which have dirty buckets. */
  function Abs(s: RelayState): CkfRelay.State {
    CkfRelay.State(s.runs.Keys, (set p | p in s.runs && Dirty(s.runs[p])), s.pending, s.tasks)
  }

  ghost predicate AllRuns(a: Addressing, s: RelayState)
    requires a.Valid()
  {
    forall p :: p in s.runs ==> s.runs[p].Valid(a)
  }

  /** A publication leaves the producer clean. */
  lemma PublishedClean(a: Addressing, r: Run, op: Op, r': Run)
    requires a.Valid() && r.Valid(a) && Grown(a, r, [op], r') && (op.TakeDelta? || op.TakeSnapshot?)
    ensures !Dirty(r')
  {
    hide StoredStep, RemovedStep, ClearedStep, NewState;
    StepAt(a, r', |r.ops|);
  }

  lemma NewRunValid(a: Addressing)
    requires a.Valid()
    ensures NewRun().Valid(a)
  {}

  /** Seen by the relay, every step is one of its own; and every pool's run stays a run. */
  lemma StepRefines(a: Addressing, s: RelayState, id: nat, action: Action, s': RelayState)
    requires a.Valid() && AllRuns(a, s) && RelayStep(a, s, id, action, s')
    ensures AllRuns(a, s') && CkfRelay.Step(Abs(s), id, action, Abs(s'))
  {
    hide Dirty, Run.Valid, Run.Extends, NewRun;
    match action
    case Update(p, leavesDirty) =>
      FlagMoves(s, p, s');
    case Drain(p) =>
      PublishedClean(a, s.runs[p], TakeDelta, s'.runs[p]);
      FlagMoves(s, p, s');
    case Barrier(p) =>
      if p in s.runs {
        PublishedClean(a, s.runs[p], TakeSnapshot, s'.runs[p]);
        FlagMoves(s, p, s');
      } else {
        assert Abs(s).dirty - {p} == Abs(s).dirty;
      }
    case _ =>
  }

  lemma FlagMoves(s: RelayState, p: PoolId, s': RelayState)
    requires p in s'.runs && s'.runs == s.runs[p := s'.runs[p]]
    ensures Abs(s').pools == Abs(s).pools + {p}
    ensures Abs(s').dirty == if Dirty(s'.runs[p]) then Abs(s).dirty + {p} else Abs(s).dirty - {p}
  {
    hide Dirty;
  }

  datatype RelayRun = RelayRun(states: seq<RelayState>, ids: seq<nat>, actions: seq<Action>) {
    /** An interleaving of a new relay. */
    ghost predicate Valid(a: Addressing)
      requires a.Valid()
    {
      && |ids| == |actions| && |states| == |actions| + 1
      && states[0] == RelayState(map[], 0, map[])
      && forall k :: 0 <= k < |actions| ==> Steps(a, k)
    }

    ghost predicate Steps(a: Addressing, k: nat)
      requires a.Valid() && k < |actions| == |ids| && k + 1 < |states|
    {
      RelayStep(a, states[k], ids[k], actions[k], states[k + 1])
    }

    function Abstracted(): CkfRelay.Run {
      CkfRelay.Run(seq(|states|, k requires 0 <= k < |states| => Abs(states[k])), ids, actions)
    }
  }

  lemma {:induction false} RunsStayRuns(a: Addressing, r: RelayRun, k: nat)
    requires a.Valid() && r.Valid(a) && k < |r.states|
    ensures AllRuns(a, r.states[k])
  {
    hide RelayStep, AllRuns;
    if k == 0 {
      NoRuns(a);
    } else {
      RunsStayRuns(a, r, k - 1);
      assert r.Steps(a, k - 1);
      StepRefines(a, r.states[k - 1], r.ids[k - 1], r.actions[k - 1], r.states[k]);
    }
  }

  lemma NoRuns(a: Addressing)
    requires a.Valid()
    ensures AllRuns(a, RelayState(map[], 0, map[]))
  {}

  lemma AbstractedValid(a: Addressing, r: RelayRun)
    requires a.Valid() && r.Valid(a)
    ensures r.Abstracted().Valid()
  {
    hide RelayStep, AllRuns, CkfRelay.Step;
    forall k | 0 <= k < |r.actions| ensures r.Abstracted().Steps(k) {
      RunsStayRuns(a, r, k);
      assert r.Steps(a, k);
      StepRefines(a, r.states[k], r.ids[k], r.actions[k], r.states[k + 1]);
    }
  }

  /**
   When all tasks rest and nothing is pending, every pool's publications, applied in
   order, leave a lane equal to its producer's buckets, as long as the pool's last reset,
   if any, has been followed by a snapshot.
   */
  lemma AtRestReplicated(a: Addressing, r: RelayRun, k: nat, p: PoolId, v0: LaneBuckets, start: bool)
    requires a.Valid() && r.Valid(a) && k < |r.states| && p in r.states[k].runs
    requires r.states[k].pending == 0 && forall id :: TaskOf(r.states[k], id).Idle?
    requires var run := r.states[k].runs[p]; |run.ops| < |run.states| && AlignedAt(run.ops, |run.ops|, start)
    requires start ==> v0 == EmptyLane()
    ensures var run := r.states[k].runs[p];
      ViewAfter(v0, RunMessages(run, |run.ops|)) == run.states[|run.ops|].buckets
  {
    hide RelayStep, Step, ViewAfter, RunMessages, AlignedAt, EmptyLane;
    var s := r.states[k];
    RunsStayRuns(a, r, k);
    AbstractedValid(a, r);
    forall id ensures CkfRelay.TaskOf(Abs(s), id).Idle? {
      assert TaskOf(s, id).Idle?;
    }
    NotDirtyAtRest(r.Abstracted(), k, p);
    ReplicaFollows(a, s.runs[p], |s.runs[p].ops|, v0, start);
    AllClean(s.runs[p].states[|s.runs[p].ops|], ViewAfter(v0, RunMessages(s.runs[p], |s.runs[p].ops|)));
  }

  lemma NotDirtyAtRest(r: CkfRelay.Run, k: nat, p: PoolId)
    requires r.Valid() && k < |r.states| && r.states[k].pending == 0
    requires forall id :: CkfRelay.TaskOf(r.states[k], id).Idle?
    ensures p !in r.states[k].dirty
  {
    hide CkfRelay.Step;
    if p in r.states[k].dirty { CkfRelay.NoLostPublication(r, k, p); }
  }
}
