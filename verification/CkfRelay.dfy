/**
 When the relay publishes (ckf_relay.rs): `apply_event` updates a producer and then
 bumps the pending counter; `flush` zeroes the counter, lists the pools and drains them
 one by one; a background task flushes when the counter is positive. The steps of any
 number of such tasks interleave. What is proved: a dirty pool is never forgotten.
 */
module CkfRelay {
  datatype PoolId = PoolId(domain: nat, region: string)

  datatype Task =
    | Idle
    | Updated(pool: PoolId)              // apply_event, producer updated, counter not yet bumped
    | FlushStart                         // flush entered
    | Zeroed(known: set<PoolId>)         // counter zeroed when `known` pools existed, pools not yet listed
    | Draining(rest: set<PoolId>)        // pools listed, `rest` still to drain

  datatype State = State(pools: set<PoolId>, dirty: set<PoolId>, pending: nat, tasks: map<nat, Task>)

  datatype Action =
    | Update(pool: PoolId, leavesDirty: bool)
    | Bump(threshold: nat)
    | Wake
    | Zero
    | List(listed: set<PoolId>)
    | Drain(pool: PoolId)
    | Finish
    | Barrier(pool: PoolId)

  function TaskOf(s: State, id: nat): Task { if id in s.tasks then s.tasks[id] else Idle }

  function Goto(s: State, id: nat, t: Task): State { s.(tasks := s.tasks[id := t]) }

  ghost predicate Step(s: State, id: nat, action: Action, s': State) {
    match action
    // apply_event: create the producer if needed and apply the event to it; a reset may leave it clean
    case Update(p, leavesDirty) =>
      && TaskOf(s, id).Idle?
      && s' == Goto(s, id, Updated(p)).(pools := s.pools + {p},
                                        dirty := if leavesDirty then s.dirty + {p} else s.dirty - {p})
    // apply_event: bump the counter, and flush at once from the threshold on
    case Bump(threshold) =>
      && TaskOf(s, id).Updated?
      && s' == Goto(s, id, if s.pending + 1 >= threshold then FlushStart else Idle).(pending := s.pending + 1)
    // background task: flush when something is pending
    case Wake =>
      && TaskOf(s, id).Idle? && s.pending > 0
      && s' == Goto(s, id, FlushStart)
    // flush: zero the counter
    case Zero =>
      && TaskOf(s, id).FlushStart?
      && s' == Goto(s, id, Zeroed(s.pools)).(pending := 0)
    // flush: list the pools; one that appears during the listing may be missed
    case List(listed) =>
      && TaskOf(s, id).Zeroed? && TaskOf(s, id).known <= listed <= s.pools
      && s' == Goto(s, id, Draining(listed))
    // flush: publish a pool's delta, which empties its dirty set
    case Drain(p) =>
      && TaskOf(s, id).Draining? && p in TaskOf(s, id).rest
      && s' == Goto(s, id, Draining(TaskOf(s, id).rest - {p})).(dirty := s.dirty - {p})
    case Finish =>
      && TaskOf(s, id).Draining? && TaskOf(s, id).rest == {}
      && s' == Goto(s, id, Idle)
    // publish_barrier: a snapshot also empties the dirty set
    case Barrier(p) =>
      && TaskOf(s, id).Idle?
      && s' == s.(dirty := s.dirty - {p})
  }

  /** Task `id` will still make `p` pending, or drain it. */
  predicate Covers(s: State, id: nat, p: PoolId) {
    match TaskOf(s, id)
    case Idle => false
    case Updated(q) => q == p
    case FlushStart => p in s.pools
    case Zeroed(known) => p in known
    case Draining(rest) => p in rest
  }

  ghost predicate Remembered(s: State, p: PoolId) {
    s.pending > 0 || exists id :: Covers(s, id, p)
  }

  ghost predicate Inv(s: State) {
    && s.dirty <= s.pools
    && (forall p :: p in s.dirty ==> Remembered(s, p))
    && (forall id :: TaskOf(s, id).Updated? ==> TaskOf(s, id).pool in s.pools)
    && (forall id :: TaskOf(s, id).Zeroed? ==> TaskOf(s, id).known <= s.pools)
  }

  lemma OthersStillCover(s: State, id: nat, t: Task, s': State, p: PoolId)
    requires s'.tasks == s.tasks[id := t] && s.pools <= s'.pools
    requires exists other :: other != id && Covers(s, other, p)
    ensures exists other :: Covers(s', other, p)
  {
    var other :| other != id && Covers(s, other, p);
    assert TaskOf(s', other) == TaskOf(s, other);
    assert Covers(s', other, p);
  }

  lemma StepRemembers(s: State, id: nat, action: Action, s': State, p: PoolId)
    requires Inv(s) && Step(s, id, action, s') && p in s'.dirty
    ensures Remembered(s', p)
    ensures action.Zero? ==> Covers(s', id, p)
  {
    if action.Barrier? {
      assert s'.pending == 0 ==> exists other :: Covers(s, other, p);
      if other :| Covers(s, other, p) { assert Covers(s', other, p); }
    } else {
      var t := s'.tasks[id];
      if action.Update? && p == action.pool {
        assert Covers(s', id, p);
      } else if action.Zero? {
        assert Covers(s', id, p);
      } else if s'.pending == 0 {
        assert Remembered(s, p);
        if Covers(s, id, p) {
          assert Covers(s', id, p);
        } else {
          OthersStillCover(s, id, t, s', p);
        }
      }
    }
  }

  lemma StepInvariant(s: State, id: nat, action: Action, s': State)
    requires Inv(s) && Step(s, id, action, s')
    ensures Inv(s')
  {
    forall p | p in s'.dirty ensures Remembered(s', p) {
      StepRemembers(s, id, action, s', p);
    }
    forall other
      ensures TaskOf(s', other).Updated? ==> TaskOf(s', other).pool in s'.pools
      ensures TaskOf(s', other).Zeroed? ==> TaskOf(s', other).known <= s'.pools
    {
      assert other != id ==> TaskOf(s', other) == TaskOf(s, other);
    }
  }

  datatype Run = Run(states: seq<State>, ids: seq<nat>, actions: seq<Action>) {
    /** An interleaving of a new relay. */
    ghost predicate Valid() {
      && |ids| == |actions| && |states| == |actions| + 1
      && states[0] == State({}, {}, 0, map[])
      && forall k :: 0 <= k < |actions| ==> Steps(k)
    }

    ghost predicate Steps(k: nat)
      requires k < |actions| == |ids| && k + 1 < |states|
    {
      Step(states[k], ids[k], actions[k], states[k + 1])
    }
  }

  lemma {:induction false} RunInvariant(r: Run, k: nat)
    requires r.Valid() && k < |r.states|
    ensures Inv(r.states[k])
  {
    hide Inv, Step;
    if k == 0 {
      NewRelayInvariant();
    } else {
      RunInvariant(r, k - 1);
      assert r.Steps(k - 1);
      StepInvariant(r.states[k - 1], r.ids[k - 1], r.actions[k - 1], r.states[k]);
    }
  }

  lemma NewRelayInvariant()
    ensures Inv(State({}, {}, 0, map[]))
  {}

  /**
   In every interleaving, a pool with dirty buckets is covered: the counter is positive,
   or some apply_event has updated that pool and has yet to bump the counter, or some
   flush has yet to drain it.
   */
  lemma NoLostPublication(r: Run, k: nat, p: PoolId)
    requires r.Valid() && k < |r.states| && p in r.states[k].dirty
    ensures r.states[k].pending > 0 || exists id :: Covers(r.states[k], id, p)
  {
    hide Step;
    RunInvariant(r, k);
    assert Remembered(r.states[k], p);
  }

  /** At rest, a dirty pool means a positive counter, so the background task's next check flushes. */
  lemma DirtyAtRestWakes(r: Run, k: nat, p: PoolId, id: nat)
    requires r.Valid() && k < |r.states| && p in r.states[k].dirty
    requires forall other :: TaskOf(r.states[k], other).Idle?
    ensures Step(r.states[k], id, Wake, Goto(r.states[k], id, FlushStart))
  {
    NoLostPublication(r, k, p);
  }

  // ---------- one whole flush ----------

  /** Task `id` drains the pools one after the other, and nothing else happens. */
  ghost predicate DrainedAlone(states: seq<State>, id: nat, pools: seq<PoolId>) {
    && |states| == |pools| + 1
    && forall k :: 0 <= k < |pools| ==> DrainsNext(states, id, pools, k)
  }

  ghost predicate DrainsNext(states: seq<State>, id: nat, pools: seq<PoolId>, k: nat)
    requires k < |pools| && k + 1 < |states|
  {
    Step(states[k], id, Drain(pools[k]), states[k + 1])
  }

  lemma {:induction false} DrainsClean(states: seq<State>, id: nat, pools: seq<PoolId>, k: nat)
    requires DrainedAlone(states, id, pools) && k < |states|
    requires TaskOf(states[0], id).Draining? && states[0].dirty <= TaskOf(states[0], id).rest
    ensures TaskOf(states[k], id).Draining? && states[k].dirty <= TaskOf(states[k], id).rest
    ensures states[k].pending == states[0].pending
  {
    if k > 0 {
      DrainsClean(states, id, pools, k - 1);
      assert DrainsNext(states, id, pools, k - 1);
    }
  }

  /** A whole flush that runs alone, from zeroing to its end, leaves no pool dirty and nothing pending. */
  lemma FlushAloneCleans(start: State, zeroed: State, listed: set<PoolId>, states: seq<State>, pools: seq<PoolId>,
                         end: State, id: nat)
    requires Inv(start) && Step(start, id, Zero, zeroed)
    requires DrainedAlone(states, id, pools) && Step(zeroed, id, List(listed), states[0])
    requires Step(states[|pools|], id, Finish, end)
    ensures end.dirty == {} && end.pending == 0
  {
    DrainsClean(states, id, pools, |pools|);
  }

  // ---------- the threshold ----------

  /**
   A task enters a flush exactly when the background check finds something pending or an event
   reaches the threshold.
   */
  lemma FlushStartsIff(r: Run, k: nat)
    requires r.Valid() && k < |r.actions| && (r.actions[k].Wake? || r.actions[k].Bump?)
    ensures r.actions[k].Wake? ==> r.states[k].pending > 0 && TaskOf(r.states[k + 1], r.ids[k]).FlushStart?
    ensures r.actions[k].Bump? ==>
              && r.states[k + 1].pending == r.states[k].pending + 1
              && (TaskOf(r.states[k + 1], r.ids[k]).FlushStart? <==> r.states[k + 1].pending >= r.actions[k].threshold)
              && (TaskOf(r.states[k + 1], r.ids[k]).Idle? <==> r.states[k + 1].pending < r.actions[k].threshold)
  {
    assert r.Steps(k);
  }

  /** As many events as the threshold are never left pending: some task is about to zero the counter. */
  lemma {:induction false} PendingBelowThreshold(r: Run, k: nat, threshold: nat)
    requires r.Valid() && k < |r.states| && threshold > 0
    requires forall m :: 0 <= m < |r.actions| && r.actions[m].Bump? ==> r.actions[m].threshold == threshold
    ensures r.states[k].pending >= threshold ==> exists id :: TaskOf(r.states[k], id).FlushStart?
  {
    if k > 0 {
      PendingBelowThreshold(r, k - 1, threshold);
      assert r.Steps(k - 1);
      StillFlushes(r.states[k - 1], r.ids[k - 1], r.actions[k - 1], r.states[k], threshold);
    }
  }

  lemma StillFlushes(s: State, id: nat, action: Action, s': State, threshold: nat)
    requires Step(s, id, action, s') && threshold > 0 && (action.Bump? ==> action.threshold == threshold)
    requires s.pending >= threshold ==> exists other :: TaskOf(s, other).FlushStart?
    ensures s'.pending >= threshold ==> exists other :: TaskOf(s', other).FlushStart?
  {
    if s'.pending >= threshold && !action.Bump? {
      var other :| TaskOf(s, other).FlushStart?;
      assert TaskOf(s', other).FlushStart?;
    }
    if action.Bump? && s'.pending >= threshold { assert TaskOf(s', id).FlushStart?; }
  }
}
