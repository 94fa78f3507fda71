/**
 Request coalescing (coalescer.rs) as a step system: calls pass the capacity guard, the
 map entry, the shared forward and, for the leader, the cleanup, in any interleaving.
 The leader's future is not cancelled; results of forwards are arbitrary.
 */
module Coalescer {
  import opened Wrappers

  type Key = nat
  type Response = string

  /** One execution of the `produce` of the call `owner`. */
  datatype Forward = Forward(key: Key, owner: nat, result: Option<Response>)

  datatype Call =
    | Entered(key: Key)                               // about to check the capacity
    | Passed(key: Key)                                // capacity fine, about to take the map entry
    | Bypassing(key: Key, forward: nat)               // runs its own forward
    | Awaiting(key: Key, forward: nat, leader: bool)  // holds a handle on a shared forward
    | Cleaning(key: Key, forward: nat)                // leader, forward resolved, about to clean up
    | Returned(key: Key, forward: nat, result: Response)

  datatype Stats = Stats(leaders: nat, waiters: nat, bypassed: nat, saved: nat)

  datatype Config = Config(ttlMs: nat, maxInflight: nat)

  /** `timers` holds the sleeping removal tasks, each with the key it will remove. */
  datatype State = State(
    inflight: map<Key, nat>,
    forwards: seq<Forward>,
    calls: map<nat, Call>,
    timers: map<nat, Key>,
    stats: Stats)

  datatype Action =
    | Enter(key: Key)
    | Guard
    | Entry
    | Resolve(forward: nat, result: Response)
    | Complete
    | Cleanup
    | Expire

  function NewState(): State { State(map[], [], map[], map[], Stats(0, 0, 0, 0)) }

  function Move(s: State, id: nat, c: Call): State { s.(calls := s.calls[id := c]) }

  ghost predicate Step(cfg: Config, s: State, id: nat, action: Action, s': State) {
    match action
    case Enter(key) =>
      id !in s.calls && s' == Move(s, id, Entered(key))
    // capacity guard: degrade to a direct forward
    case Guard =>
      && id in s.calls && s.calls[id].Entered?
      && var key := s.calls[id].key;
         s' ==
         if cfg.maxInflight > 0 && |s.inflight| >= cfg.maxInflight then
           Move(s, id, Bypassing(key, |s.forwards|)).(
             forwards := s.forwards + [Forward(key, id, None)],
             stats := s.stats.(bypassed := s.stats.bypassed + 1))
         else Move(s, id, Passed(key))
    // map entry: attach to an occupied one, fill a vacant one with a new forward
    case Entry =>
      && id in s.calls && s.calls[id].Passed?
      && var key := s.calls[id].key;
         s' ==
         if key in s.inflight then
           Move(s, id, Awaiting(key, s.inflight[key], false)).(
             stats := s.stats.(waiters := s.stats.waiters + 1, saved := s.stats.saved + 1))
         else
           Move(s, id, Awaiting(key, |s.forwards|, true)).(
             inflight := s.inflight[key := |s.forwards|],
             forwards := s.forwards + [Forward(key, id, None)],
             stats := s.stats.(leaders := s.stats.leaders + 1))
    // a forward finishes, once
    case Resolve(f, result) =>
      && f < |s.forwards| && s.forwards[f].result.None?
      && s' == s.(forwards := s.forwards[f := s.forwards[f].(result := Some(result))])
    // the awaited forward is resolved: return, or clean up first if leader
    case Complete =>
      && id in s.calls && (s.calls[id].Awaiting? || s.calls[id].Bypassing?)
      && s.calls[id].forward < |s.forwards| && s.forwards[s.calls[id].forward].result.Some?
      && var c := s.calls[id];
         s' == Move(s, id,
           if c.Awaiting? && c.leader then Cleaning(c.key, c.forward)
           else Returned(c.key, c.forward, s.forwards[c.forward].result.value))
    // schedule_cleanup: remove the entry by key now, or leave that to a timer
    case Cleanup =>
      && id in s.calls && s.calls[id].Cleaning?
      && s.calls[id].forward < |s.forwards| && s.forwards[s.calls[id].forward].result.Some?
      && var c := s.calls[id];
         var t := Move(s, id, Returned(c.key, c.forward, s.forwards[c.forward].result.value));
         s' == if cfg.ttlMs == 0 then t.(inflight := s.inflight - {c.key}) else t.(timers := s.timers[id := c.key])
    // a timer fires: remove the entry by key
    case Expire =>
      && id in s.timers
      && s' == s.(inflight := s.inflight - {s.timers[id]}, timers := s.timers - {id})
  }

  // ---------- who may remove an entry ----------

  /** Leader `id` has yet to remove the entry of `key`, itself or through its timer. */
  predicate Removes(s: State, id: nat, key: Key) {
    || (id in s.calls && s.calls[id].key == key && s.calls[id].Awaiting? && s.calls[id].leader)
    || (id in s.calls && s.calls[id].key == key && s.calls[id].Cleaning?)
    || (id in s.timers && s.timers[id] == key)
  }

  predicate Attached(c: Call) { c.Bypassing? || c.Awaiting? || c.Cleaning? || c.Returned? }

  /**
   A call's forward exists, runs the call's request and is resolved once the call has
   seen its result; a call that has yet to remove an entry owns exactly that entry.
   */
  predicate CallInv(s: State, id: nat) {
    && (id in s.calls && Attached(s.calls[id]) ==>
          var c := s.calls[id];
          && c.forward < |s.forwards| && s.forwards[c.forward].key == c.key
          && (c.Cleaning? ==> s.forwards[c.forward].result.Some?)
          && (c.Returned? ==> s.forwards[c.forward].result == Some(c.result)))
    && (id in s.timers ==> id in s.calls && s.calls[id].Returned? && s.timers[id] == s.calls[id].key)
    && (id in s.calls && Removes(s, id, s.calls[id].key) ==>
          var c := s.calls[id];
          && Attached(c) && c.key in s.inflight && s.inflight[c.key] == c.forward
          && c.forward < |s.forwards| && s.forwards[c.forward].owner == id)
  }

  /** An entry's forward runs the entry's key, and its owner has yet to remove the entry. */
  predicate EntryInv(s: State, key: Key) {
    key in s.inflight ==>
      && s.inflight[key] < |s.forwards| && s.forwards[s.inflight[key]].key == key
      && Removes(s, s.forwards[s.inflight[key]].owner, key)
  }

  ghost predicate Inv(s: State) {
    && (forall id :: CallInv(s, id))
    && (forall key :: EntryInv(s, key))
    && |s.forwards| == s.stats.leaders + s.stats.bypassed
    && s.stats.saved == s.stats.waiters
  }

  /** The call that takes the step. */
  lemma OwnCallInv(cfg: Config, s: State, id: nat, action: Action, s': State)
    requires CallInv(s, id) && Step(cfg, s, id, action, s') && !action.Resolve? && !action.Entry?
    ensures CallInv(s', id)
  {
    match action
    case Enter(_) =>
    case Guard =>
    case Complete =>
    case Cleanup =>
    case Expire =>
  }

  lemma OwnEntryCallInv(cfg: Config, s: State, id: nat, s': State)
    requires CallInv(s, id) && Step(cfg, s, id, Entry, s') && EntryInv(s, s.calls[id].key)
    ensures CallInv(s', id)
  {
    var key := s.calls[id].key;
    assert id !in s.timers;
    if key in s.inflight {
      assert s'.calls[id] == Awaiting(key, s.inflight[key], false);
    } else {
      assert s'.calls[id] == Awaiting(key, |s.forwards|, true);
    }
  }

  predicate ForwardKept(f: Forward, g: Forward) {
    f.key == g.key && f.owner == g.owner && (f.result.Some? ==> g.result == f.result)
  }

  /** What a step leaves of another call: its own place, the forwards there are, and the entry it has to remove. */
  ghost predicate LeavesCall(s: State, s': State, other: nat) {
    && (other in s'.calls <==> other in s.calls) && (other in s.calls ==> s'.calls[other] == s.calls[other])
    && (other in s'.timers <==> other in s.timers) && (other in s.timers ==> s'.timers[other] == s.timers[other])
    && |s.forwards| <= |s'.forwards|
    && (forall f :: 0 <= f < |s.forwards| ==> ForwardKept(s.forwards[f], s'.forwards[f]))
    && (other in s.calls && Removes(s, other, s.calls[other].key) && s.calls[other].key in s.inflight ==>
          s.calls[other].key in s'.inflight && s'.inflight[s.calls[other].key] == s.inflight[s.calls[other].key])
  }

  lemma LeftCallInv(s: State, s': State, other: nat)
    requires CallInv(s, other) && LeavesCall(s, s', other)
    ensures CallInv(s', other)
  {
    if other in s.calls && Attached(s.calls[other]) && s.calls[other].forward < |s.forwards| {
      assert ForwardKept(s.forwards[s.calls[other].forward], s'.forwards[s.calls[other].forward]);
    }
  }

  lemma StepLeavesCall(cfg: Config, s: State, id: nat, action: Action, s': State, other: nat)
    requires CallInv(s, other) && CallInv(s, id) && Step(cfg, s, id, action, s') && (other != id || action.Resolve?)
    ensures LeavesCall(s, s', other)
  {}

  /** Any other call: an entry removed or filled by this step is not its own. */
  lemma OtherCallInv(cfg: Config, s: State, id: nat, action: Action, s': State, other: nat)
    requires Inv(s) && Step(cfg, s, id, action, s') && (other != id || action.Resolve?)
    ensures CallInv(s', other)
  {
    hide Step, CallInv, EntryInv, LeavesCall;
    assert CallInv(s, other) && CallInv(s, id);
    StepLeavesCall(cfg, s, id, action, s', other);
    LeftCallInv(s, s', other);
  }

  lemma CallsAndEntries(s: State, id: nat)
    requires Inv(s)
    ensures CallInv(s, id)
    ensures id in s.calls ==> EntryInv(s, s.calls[id].key)
  {
    hide CallInv, EntryInv;
  }

  lemma StepCallInv(cfg: Config, s: State, id: nat, action: Action, s': State, other: nat)
    requires Inv(s) && Step(cfg, s, id, action, s')
    ensures CallInv(s', other)
  {
    hide Inv, CallInv, EntryInv;
    if other == id && !action.Resolve? {
      CallsAndEntries(s, id);
      if action.Entry? { OwnEntryCallInv(cfg, s, id, s'); } else { OwnCallInv(cfg, s, id, action, s'); }
    } else {
      OtherCallInv(cfg, s, id, action, s', other);
    }
  }

  lemma StepEntryInv(cfg: Config, s: State, id: nat, action: Action, s': State, key: Key)
    requires Inv(s) && Step(cfg, s, id, action, s')
    ensures EntryInv(s', key)
  {
    assert EntryInv(s, key) && CallInv(s, id);
    if key in s.inflight && s.inflight[key] < |s.forwards| { assert CallInv(s, s.forwards[s.inflight[key]].owner); }
    hide Inv;
    match action
    case Enter(_) =>
    case Guard =>
    case Entry =>
    case Resolve(_, _) =>
    case Complete =>
    case Cleanup =>
    case Expire =>
  }

  lemma StepInvariant(cfg: Config, s: State, id: nat, action: Action, s': State)
    requires Inv(s) && Step(cfg, s, id, action, s')
    ensures Inv(s')
  {
    hide CallInv, EntryInv;
    forall other { StepCallInv(cfg, s, id, action, s', other); }
    forall key { StepEntryInv(cfg, s, id, action, s', key); }
  }

  /** Removal by key never drops another leader's entry: two removers never share a key. */
  lemma RemoversHaveDistinctKeys(s: State, i: nat, j: nat, key: Key)
    requires Inv(s) && Removes(s, i, key) && Removes(s, j, key)
    ensures i == j && key in s.inflight
  {
    assert CallInv(s, i) && CallInv(s, j);
    hide Inv;
  }

  // ---------- runs ----------

  datatype Run = Run(states: seq<State>, ids: seq<nat>, actions: seq<Action>) {
    ghost predicate Valid(cfg: Config) {
      && |ids| == |actions| && |states| == |actions| + 1
      && states[0] == NewState()
      && forall k :: 0 <= k < |actions| ==> Steps(cfg, k)
    }

    ghost predicate Steps(cfg: Config, k: nat)
      requires k < |actions| == |ids| && k + 1 < |states|
    {
      Step(cfg, states[k], ids[k], actions[k], states[k + 1])
    }
  }

  lemma {:induction false} RunInvariant(cfg: Config, r: Run, k: nat)
    requires r.Valid(cfg) && k < |r.states|
    ensures Inv(r.states[k])
  {
    hide Inv, Step;
    if k == 0 {
      NewInvariant();
    } else {
      RunInvariant(cfg, r, k - 1);
      assert r.Steps(cfg, k - 1);
      StepInvariant(cfg, r.states[k - 1], r.ids[k - 1], r.actions[k - 1], r.states[k]);
    }
  }

  lemma NewInvariant()
    ensures Inv(NewState())
  {}

  /** A key is in the map exactly when some remover exists for it, and then exactly one does. */
  lemma OneRemoverPerEntry(cfg: Config, r: Run, k: nat, key: Key)
    requires r.Valid(cfg) && k < |r.states|
    ensures key in r.states[k].inflight <==> exists id :: Removes(r.states[k], id, key)
    ensures forall i, j :: Removes(r.states[k], i, key) && Removes(r.states[k], j, key) ==> i == j
  {
    hide Step;
    RunInvariant(cfg, r, k);
    var s := r.states[k];
    assert EntryInv(s, key);
    hide Inv, CallInv, Removes;
    forall i | Removes(s, i, key) ensures key in s.inflight {
      RemoversHaveDistinctKeys(s, i, i, key);
    }
    forall i, j | Removes(s, i, key) && Removes(s, j, key) ensures i == j {
      RemoversHaveDistinctKeys(s, i, j, key);
    }
  }

  /** Single flight: two leaders of one key never hold unfinished forwards at once. */
  lemma SingleFlight(cfg: Config, r: Run, k: nat, i: nat, j: nat)
    requires r.Valid(cfg) && k < |r.states| && {i, j} <= r.states[k].calls.Keys
    requires r.states[k].calls[i].Awaiting? && r.states[k].calls[i].leader
    requires r.states[k].calls[j].Awaiting? && r.states[k].calls[j].leader
    requires r.states[k].calls[i].key == r.states[k].calls[j].key
    ensures i == j
  {
    hide Step;
    RunInvariant(cfg, r, k);
    RemoversHaveDistinctKeys(r.states[k], i, j, r.states[k].calls[i].key);
  }

  /** Forwards run are the leaders' and the bypassed calls' own; each waiter saved one. */
  lemma ForwardAccounting(cfg: Config, r: Run, k: nat)
    requires r.Valid(cfg) && k < |r.states|
    ensures |r.states[k].forwards| == r.states[k].stats.leaders + r.states[k].stats.bypassed
    ensures r.states[k].stats.saved == r.states[k].stats.waiters
  {
    hide Step;
    RunInvariant(cfg, r, k);
  }

  /** Every returned call has the result of the one forward it joined, made for its own key. */
  lemma ReturnsItsForward(cfg: Config, r: Run, k: nat, id: nat)
    requires r.Valid(cfg) && k < |r.states| && id in r.states[k].calls && r.states[k].calls[id].Returned?
    ensures var c := r.states[k].calls[id];
      c.forward < |r.states[k].forwards| &&
      r.states[k].forwards[c.forward].key == c.key && r.states[k].forwards[c.forward].result == Some(c.result)
  {
    hide Step;
    RunInvariant(cfg, r, k);
    assert CallInv(r.states[k], id);
  }

  /** The forward a call is attached to. */
  function ForwardOf(s: State, id: nat): Option<nat> {
    if id in s.calls && Attached(s.calls[id]) then Some(s.calls[id].forward) else None
  }

  lemma KeepsForward(cfg: Config, s: State, id: nat, action: Action, s': State, other: nat)
    requires Step(cfg, s, id, action, s') && ForwardOf(s, other).Some?
    ensures ForwardOf(s', other) == ForwardOf(s, other)
  {
    hide Step, Attached;
    if other != id {
      OthersStay(cfg, s, id, action, s', other);
      SameForward(s, s', other);
    } else {
      OwnForwardStays(cfg, s, id, action, s');
    }
  }

  lemma SameForward(s: State, s': State, id: nat)
    requires id in s.calls && id in s'.calls && s'.calls[id] == s.calls[id]
    ensures ForwardOf(s', id) == ForwardOf(s, id)
  {}

  lemma OthersStay(cfg: Config, s: State, id: nat, action: Action, s': State, other: nat)
    requires Step(cfg, s, id, action, s') && other != id && other in s.calls
    ensures other in s'.calls && s'.calls[other] == s.calls[other]
  {
    hide Attached;
  }

  lemma OwnForwardStays(cfg: Config, s: State, id: nat, action: Action, s': State)
    requires Step(cfg, s, id, action, s') && ForwardOf(s, id).Some?
    ensures ForwardOf(s', id) == ForwardOf(s, id)
  {}

  /** Joining attaches a call to the forward of the entry: the one found there, or the one just put there. */
  lemma JoinsEntry(cfg: Config, s: State, id: nat, action: Action, s': State)
    requires Step(cfg, s, id, action, s') && action.Entry?
    ensures id in s.calls && s.calls[id].key in s'.inflight && ForwardOf(s', id) == Some(s'.inflight[s.calls[id].key])
    ensures s.calls[id].key in s.inflight ==> s'.inflight[s.calls[id].key] == s.inflight[s.calls[id].key]
  {}

  /**
   A call that joins an entry at step `k` stays with that entry's forward for the rest of
   the run, and what it returns is that forward's result.
   */
  lemma {:induction false} JoinedForwardKept(cfg: Config, r: Run, k: nat, n: nat)
    requires r.Valid(cfg) && k < n < |r.states| && r.actions[k].Entry?
    ensures var id := r.ids[k];
      && id in r.states[k].calls && r.states[k].calls[id].key in r.states[k + 1].inflight
      && var f := r.states[k + 1].inflight[r.states[k].calls[id].key];
      && (r.states[k].calls[id].key in r.states[k].inflight ==> f == r.states[k].inflight[r.states[k].calls[id].key])
      && ForwardOf(r.states[n], id) == Some(f)
      && (r.states[n].calls[id].Returned? ==>
            f < |r.states[n].forwards| && r.states[n].forwards[f].result == Some(r.states[n].calls[id].result))
  {
    hide Step, ForwardOf;
    var id := r.ids[k];
    assert r.Steps(cfg, k);
    JoinsEntry(cfg, r.states[k], id, r.actions[k], r.states[k + 1]);
    if n > k + 1 {
      JoinedForwardKept(cfg, r, k, n - 1);
      assert r.Steps(cfg, n - 1);
      KeepsForward(cfg, r.states[n - 1], r.ids[n - 1], r.actions[n - 1], r.states[n], id);
    }
    ForwardOfAttached(r.states[n], id);
    if r.states[n].calls[id].Returned? { ReturnsItsForward(cfg, r, n, id); }
  }

  lemma ForwardOfAttached(s: State, id: nat)
    ensures ForwardOf(s, id).Some? ==>
            id in s.calls && Attached(s.calls[id]) && s.calls[id].forward == ForwardOf(s, id).value
  {}

  /** When all calls have returned and all timers have fired, nothing is left in the map. */
  lemma EmptyWhenQuiet(cfg: Config, r: Run, k: nat)
    requires r.Valid(cfg) && k < |r.states| && r.states[k].timers == map[]
    requires forall id :: id in r.states[k].calls ==> r.states[k].calls[id].Returned?
    ensures r.states[k].inflight == map[]
  {
    hide Step;
    RunInvariant(cfg, r, k);
    forall key ensures key !in r.states[k].inflight {
      assert EntryInv(r.states[k], key);
    }
  }

  /** A result, once there, is never replaced: whoever attaches later gets the same one. */
  lemma {:induction false} ForwardResolvesOnce(cfg: Config, r: Run, k: nat, n: nat, f: nat)
    requires r.Valid(cfg) && k <= n < |r.states| && f < |r.states[k].forwards| && r.states[k].forwards[f].result.Some?
    ensures f < |r.states[n].forwards| && r.states[n].forwards[f] == r.states[k].forwards[f]
  {
    if k < n {
      ForwardResolvesOnce(cfg, r, k, n - 1, f);
      assert r.Steps(cfg, n - 1);
    }
  }

  // ---------- how long an entry stays ----------

  /** The step at which leader `id` removes its entry: its cleanup without a window, its timer's firing with one. */
  predicate RemovesNow(cfg: Config, id: nat, stepId: nat, action: Action) {
    stepId == id && if cfg.ttlMs == 0 then action.Cleanup? else action.Expire?
  }

  /** Without a window there are no timers, and a leader that has returned has no entry left. */
  lemma NoWindowNoTimers(cfg: Config, r: Run, k: nat, key: Key)
    requires r.Valid(cfg) && k < |r.states| && cfg.ttlMs == 0
    ensures r.states[k].timers == map[]
    ensures key in r.states[k].inflight && r.states[k].inflight[key] < |r.states[k].forwards| ==>
              var owner := r.states[k].forwards[r.states[k].inflight[key]].owner;
              owner in r.states[k].calls && !r.states[k].calls[owner].Returned?
  {
    hide Step;
    TimersStayEmpty(cfg, r, k);
    RunInvariant(cfg, r, k);
    assert EntryInv(r.states[k], key);
  }

  lemma {:induction false} TimersStayEmpty(cfg: Config, r: Run, k: nat)
    requires r.Valid(cfg) && k < |r.states| && cfg.ttlMs == 0
    ensures r.states[k].timers == map[]
  {
    if k > 0 {
      TimersStayEmpty(cfg, r, k - 1);
      assert r.Steps(cfg, k - 1);
    }
  }

  /** The forward `f` of the entry that call `id` has filled for `key`. */
  ghost predicate Holds(s: State, key: Key, f: nat, id: nat) {
    && key in s.inflight && s.inflight[key] == f && f < |s.forwards| && s.forwards[f].owner == id
  }

  lemma FillsEntry(cfg: Config, s: State, id: nat, s': State)
    requires Step(cfg, s, id, Entry, s') && s.calls[id].key !in s.inflight
    ensures Holds(s', s.calls[id].key, |s.forwards|, id)
  {}

  /** An entry outlives every step but its own leader's removing one. */
  lemma StepKeepsEntry(cfg: Config, s: State, stepId: nat, action: Action, s': State, key: Key, f: nat, id: nat)
    requires Inv(s) && Step(cfg, s, stepId, action, s') && Holds(s, key, f, id) && !RemovesNow(cfg, id, stepId, action)
    requires cfg.ttlMs == 0 ==> s.timers == map[]
    ensures Holds(s', key, f, id)
  {
    assert EntryInv(s, key);
    if Removes(s, stepId, key) { RemoversHaveDistinctKeys(s, stepId, id, key); }
    hide Inv, CallInv;
  }

  /** And that one does remove it. */
  lemma RemovalRemoves(cfg: Config, s: State, id: nat, action: Action, s': State, key: Key, f: nat)
    requires Inv(s) && Step(cfg, s, id, action, s') && Holds(s, key, f, id) && RemovesNow(cfg, id, id, action)
    ensures key !in s'.inflight
  {
    assert EntryInv(s, key) && CallInv(s, id);
    hide Inv;
  }

  lemma {:induction false} EntryHeld(cfg: Config, r: Run, j: nat, k: nat)
    requires r.Valid(cfg) && j < k < |r.states| && r.actions[j].Entry?
    requires r.ids[j] in r.states[j].calls && r.states[j].calls[r.ids[j]].key !in r.states[j].inflight
    requires forall m :: j < m < k ==> !RemovesNow(cfg, r.ids[j], r.ids[m], r.actions[m])
    ensures Holds(r.states[k], r.states[j].calls[r.ids[j]].key, |r.states[j].forwards|, r.ids[j])
  {
    hide Step, Holds, Inv, RemovesNow;
    assert r.Steps(cfg, k - 1);
    if k == j + 1 {
      FillsEntry(cfg, r.states[j], r.ids[j], r.states[k]);
    } else {
      EntryHeld(cfg, r, j, k - 1);
      RunInvariant(cfg, r, k - 1);
      if cfg.ttlMs == 0 { TimersStayEmpty(cfg, r, k - 1); }
      StepKeepsEntry(cfg, r.states[k - 1], r.ids[k - 1], r.actions[k - 1], r.states[k],
                     r.states[j].calls[r.ids[j]].key, |r.states[j].forwards|, r.ids[j]);
    }
  }

  /**
   An entry filled at step `j` stays, with its forward, until its leader's own removing
   step: the cleanup if there is no window, the firing of the leader's timer if there is
   one. That step removes it, and every call that takes the entry of the key in between
   joins that forward and starts none.
   */
  lemma EntryStaysForTheWindow(cfg: Config, r: Run, j: nat, k: nat)
    requires r.Valid(cfg) && j < k < |r.actions| && r.actions[j].Entry?
    requires r.ids[j] in r.states[j].calls && r.states[j].calls[r.ids[j]].key !in r.states[j].inflight
    requires forall m :: j < m < k ==> !RemovesNow(cfg, r.ids[j], r.ids[m], r.actions[m])
    ensures var key, f := r.states[j].calls[r.ids[j]].key, |r.states[j].forwards|;
      && key in r.states[k].inflight && r.states[k].inflight[key] == f
      && (RemovesNow(cfg, r.ids[j], r.ids[k], r.actions[k]) ==> key !in r.states[k + 1].inflight)
      && (r.actions[k].Entry? && r.ids[k] in r.states[k].calls && r.states[k].calls[r.ids[k]].key == key ==>
            && ForwardOf(r.states[k + 1], r.ids[k]) == Some(f)
            && r.states[k + 1].forwards == r.states[k].forwards)
  {
    hide Step, Inv, RemovesNow, ForwardOf;
    EntryHeld(cfg, r, j, k);
    RunInvariant(cfg, r, k);
    assert r.Steps(cfg, k);
    var s, s', id := r.states[k], r.states[k + 1], r.ids[k];
    var key, f := r.states[j].calls[r.ids[j]].key, |r.states[j].forwards|;
    if RemovesNow(cfg, r.ids[j], id, r.actions[k]) {
      SameStep(cfg, r.ids[j], id, r.actions[k]);
      RemovalRemoves(cfg, s, id, r.actions[k], s', key, f);
    }
    if r.actions[k].Entry? && id in s.calls && s.calls[id].key == key {
      JoinsEntry(cfg, s, id, r.actions[k], s');
      StartsNone(cfg, s, id, s');
    }
  }

  lemma SameStep(cfg: Config, id: nat, stepId: nat, action: Action)
    requires RemovesNow(cfg, id, stepId, action)
    ensures stepId == id
  {}

  lemma StartsNone(cfg: Config, s: State, id: nat, s': State)
    requires Step(cfg, s, id, Entry, s') && s.calls[id].key in s.inflight
    ensures s'.forwards == s.forwards && s'.inflight == s.inflight
  {}

  // ---------- the capacity guard and the counters ----------

  /** A call bypasses exactly when it finds the capacity set and used up. */
  lemma BypassesIff(cfg: Config, r: Run, k: nat)
    requires r.Valid(cfg) && k < |r.actions| && r.actions[k].Guard?
    ensures r.ids[k] in r.states[k + 1].calls
    ensures r.states[k + 1].calls[r.ids[k]].Bypassing? <==> 0 < cfg.maxInflight <= |r.states[k].inflight|
  {
    assert r.Steps(cfg, k);
  }

  /** Calls that have bypassed, led and joined in the first `k` steps. */
  function Bypasses(cfg: Config, r: Run, k: nat): nat
    requires k <= |r.actions| == |r.ids| < |r.states|
  {
    if k == 0 then 0
    else Bypasses(cfg, r, k - 1) +
         if r.actions[k - 1].Guard? && 0 < cfg.maxInflight <= |r.states[k - 1].inflight| then 1 else 0
  }

  predicate Joins(s: State, id: nat, action: Action) {
    action.Entry? && id in s.calls && s.calls[id].key in s.inflight
  }

  predicate Leads(s: State, id: nat, action: Action) {
    action.Entry? && id in s.calls && s.calls[id].key !in s.inflight
  }

  function JoinCount(r: Run, k: nat): nat
    requires k <= |r.actions| == |r.ids| < |r.states|
  {
    if k == 0 then 0 else JoinCount(r, k - 1) + if Joins(r.states[k - 1], r.ids[k - 1], r.actions[k - 1]) then 1 else 0
  }

  function LeadCount(r: Run, k: nat): nat
    requires k <= |r.actions| == |r.ids| < |r.states|
  {
    if k == 0 then 0 else LeadCount(r, k - 1) + if Leads(r.states[k - 1], r.ids[k - 1], r.actions[k - 1]) then 1 else 0
  }

  lemma StepCounts(cfg: Config, s: State, id: nat, action: Action, s': State)
    requires Step(cfg, s, id, action, s')
    ensures s'.stats.bypassed ==
            s.stats.bypassed + if action.Guard? && 0 < cfg.maxInflight <= |s.inflight| then 1 else 0
    ensures s'.stats.leaders == s.stats.leaders + if Leads(s, id, action) then 1 else 0
    ensures s'.stats.waiters == s.stats.waiters + if Joins(s, id, action) then 1 else 0
  {}

  /** The statistics count what happened: guards that bypassed, entries filled, entries joined. */
  lemma {:induction false} StatsCount(cfg: Config, r: Run, k: nat)
    requires r.Valid(cfg) && k <= |r.actions|
    ensures r.states[k].stats.bypassed == Bypasses(cfg, r, k)
    ensures r.states[k].stats.leaders == LeadCount(r, k)
    ensures r.states[k].stats.waiters == JoinCount(r, k)
  {
    hide Step, Leads, Joins;
    if k > 0 {
      StatsCount(cfg, r, k - 1);
      assert r.Steps(cfg, k - 1);
      StepCounts(cfg, r.states[k - 1], r.ids[k - 1], r.actions[k - 1], r.states[k]);
    }
  }
}
