/**
 Retry backoff and per-backend circuit breakers (resilience.rs). The registry records
 its calls in a ghost history; the breaker's fields are proved to be functions of the
 outcomes in that history. Times are milliseconds of a monotonic clock, read at each call.
 */
module Resilience {
  import opened Arithmetic
  import opened Wrappers
  import opened Ids

  // ---------- backoff ----------

  /** `1 << attempt` if it fits 64 bits, else all ones. */
  function Factor(attempt: nat): nat { if attempt < 64 then Pow2(attempt) else U64_MAX }

  /** Base and cap in whole milliseconds, as 64-bit values. */
  datatype RetryPolicy = RetryPolicy(base: nat, max: nat) {
    predicate Valid() { base <= U64_MAX && max <= U64_MAX }

    function Backoff(attempt: nat): nat {
      Min(Min(base * Factor(attempt), U64_MAX), max)
    }
  }

  /** Saturation never shows: for every attempt the delay is base * 2^attempt capped at max. */
  lemma BackoffIsCappedDoubling(p: RetryPolicy, attempt: nat)
    requires p.Valid()
    ensures p.Backoff(attempt) == Min(p.base * Pow2(attempt), p.max)
  {
    hide Pow2;
    if attempt >= 64 {
      Pow2Values();
      Pow2Monotone(64, attempt);
      CapReached(p, Pow2(attempt));
      CapReached(p, U64_MAX);
    }
  }

  lemma CapReached(p: RetryPolicy, factor: nat)
    requires p.Valid() && factor >= U64_MAX
    ensures Min(p.base * factor, p.max) == if p.base == 0 then 0 else p.max
    ensures Min(Min(p.base * factor, U64_MAX), p.max) == if p.base == 0 then 0 else p.max
  {
    if p.base > 0 { MulMonotone(1, p.base, factor); }
  }

  lemma BackoffMonotone(p: RetryPolicy, m: nat, n: nat)
    requires p.Valid() && m <= n
    ensures p.Backoff(m) <= p.Backoff(n) <= p.max
  {
    BackoffIsCappedDoubling(p, m);
    BackoffIsCappedDoubling(p, n);
    Pow2Monotone(m, n);
    MulMonotone(Pow2(m), Pow2(n), p.base);
  }

  // ---------- one breaker ----------

  datatype BreakerState =
    | Closed(consecutiveFailures: nat)
    | Open(openedAt: nat)
    | HalfOpen(consecutiveSuccesses: nat)

  datatype CircuitState = IsClosed | IsOpen | IsHalfOpen

  /** `successThreshold` is at least 1 by construction. */
  datatype Config = Config(failureThreshold: nat, cooldown: nat, successThreshold: nat) {
    predicate Valid() { successThreshold >= 1 }
  }

  /** A call on one backend's breaker, with the time it was made. */
  datatype Event = Allow(at: nat) | Success(at: nat) | Failure(at: nat)

  /** `elapsed()`: a monotonic clock never shows a negative duration. */
  function Elapsed(since: nat, now: nat): nat { if now < since then 0 else now - since }

  predicate Permits(cfg: Config, s: BreakerState, now: nat) {
    s.Open? ==> Elapsed(s.openedAt, now) >= cfg.cooldown
  }

  function AfterAllow(cfg: Config, s: BreakerState, now: nat): BreakerState {
    if s.Open? && Permits(cfg, s, now) then HalfOpen(0) else s
  }

  function AfterSuccess(cfg: Config, s: BreakerState): BreakerState {
    match s
    case Closed(_) => Closed(0)
    case HalfOpen(n) => if n + 1 >= cfg.successThreshold then Closed(0) else HalfOpen(n + 1)
    case Open(_) => Closed(0)
  }

  function AfterFailure(cfg: Config, s: BreakerState, now: nat): BreakerState {
    match s
    case Closed(n) => if n + 1 >= cfg.failureThreshold then Open(now) else Closed(n + 1)
    case _ => Open(now)
  }

  function After(cfg: Config, s: BreakerState, e: Event): BreakerState {
    match e
    case Allow(t) => AfterAllow(cfg, s, t)
    case Success(_) => AfterSuccess(cfg, s)
    case Failure(t) => AfterFailure(cfg, s, t)
  }

  function StateAfter(cfg: Config, history: seq<Event>): BreakerState {
    if history == [] then Closed(0)
    else After(cfg, StateAfter(cfg, history[..|history| - 1]), history[|history| - 1])
  }

  function Observed(cfg: Config, s: BreakerState, now: nat): CircuitState {
    match s
    case Closed(_) => IsClosed
    case Open(_) => if Permits(cfg, s, now) then IsHalfOpen else IsOpen
    case HalfOpen(_) => IsHalfOpen
  }

  // ---------- a breaker is its history ----------

  /** Failures since the last success, permissions aside. */
  function TrailingFailures(history: seq<Event>): nat {
    if history == [] then 0
    else
      var before := TrailingFailures(history[..|history| - 1]);
      match history[|history| - 1]
      case Allow(_) => before
      case Success(_) => 0
      case Failure(_) => before + 1
  }

  function TrailingSuccesses(history: seq<Event>): nat {
    if history == [] then 0
    else
      var before := TrailingSuccesses(history[..|history| - 1]);
      match history[|history| - 1]
      case Allow(_) => before
      case Success(_) => before + 1
      case Failure(_) => 0
  }

  /** The time of the last failure, if there has been one. */
  function LastFailure(history: seq<Event>): Option<nat> {
    if history == [] then None
    else match history[|history| - 1]
      case Failure(t) => Some(t)
      case _ => LastFailure(history[..|history| - 1])
  }

  ghost predicate HistoryInv(cfg: Config, history: seq<Event>) {
    match StateAfter(cfg, history)
    case Closed(n) => n == TrailingFailures(history) &&
        n < (if cfg.failureThreshold == 0 then 1 else cfg.failureThreshold)
    case HalfOpen(n) =>
      n == TrailingSuccesses(history) && n < cfg.successThreshold && LastFailure(history).Some?
    case Open(t) => TrailingFailures(history) > 0 && LastFailure(history) == Some(t)
  }

  /**
   For every history: Closed holds the failures since the last success, below the
   threshold (1 if that is 0); HalfOpen holds the successes since the last failure, below
   the success threshold; Open holds the time of the last outcome, which was a failure.
   */
  lemma {:induction false} BreakerIsItsHistory(cfg: Config, history: seq<Event>)
    requires cfg.Valid()
    ensures HistoryInv(cfg, history)
  {
    if history != [] {
      BreakerIsItsHistory(cfg, history[..|history| - 1]);
      OutcomesAgree(history[..|history| - 1]);
    }
  }

  /** The last outcome is a failure or a success, not both. */
  lemma {:induction false} OutcomesAgree(history: seq<Event>)
    ensures TrailingFailures(history) == 0 || TrailingSuccesses(history) == 0
    ensures TrailingFailures(history) > 0 ==> LastFailure(history).Some?
  {
    if history != [] { OutcomesAgree(history[..|history| - 1]); }
  }

  /** A refusal only ever comes within the cooldown of the last failure, with no success since. */
  lemma RefusalNeedsRecentFailure(cfg: Config, history: seq<Event>, now: nat)
    requires cfg.Valid() && !Permits(cfg, StateAfter(cfg, history), now)
    ensures LastFailure(history).Some? && Elapsed(LastFailure(history).value, now) < cfg.cooldown
    ensures TrailingFailures(history) > 0
  {
    hide StateAfter, TrailingFailures, LastFailure;
    BreakerIsItsHistory(cfg, history);
  }

  /** `state` says Open exactly when `allow` would refuse at the same time. */
  lemma ObservedOpenIffRefused(cfg: Config, s: BreakerState, now: nat)
    ensures Observed(cfg, s, now) == IsOpen <==> !Permits(cfg, s, now)
    ensures Observed(cfg, s, now) == IsHalfOpen <==> AfterAllow(cfg, s, now).HalfOpen?
  {}

  /** From a closed breaker, exactly the failure that completes the threshold opens it. */
  lemma OpensAtThreshold(cfg: Config, history: seq<Event>, now: nat)
    requires cfg.Valid() && StateAfter(cfg, history).Closed?
    ensures StateAfter(cfg, history + [Failure(now)]) ==
            if TrailingFailures(history) + 1 >= cfg.failureThreshold then Open(now)
            else Closed(TrailingFailures(history) + 1)
  {
    BreakerIsItsHistory(cfg, history);
    assert (history + [Failure(now)])[..|history|] == history;
  }

  /** After the cooldown, a half-open breaker needs the full success threshold to close again. */
  lemma {:induction false} ProbesClose(cfg: Config, history: seq<Event>, now: nat, times: seq<nat>)
    requires cfg.Valid() && StateAfter(cfg, history).Open? && Permits(cfg, StateAfter(cfg, history), now)
    requires |times| <= cfg.successThreshold
    ensures StateAfter(cfg, history + [Allow(now)] + Successes(times)) ==
            if |times| == cfg.successThreshold then Closed(0) else HalfOpen(|times|)
  {
    var h := history + [Allow(now)];
    if times == [] {
      assert h + Successes(times) == h;
      assert h[..|history|] == history;
    } else {
      var n := |times| - 1;
      ProbesClose(cfg, history, now, times[..n]);
      var g := h + Successes(times);
      assert g[..|g| - 1] == h + Successes(times[..n]);
    }
  }

  function Successes(times: seq<nat>): (es: seq<Event>)
    ensures |es| == |times|
  {
    seq(|times|, i requires 0 <= i < |times| => Success(times[i]))
  }

  // ---------- when a request is refused ----------

  /** Less than the cooldown after `t`; a clock that reads earlier shows no time gone by. */
  predicate Hot(cfg: Config, t: nat, now: nat) { cfg.cooldown > 0 && now < t + cfg.cooldown }

  lemma Next(cfg: Config, history: seq<Event>, e: Event)
    ensures StateAfter(cfg, history + [e]) == After(cfg, StateAfter(cfg, history), e)
  {
    hide After;
    assert (history + [e])[..|history|] == history;
  }

  /** A failure outside Closed, a failed probe included, (re)opens the circuit for a whole cooldown. */
  lemma FailureReopens(cfg: Config, history: seq<Event>, t: nat, now: nat)
    requires !StateAfter(cfg, history).Closed?
    ensures StateAfter(cfg, history + [Failure(t)]) == Open(t)
    ensures !Permits(cfg, StateAfter(cfg, history + [Failure(t)]), now) <==> Hot(cfg, t, now)
  {
    hide StateAfter;
    Next(cfg, history, Failure(t));
  }

  /** A success closes an open circuit at once, and keeps a closed one closed with no failures counted. */
  lemma SuccessCloses(cfg: Config, history: seq<Event>, t: nat)
    requires !StateAfter(cfg, history).HalfOpen?
    ensures StateAfter(cfg, history + [Success(t)]) == Closed(0)
  {
    hide StateAfter;
    Next(cfg, history, Success(t));
  }

  /** Asking changes the circuit only if it is open and no longer hot. */
  lemma AskingMoves(cfg: Config, history: seq<Event>, t: nat)
    ensures var s := StateAfter(cfg, history);
      StateAfter(cfg, history + [Allow(t)]) == if s.Open? && !Hot(cfg, s.openedAt, t) then HalfOpen(0) else s
  {
    hide StateAfter;
    Next(cfg, history, Allow(t));
  }

  /** The failure at `n` opens the circuit: it completes the threshold, or the circuit was not closed. */
  predicate TripsAt(cfg: Config, history: seq<Event>, n: nat)
    requires n < |history|
  {
    && history[n].Failure?
    && (!StateAfter(cfg, history[..n]).Closed? || TrailingFailures(history[..n + 1]) >= cfg.failureThreshold)
  }

  /** Since the event at `n` nothing but questions that were refused. */
  predicate RefusedSince(cfg: Config, history: seq<Event>, n: nat)
    requires n < |history|
  {
    forall m :: n < m < |history| ==> history[m].Allow? && Hot(cfg, history[n].at, history[m].at)
  }

  lemma {:induction false} OpenSince(cfg: Config, history: seq<Event>) returns (n: nat)
    requires cfg.Valid() && StateAfter(cfg, history).Open?
    ensures n < |history| && TripsAt(cfg, history, n) && RefusedSince(cfg, history, n)
    ensures StateAfter(cfg, history) == Open(history[n].at)
  {
    var last := |history| - 1;
    var before, e := history[..last], history[last];
    assert before + [e] == history;
    Next(cfg, before, e);
    BreakerIsItsHistory(cfg, before);
    assert history[..last + 1] == history;
    match e
    case Failure(t) =>
      n := last;
      TrailingNext(before, t);
    case Allow(t) =>
      n := OpenSince(cfg, before);
      AskingMoves(cfg, before, t);
      PrefixTrips(cfg, before, e, n);
    case Success(t) =>
  }

  lemma TrailingNext(history: seq<Event>, t: nat)
    ensures TrailingFailures(history + [Failure(t)]) == TrailingFailures(history) + 1
  {
    assert (history + [Failure(t)])[..|history|] == history;
  }

  lemma PrefixTrips(cfg: Config, history: seq<Event>, e: Event, n: nat)
    requires n < |history|
    ensures TripsAt(cfg, history + [e], n) == TripsAt(cfg, history, n)
  {
    assert (history + [e])[..n] == history[..n] && (history + [e])[..n + 1] == history[..n + 1];
    hide StateAfter, TrailingFailures;
  }

  lemma {:induction false} OpensSince(cfg: Config, history: seq<Event>, n: nat)
    requires cfg.Valid() && n < |history| && TripsAt(cfg, history, n) && RefusedSince(cfg, history, n)
    ensures StateAfter(cfg, history) == Open(history[n].at)
  {
    var last := |history| - 1;
    var before, e := history[..last], history[last];
    assert before + [e] == history;
    if n == last {
      TripsOpens(cfg, before, e);
    } else {
      PrefixTrips(cfg, before, e, n);
      OpensSince(cfg, before, n);
      AskingMoves(cfg, before, e.at);
      hide StateAfter, TripsAt;
    }
  }

  lemma TripsOpens(cfg: Config, before: seq<Event>, e: Event)
    requires cfg.Valid() && TripsAt(cfg, before + [e], |before|)
    ensures StateAfter(cfg, before + [e]) == Open(e.at)
  {
    assert (before + [e])[..|before|] == before && (before + [e])[..|before| + 1] == before + [e];
    if StateAfter(cfg, before).Closed? {
      OpensAtThreshold(cfg, before, e.at);
      TrailingNext(before, e.at);
    } else {
      FailureReopens(cfg, before, e.at, 0);
    }
    hide StateAfter, TrailingFailures;
  }

  /**
   Exactly when a request is refused: some failure has opened the circuit, nothing has
   followed it but questions refused in turn, and its cooldown has not gone by.
   */
  lemma RefusedIff(cfg: Config, history: seq<Event>, now: nat)
    requires cfg.Valid()
    ensures !Permits(cfg, StateAfter(cfg, history), now) <==>
            exists n :: 0 <= n < |history| && TripsAt(cfg, history, n) && RefusedSince(cfg, history, n) &&
                        Hot(cfg, history[n].at, now)
  {
    hide StateAfter, TripsAt, RefusedSince;
    if !Permits(cfg, StateAfter(cfg, history), now) {
      var n := OpenSince(cfg, history);
    }
    if n :| 0 <= n < |history| && TripsAt(cfg, history, n) && RefusedSince(cfg, history, n) &&
            Hot(cfg, history[n].at, now) {
      OpensSince(cfg, history, n);
    }
  }

  // ---------- the registry ----------

  function HistoryIn(history: map<BackendId, seq<Event>>, id: BackendId): seq<Event> {
    if id in history then history[id] else []
  }

  class CircuitBreakerRegistry {
    const cfg: Config
    var breakers: map<BackendId, BreakerState>
    ghost var history: map<BackendId, seq<Event>>

    ghost function HistoryOf(id: BackendId): seq<Event>
      reads this
    {
      HistoryIn(history, id)
    }

    /** Every breaker is where its history puts it; a missing one has none. */
    ghost predicate Valid()
      reads this
    {
      && cfg.Valid()
      && forall id :: BreakerOf(id) == StateAfter(cfg, HistoryOf(id))
    }

    function BreakerOf(id: BackendId): BreakerState
      reads this
    {
      if id in breakers then breakers[id] else Closed(0)
    }

    constructor (failureThreshold: nat, cooldown: nat, halfOpenSuccessThreshold: nat)
      ensures Valid() && breakers == map[] && history == map[]
      ensures cfg == Config(failureThreshold, cooldown,
                            if halfOpenSuccessThreshold == 0 then 1 else halfOpenSuccessThreshold)
    {
      cfg := Config(failureThreshold, cooldown, if halfOpenSuccessThreshold == 0 then 1 else halfOpenSuccessThreshold);
      breakers, history := map[], map[];
    }

    /** Whether an attempt is allowed now; an open circuit past its cooldown becomes half-open. */
    method AllowAttempt(id: BackendId, now: nat) returns (allowed: bool)
      requires Valid()
      modifies this
      ensures Valid() && history == old(history)[id := old(HistoryOf(id)) + [Allow(now)]]
      ensures allowed == Permits(cfg, old(BreakerOf(id)), now)
    {
      var state := BreakerOf(id);
      allowed := true;
      match state {
        case Closed(_) =>
        case Open(openedAt) =>
          if Elapsed(openedAt, now) >= cfg.cooldown {
            state := HalfOpen(0);
          } else {
            allowed := false;
          }
        case HalfOpen(_) =>
      }
      Store(id, Allow(now), state);
    }

    method OnSuccess(id: BackendId, now: nat)
      requires Valid()
      modifies this
      ensures Valid() && history == old(history)[id := old(HistoryOf(id)) + [Success(now)]]
    {
      var state := BreakerOf(id);
      match state {
        case Closed(_) => state := Closed(0);
        case HalfOpen(consecutiveSuccesses) =>
          var successes := consecutiveSuccesses + 1;
          state := if successes >= cfg.successThreshold then Closed(0) else HalfOpen(successes);
        case Open(_) => state := Closed(0);
      }
      Store(id, Success(now), state);
    }

    method OnFailure(id: BackendId, now: nat)
      requires Valid()
      modifies this
      ensures Valid() && history == old(history)[id := old(HistoryOf(id)) + [Failure(now)]]
    {
      var state := BreakerOf(id);
      match state {
        case Closed(consecutiveFailures) =>
          var failures := consecutiveFailures + 1;
          state := if failures >= cfg.failureThreshold then Open(now) else Closed(failures);
        case _ => state := Open(now);
      }
      Store(id, Failure(now), state);
    }

    /** Write a breaker back and log the call. */
    method Store(id: BackendId, ghost e: Event, state: BreakerState)
      requires Valid() && state == After(cfg, BreakerOf(id), e)
      modifies this
      ensures Valid() && history == old(history)[id := old(HistoryOf(id)) + [e]]
    {
      hide After;
      ghost var h := HistoryOf(id);
      assert StateAfter(cfg, h + [e]) == state by {
        assert (h + [e])[..|h|] == h;
      }
      breakers := breakers[id := state];
      history := history[id := h + [e]];
      forall other ensures BreakerOf(other) == StateAfter(cfg, HistoryOf(other)) {
        if other != id {
          assert HistoryOf(other) == old(HistoryOf(other)) && BreakerOf(other) == old(BreakerOf(other));
        }
      }
    }

    /** The observable state; asking changes nothing. */
    method CircuitStateOf(id: BackendId, now: nat) returns (state: CircuitState)
      requires Valid()
      ensures state == Observed(cfg, StateAfter(cfg, HistoryOf(id)), now)
    {
      if id !in breakers {
        return IsClosed;
      }
      match breakers[id] {
        case Closed(_) => state := IsClosed;
        case Open(openedAt) => state := if Elapsed(openedAt, now) >= cfg.cooldown then IsHalfOpen else IsOpen;
        case HalfOpen(_) => state := IsHalfOpen;
      }
    }

    method Reset()
      requires Valid()
      modifies this
      ensures Valid() && history == map[]
    {
      breakers, history := map[], map[];
    }
  }
}
