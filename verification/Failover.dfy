/**
 The failover loop of the gateway (handlers.rs, forward_with_retries): ranked candidates
 are tried in order behind their circuit breakers, with a backoff between attempts.
 While the loop awaits, other requests may ask and report to the shared registry as they
 like; clearing it with `reset` is not among what they do.
 */
module Failover {
  import opened Arithmetic
  import opened Wrappers
  import opened Ids
  import opened Resilience

  /** What happens when a candidate is tried. */
  datatype Reply = NoConnector | Fails(error: string) | Succeeds(stream: string)

  datatype ForwardAttempt = ForwardAttempt(backend: BackendId, success: bool, skippedOpenCircuit: bool,
                                           error: Option<string>)

  /** `Unavailable` is the loop's own fallback, when no candidate produced an error. */
  datatype Outcome = Forwarded(stream: string, backend: BackendId) | Failed(error: string) | Unavailable

  /** When a candidate's breaker was asked and when its outcome was reported. */
  datatype Times = Times(asked: nat, reported: nat)

  const NO_CONNECTOR_ERROR := "no connector for backend"

  function ErrorOf(r: Reply): Option<string> {
    match r
    case NoConnector => Some(NO_CONNECTOR_ERROR)
    case Fails(e) => Some(e)
    case Succeeds(_) => None
  }

  /** The log line of a candidate. */
  function Logged(backend: BackendId, skipped: bool, r: Reply): ForwardAttempt {
    if skipped then ForwardAttempt(backend, false, true, None)
    else ForwardAttempt(backend, r.Succeeds?, false, ErrorOf(r))
  }

  /** The connectors as one request uses them: what it forwards, in order. */
  class Connectors {
    ghost var forwarded: seq<BackendId>

    constructor ()
      ensures forwarded == []
    {
      forwarded := [];
    }

    method Forward(backend: BackendId)
      modifies this
      ensures forwarded == old(forwarded) + [backend]
    {
      forwarded := forwarded + [backend];
    }
  }

  /** The candidates a request forwards to: those not skipped that have a connector, in order. */
  function Forwards(attempts: seq<ForwardAttempt>, replies: seq<Reply>): seq<BackendId>
    requires |attempts| <= |replies|
  {
    if attempts == [] then []
    else
      var n := |attempts| - 1;
      Forwards(attempts[..n], replies) +
      if attempts[n].skippedOpenCircuit || replies[n].NoConnector? then [] else [attempts[n].backend]
  }

  /** Number of candidates actually tried. */
  function Tried(attempts: seq<ForwardAttempt>): nat {
    if attempts == [] then 0
    else Tried(attempts[..|attempts| - 1]) + (if attempts[|attempts| - 1].skippedOpenCircuit then 0 else 1)
  }

  /** The error of the last candidate tried. */
  function LastError(attempts: seq<ForwardAttempt>): Option<string> {
    if attempts == [] then None
    else
      var last := attempts[|attempts| - 1];
      if last.skippedOpenCircuit then LastError(attempts[..|attempts| - 1]) else last.error
  }

  /** backoff(0), backoff(1), ..., backoff(n - 1). */
  function Backoffs(policy: RetryPolicy, n: nat): (sleeps: seq<nat>)
    ensures |sleeps| == n
  {
    seq(n, k requires 0 <= k < n => policy.Backoff(k))
  }

  lemma SleptNext(policy: RetryPolicy, failures: nat, skipped: bool, slept: seq<nat>)
    requires slept == if skipped || failures == 0 then [] else [policy.Backoff(failures - 1)]
    ensures Backoffs(policy, SaturatingDec(failures)) + slept ==
            Backoffs(policy, SaturatingDec(if skipped then failures else failures + 1))
  {
    hide RetryPolicy.Backoff;
  }

  function Sum(xs: seq<nat>): nat { if xs == [] then 0 else Sum(xs[..|xs| - 1]) + xs[|xs| - 1] }

  type Histories = map<BackendId, seq<Event>>

  /** The history of `id` has `e` at `mark`. */
  ghost predicate Recorded(hs: Histories, id: BackendId, mark: nat, e: Event) {
    mark < |HistoryIn(hs, id)| && HistoryIn(hs, id)[mark] == e
  }

  /** At `mark` the breaker was asked at time `at`, and it refused exactly if `skipped`. */
  ghost predicate Gated(cfg: Config, hs: Histories, id: BackendId, mark: nat, at: nat, skipped: bool) {
    && Recorded(hs, id, mark, Allow(at))
    && (skipped <==> !Permits(cfg, StateAfter(cfg, HistoryIn(hs, id)[..mark]), at))
  }

  /** A tried candidate's breaker was told the outcome; a missing connector is not reported. */
  ghost predicate Reported(hs: Histories, id: BackendId, after: nat, at: nat, r: Reply) {
    match r
    case NoConnector => true
    case Fails(_) => exists mark :: mark > after && Recorded(hs, id, mark, Failure(at))
    case Succeeds(_) => exists mark :: mark > after && Recorded(hs, id, mark, Success(at))
  }

  /** What is known of a candidate from the moment it is logged. */
  ghost predicate Considered(cfg: Config, hs: Histories, backend: BackendId, r: Reply, t: Times,
                             attempt: ForwardAttempt, mark: nat) {
    && attempt == Logged(backend, attempt.skippedOpenCircuit, r)
    && Gated(cfg, hs, backend, mark, t.asked, attempt.skippedOpenCircuit)
    && (!attempt.skippedOpenCircuit ==> Reported(hs, backend, mark, t.reported, r))
  }

  /** Histories only grow, so what is known stays known. */
  ghost predicate Grown(hs: Histories, hs': Histories) {
    forall id :: HistoryIn(hs, id) <= HistoryIn(hs', id)
  }

  lemma GatedStays(cfg: Config, hs: Histories, hs': Histories, backend: BackendId, mark: nat, at: nat, skipped: bool)
    requires Grown(hs, hs') && Gated(cfg, hs, backend, mark, at, skipped)
    ensures Gated(cfg, hs', backend, mark, at, skipped)
  {
    hide StateAfter, Permits;
    var before, now := HistoryIn(hs, backend), HistoryIn(hs', backend);
    assert before <= now;
    assert now[..mark] == before[..mark];
  }

  lemma ConsideredStays(cfg: Config, hs: Histories, hs': Histories, backend: BackendId, r: Reply, t: Times,
                        attempt: ForwardAttempt, mark: nat)
    requires Grown(hs, hs') && Considered(cfg, hs, backend, r, t, attempt, mark)
    ensures Considered(cfg, hs', backend, r, t, attempt, mark)
  {
    hide Gated;
    GatedStays(cfg, hs, hs', backend, mark, t.asked, attempt.skippedOpenCircuit);
    assert HistoryIn(hs, backend) <= HistoryIn(hs', backend);
    if !attempt.skippedOpenCircuit && r.Fails? {
      var m :| m > mark && Recorded(hs, backend, m, Failure(t.reported));
      assert Recorded(hs', backend, m, Failure(t.reported));
    }
    if !attempt.skippedOpenCircuit && r.Succeeds? {
      var m :| m > mark && Recorded(hs, backend, m, Success(t.reported));
      assert Recorded(hs', backend, m, Success(t.reported));
    }
  }

  /** One log line per considered candidate, in the order of the candidates. */
  ghost predicate AllConsidered(cfg: Config, hs: Histories, decisions: seq<BackendId>, replies: seq<Reply>,
                                times: seq<Times>, attempts: seq<ForwardAttempt>, marks: seq<nat>)
    requires |replies| == |decisions| == |times|
  {
    && |attempts| == |marks| <= |decisions|
    && forall i :: 0 <= i < |attempts| ==>
         Considered(cfg, hs, decisions[i], replies[i], times[i], attempts[i], marks[i])
  }

  lemma AllConsideredNext(cfg: Config, hs: Histories, hs': Histories, decisions: seq<BackendId>, replies: seq<Reply>,
                          times: seq<Times>, attempts: seq<ForwardAttempt>, marks: seq<nat>, attempt: ForwardAttempt,
                          mark: nat)
    requires |replies| == |decisions| == |times| && |attempts| < |decisions| && Grown(hs, hs')
    requires AllConsidered(cfg, hs, decisions, replies, times, attempts, marks)
    requires var i := |attempts|; Considered(cfg, hs', decisions[i], replies[i], times[i], attempt, mark)
    ensures AllConsidered(cfg, hs', decisions, replies, times, attempts + [attempt], marks + [mark])
    ensures attempt.success <==> !attempt.skippedOpenCircuit && replies[|attempts|].Succeeds?
    ensures !attempt.success && !attempt.skippedOpenCircuit ==> attempt.error.Some?
  {
    hide Gated, Reported;
    forall k | 0 <= k < |attempts|
      ensures Considered(cfg, hs', decisions[k], replies[k], times[k], attempts[k], marks[k])
    {
      ConsideredStays(cfg, hs, hs', decisions[k], replies[k], times[k], attempts[k], marks[k]);
    }
  }

  /** Awaiting: other requests ask their breakers and report outcomes, in any number and order. */
  method Await(registry: CircuitBreakerRegistry)
    requires registry.Valid()
    modifies registry
    ensures registry.Valid() && Grown(old(registry.history), registry.history)
  {
    var calls: int := *;
    for i := 0 to if calls < 0 then 0 else calls
      invariant registry.Valid() && Grown(old(registry.history), registry.history)
    {
      var id: BackendId := *;
      var event: Event := *;
      match event {
        case Allow(at) => var _ := registry.AllowAttempt(id, at);
        case Success(at) => registry.OnSuccess(id, at);
        case Failure(at) => registry.OnFailure(id, at);
      }
    }
  }

  /** Try one allowed candidate and tell its breaker. */
  method TryCandidate(registry: CircuitBreakerRegistry, connectors: Connectors, backend: BackendId, reply: Reply,
                      t: Times, ghost mark: nat)
    requires registry.Valid() && Gated(registry.cfg, registry.history, backend, mark, t.asked, false)
    modifies registry, connectors
    ensures connectors.forwarded == old(connectors.forwarded) + (if reply.NoConnector? then [] else [backend])
    ensures registry.Valid() && Grown(old(registry.history), registry.history)
    ensures Considered(registry.cfg, registry.history, backend, reply, t, Logged(backend, false, reply), mark)
    // nothing is reported without a connector; otherwise the report is the last thing done
    ensures reply.NoConnector? ==> registry.history == old(registry.history)
    ensures !reply.NoConnector? ==>
              var h := HistoryIn(registry.history, backend);
              h != [] && h[|h| - 1] == if reply.Succeeds? then Success(t.reported) else Failure(t.reported)
  {
    if reply.NoConnector? {
      return;
    }
    connectors.Forward(backend);
    Await(registry);
    ghost var end := |registry.HistoryOf(backend)|;
    if reply.Succeeds? {
      registry.OnSuccess(backend, t.reported);
      assert Recorded(registry.history, backend, end, Success(t.reported));
    } else {
      registry.OnFailure(backend, t.reported);
      assert Recorded(registry.history, backend, end, Failure(t.reported));
    }
    assert registry.HistoryOf(backend)[..mark] == old(registry.HistoryOf(backend))[..mark];
  }

  /** Ask a candidate's breaker; the question is the next thing in its history. */
  method Ask(registry: CircuitBreakerRegistry, backend: BackendId, now: nat) returns (allowed: bool, ghost mark: nat)
    requires registry.Valid()
    modifies registry
    ensures registry.Valid() && mark == |HistoryIn(old(registry.history), backend)|
    ensures registry.history ==
            old(registry.history)[backend := HistoryIn(old(registry.history), backend) + [Allow(now)]]
    ensures Gated(registry.cfg, registry.history, backend, mark, now, !allowed)
  {
    hide StateAfter, Permits;
    mark := |registry.HistoryOf(backend)|;
    allowed := registry.AllowAttempt(backend, now);
    assert registry.HistoryOf(backend)[..mark] == old(registry.HistoryOf(backend));
  }

  /** One candidate: ask its breaker, wait out the backoff if something failed before, try it. */
  method Consider(registry: CircuitBreakerRegistry, connectors: Connectors, policy: RetryPolicy, backend: BackendId,
                  reply: Reply, t: Times, failures: nat)
    returns (attempt: ForwardAttempt, slept: seq<nat>, ghost mark: nat)
    requires registry.Valid()
    modifies registry, connectors
    ensures attempt.backend == backend &&
            mark == |HistoryIn(old(registry.history), backend)| < |HistoryIn(registry.history, backend)|
    ensures connectors.forwarded ==
            old(connectors.forwarded) + (if attempt.skippedOpenCircuit || reply.NoConnector? then [] else [backend])
    ensures registry.Valid() && Grown(old(registry.history), registry.history)
    ensures Considered(registry.cfg, registry.history, backend, reply, t, attempt, mark)
    ensures slept == if attempt.skippedOpenCircuit || failures == 0 then [] else [policy.Backoff(failures - 1)]
    // a skipped candidate is asked about and left alone
    ensures attempt.skippedOpenCircuit ==>
              registry.history ==
              old(registry.history)[backend := HistoryIn(old(registry.history), backend) + [Allow(t.asked)]]
  {
    hide Gated, Reported, CircuitBreakerRegistry.Valid;
    slept := [];
    var allowed;
    allowed, mark := Ask(registry, backend, t.asked);
    attempt := Logged(backend, !allowed, reply);
    if allowed {
      if failures > 0 {
        slept := [policy.Backoff(failures - 1)];
        ghost var before := registry.history;
        Await(registry);
        GatedStays(registry.cfg, before, registry.history, backend, mark, t.asked, false);
      }
      TryCandidate(registry, connectors, backend, reply, t, mark);
    }
  }

  method ForwardWithRetries(registry: CircuitBreakerRegistry, connectors: Connectors, policy: RetryPolicy,
                            decisions: seq<BackendId>, replies: seq<Reply>, times: seq<Times>)
    returns (outcome: Outcome, attempts: seq<ForwardAttempt>, sleeps: seq<nat>, ghost marks: seq<nat>)
    requires registry.Valid() && |replies| == |decisions| == |times|
    modifies registry, connectors
    ensures registry.Valid()
    // the forwards: exactly the candidates not refused that have a connector, in order
    ensures |attempts| <= |decisions|
    ensures connectors.forwarded == old(connectors.forwarded) + Forwards(attempts, replies)
    // each log line is about this request's own question to the breaker
    ensures Asked(old(registry.history), registry.history, decisions, marks)
    // the log, line by line
    ensures AllConsidered(registry.cfg, registry.history, decisions, replies, times, attempts, marks)
    // a success ends the loop
    ensures forall i :: 0 <= i < |attempts| - 1 ==> !attempts[i].success
    ensures outcome.Forwarded? <==> attempts != [] && attempts[|attempts| - 1].success
    ensures outcome.Forwarded? ==>
              && replies[|attempts| - 1].Succeeds?
              && outcome == Forwarded(replies[|attempts| - 1].stream, decisions[|attempts| - 1])
    ensures !outcome.Forwarded? ==> |attempts| == |decisions|
    // what each line says
    ensures forall i :: 0 <= i < |attempts| ==> LineSays(decisions[i], replies[i], attempts[i])
    // the error returned is that of the last candidate tried; the fallback
    ensures outcome.Failed? ==> exists i :: LastTried(attempts, i) && attempts[i].error == Some(outcome.error)
    ensures outcome.Unavailable? <==> forall i :: 0 <= i < |attempts| ==> attempts[i].skippedOpenCircuit
    // the sleeps: one before each candidate tried but the first, each backed off one step further
    ensures |sleeps| == SaturatingDec(|TriedIndices(attempts)|)
    ensures forall k :: 0 <= k < |sleeps| ==> sleeps[k] == policy.Backoff(k)
  {
    hide *;
    var failures := 0;
    var lastErr: Option<string> := None;
    attempts, sleeps, marks := [], [], [];
    TryingStart(registry.cfg, registry.history, decisions, replies, times, policy);
    AskedStart(registry.history, decisions, replies);
    for i := 0 to |decisions|
      invariant registry.Valid() && |attempts| == |marks| == i
      invariant connectors.forwarded == old(connectors.forwarded) + Forwards(attempts, replies)
      invariant Asked(old(registry.history), registry.history, decisions, marks)
      invariant AllConsidered(registry.cfg, registry.history, decisions, replies, times, attempts, marks)
      invariant Trying(policy, attempts, sleeps, failures, lastErr)
    {
      ghost var before := registry.history;
      var attempt, slept, mark := Consider(registry, connectors, policy, decisions[i], replies[i], times[i], failures);
      AskedNext(old(registry.history), before, registry.history, decisions, marks, mark);
      ForwardsNext(attempts, replies, attempt);
      AllConsideredNext(registry.cfg, before, registry.history, decisions, replies, times, attempts, marks,
                        attempt, mark);
      TryingNext(policy, attempts, sleeps, failures, lastErr, attempt, slept);
      attempts, marks, sleeps := attempts + [attempt], marks + [mark], sleeps + slept;
      if attempt.success {
        Told(registry.cfg, registry.history, decisions, replies, times, policy, attempts, marks, sleeps);
        outcome := Forwarded(replies[i].stream, decisions[i]);
        return;
      }
      if !attempt.skippedOpenCircuit {
        failures := failures + 1;
        lastErr := attempt.error;
      }
    }
    TryingEnds(policy, attempts, sleeps, failures, lastErr);
    Told(registry.cfg, registry.history, decisions, replies, times, policy, attempts, marks, sleeps);
    outcome := if lastErr.Some? then Failed(lastErr.value) else Unavailable;
  }

  /**
   The marks point past what was recorded before the request, and each past all earlier
   ones on the same backend: no two log lines rest on one question.
   */
  ghost predicate Asked(before: Histories, now: Histories, decisions: seq<BackendId>, marks: seq<nat>) {
    && |marks| <= |decisions| && Grown(before, now)
    && (forall i :: 0 <= i < |marks| ==> |HistoryIn(before, decisions[i])| <= marks[i] < |HistoryIn(now, decisions[i])|)
    && forall i, j :: 0 <= i < j < |marks| && decisions[i] == decisions[j] ==> marks[i] < marks[j]
  }

  lemma AskedStart(hs: Histories, decisions: seq<BackendId>, replies: seq<Reply>)
    ensures Asked(hs, hs, decisions, []) && Forwards([], replies) == []
  {}

  lemma AskedNext(before: Histories, hs: Histories, hs': Histories, decisions: seq<BackendId>, marks: seq<nat>,
                  mark: nat)
    requires Asked(before, hs, decisions, marks) && |marks| < |decisions| && Grown(hs, hs')
    requires mark == |HistoryIn(hs, decisions[|marks|])| < |HistoryIn(hs', decisions[|marks|])|
    ensures Asked(before, hs', decisions, marks + [mark])
  {
    hide HistoryIn;
    forall id ensures HistoryIn(before, id) <= HistoryIn(hs, id) <= HistoryIn(hs', id) {}
  }

  lemma ForwardsNext(attempts: seq<ForwardAttempt>, replies: seq<Reply>, attempt: ForwardAttempt)
    requires |attempts| < |replies|
    ensures Forwards(attempts + [attempt], replies) ==
            Forwards(attempts, replies) +
            if attempt.skippedOpenCircuit || replies[|attempts|].NoConnector? then [] else [attempt.backend]
  {
    assert (attempts + [attempt])[..|attempts|] == attempts;
  }

  /** A log line names its candidate, and the outcome it had: none if skipped, else the reply's own. */
  ghost predicate LineSays(backend: BackendId, r: Reply, attempt: ForwardAttempt) {
    && attempt.backend == backend
    && if attempt.skippedOpenCircuit then !attempt.success && attempt.error == None
       else
         && (attempt.success <==> r.Succeeds?)
         && attempt.error == match r {
              case NoConnector => Some(NO_CONNECTOR_ERROR)
              case Fails(e) => Some(e)
              case Succeeds(_) => None
            }
  }

  lemma LineOf(cfg: Config, hs: Histories, backend: BackendId, r: Reply, t: Times, attempt: ForwardAttempt, mark: nat)
    requires Considered(cfg, hs, backend, r, t, attempt, mark)
    ensures LineSays(backend, r, attempt)
  {}

  /** Candidate `i` was tried, and none after it. */
  predicate LastTried(attempts: seq<ForwardAttempt>, i: int) {
    && 0 <= i < |attempts| && !attempts[i].skippedOpenCircuit
    && forall j :: i < j < |attempts| ==> attempts[j].skippedOpenCircuit
  }

  function TriedIndices(attempts: seq<ForwardAttempt>): set<nat> {
    set i | 0 <= i < |attempts| && !attempts[i].skippedOpenCircuit
  }

  lemma TriedIndicesNext(attempts: seq<ForwardAttempt>)
    requires attempts != []
    ensures var n := |attempts| - 1;
      TriedIndices(attempts) ==
      TriedIndices(attempts[..n]) + (if attempts[n].skippedOpenCircuit then {} else {n as nat})
    ensures |TriedIndices(attempts)| ==
            |TriedIndices(attempts[..|attempts| - 1])| + if attempts[|attempts| - 1].skippedOpenCircuit then 0 else 1
  {
    var n: nat := |attempts| - 1;
    var all, init := TriedIndices(attempts), TriedIndices(attempts[..n]);
    assert n !in init;
    if attempts[n].skippedOpenCircuit {
      assert all == init;
    } else {
      assert all == init + {n};
    }
  }

  /** The counter counts the candidates tried. */
  lemma {:induction false} TriedCounts(attempts: seq<ForwardAttempt>)
    ensures Tried(attempts) == |TriedIndices(attempts)|
  {
    if attempts != [] {
      TriedCounts(attempts[..|attempts| - 1]);
      TriedIndicesNext(attempts);
    }
  }

  /** The last error is that of the last candidate tried. */
  lemma {:induction false} LastErrorIsLastTried(attempts: seq<ForwardAttempt>)
    requires Tried(attempts) > 0
    ensures exists i :: LastTried(attempts, i) && attempts[i].error == LastError(attempts)
  {
    var n := |attempts| - 1;
    if attempts[n].skippedOpenCircuit {
      LastErrorIsLastTried(attempts[..n]);
      var i :| LastTried(attempts[..n], i) && attempts[..n][i].error == LastError(attempts[..n]);
      assert LastTried(attempts, i);
    } else {
      assert LastTried(attempts, n);
    }
  }

  /** Line `i` led to a forward: the candidate was tried and has a connector. */
  predicate Forwarding(attempts: seq<ForwardAttempt>, replies: seq<Reply>, i: nat)
    requires i < |attempts| <= |replies|
  {
    !attempts[i].skippedOpenCircuit && !replies[i].NoConnector?
  }

  /** The forwarding lines among the first `n`, in order. */
  function ForwardLines(attempts: seq<ForwardAttempt>, replies: seq<Reply>, n: nat): seq<nat>
    requires n <= |attempts| <= |replies|
  {
    if n == 0 then []
    else ForwardLines(attempts, replies, n - 1) + if Forwarding(attempts, replies, n - 1) then [n - 1] else []
  }

  predicate Ascending(lines: seq<nat>, n: nat) {
    && (forall j :: 0 <= j < |lines| ==> lines[j] < n)
    && (forall j, k :: 0 <= j < k < |lines| ==> lines[j] < lines[k])
  }

  lemma {:induction false} LinesAscend(attempts: seq<ForwardAttempt>, replies: seq<Reply>, n: nat)
    requires n <= |attempts| <= |replies|
    ensures Ascending(ForwardLines(attempts, replies, n), n)
  {
    if n > 0 {
      LinesAscend(attempts, replies, n - 1);
      OneMoreLine(ForwardLines(attempts, replies, n - 1), n - 1);
    }
    hide Forwarding, Ascending;
  }

  lemma OneMoreLine(lines: seq<nat>, n: nat)
    requires Ascending(lines, n)
    ensures Ascending(lines, n + 1) && Ascending(lines + [n], n + 1)
  {}

  lemma {:induction false} LineIsForwarding(attempts: seq<ForwardAttempt>, replies: seq<Reply>, n: nat, i: nat)
    requires n <= |attempts| <= |replies| && i < |attempts|
    ensures i in ForwardLines(attempts, replies, n) <==> i < n && Forwarding(attempts, replies, i)
  {
    hide Forwarding;
    if n > 0 { LineIsForwarding(attempts, replies, n - 1, i); }
  }

  lemma {:induction false} LinesName(attempts: seq<ForwardAttempt>, replies: seq<Reply>, n: nat)
    requires n <= |attempts| <= |replies|
    ensures var lines := ForwardLines(attempts, replies, n);
      && |lines| == |Forwards(attempts[..n], replies)|
      && forall j :: 0 <= j < |lines| ==>
           lines[j] < n && Forwards(attempts[..n], replies)[j] == attempts[lines[j]].backend
  {
    if n > 0 {
      LinesName(attempts, replies, n - 1);
      ForwardsNext(attempts[..n - 1], replies, attempts[n - 1]);
      assert attempts[..n] == attempts[..n - 1] + [attempts[n - 1]];
      hide Forwards;
    }
  }

  /** The forwards, by the log lines they belong to: exactly the forwarding ones, in order. */
  lemma ForwardsInOrder(attempts: seq<ForwardAttempt>, replies: seq<Reply>) returns (lines: seq<nat>)
    requires |attempts| <= |replies|
    ensures |lines| == |Forwards(attempts, replies)|
    ensures forall j :: 0 <= j < |lines| ==>
              lines[j] < |attempts| && Forwards(attempts, replies)[j] == attempts[lines[j]].backend
    ensures forall j, k :: 0 <= j < k < |lines| ==> lines[j] < lines[k]
    ensures forall i :: 0 <= i < |attempts| ==> (i in lines <==> Forwarding(attempts, replies, i))
  {
    hide Forwards, ForwardLines, Forwarding;
    lines := ForwardLines(attempts, replies, |attempts|);
    LinesAscend(attempts, replies, |attempts|);
    forall i | 0 <= i < |attempts| ensures i in lines <==> Forwarding(attempts, replies, i) {
      LineIsForwarding(attempts, replies, |attempts|, i);
    }
    LinesName(attempts, replies, |attempts|);
    assert attempts[..|attempts|] == attempts;
  }

  /** What the caller is told, from the loop's own record. */
  lemma Told(cfg: Config, hs: Histories, decisions: seq<BackendId>, replies: seq<Reply>, times: seq<Times>,
             policy: RetryPolicy, attempts: seq<ForwardAttempt>, marks: seq<nat>, sleeps: seq<nat>)
    requires |replies| == |decisions| == |times|
    requires AllConsidered(cfg, hs, decisions, replies, times, attempts, marks)
    requires sleeps == Backoffs(policy, SaturatingDec(Tried(attempts)))
    ensures forall i :: 0 <= i < |attempts| ==> LineSays(decisions[i], replies[i], attempts[i])
    ensures Tried(attempts) > 0 ==> exists i :: LastTried(attempts, i) && attempts[i].error == LastError(attempts)
    ensures Tried(attempts) == 0 <==> forall i :: 0 <= i < |attempts| ==> attempts[i].skippedOpenCircuit
    ensures |sleeps| == SaturatingDec(|TriedIndices(attempts)|)
    ensures forall k :: 0 <= k < |sleeps| ==> sleeps[k] == policy.Backoff(k)
  {
    hide Considered, LineSays, LastTried, TriedIndices, Tried, RetryPolicy.Backoff;
    TriedCounts(attempts);
    TriedAtMostAll(attempts);
    if Tried(attempts) > 0 { LastErrorIsLastTried(attempts); }
    forall i | 0 <= i < |attempts| ensures LineSays(decisions[i], replies[i], attempts[i]) {
      LineOf(cfg, hs, decisions[i], replies[i], times[i], attempts[i], marks[i]);
    }
  }

  /** The loop's own state, as long as nothing has succeeded. */
  ghost predicate Trying(policy: RetryPolicy, attempts: seq<ForwardAttempt>, sleeps: seq<nat>, failures: nat,
                         lastErr: Option<string>) {
    && (forall k :: 0 <= k < |attempts| ==> !attempts[k].success)
    && failures == Tried(attempts) && lastErr == LastError(attempts)
    && (lastErr.Some? <==> failures > 0)
    && sleeps == Backoffs(policy, SaturatingDec(failures))
  }

  lemma TryingStart(cfg: Config, hs: Histories, decisions: seq<BackendId>, replies: seq<Reply>, times: seq<Times>,
                    policy: RetryPolicy)
    requires |replies| == |decisions| == |times|
    ensures AllConsidered(cfg, hs, decisions, replies, times, [], [])
    ensures Trying(policy, [], [], 0, None)
  {}

  lemma TryingNext(policy: RetryPolicy, attempts: seq<ForwardAttempt>, sleeps: seq<nat>, failures: nat,
                   lastErr: Option<string>, attempt: ForwardAttempt, slept: seq<nat>)
    requires Trying(policy, attempts, sleeps, failures, lastErr)
    requires attempt.success ==> !attempt.skippedOpenCircuit
    requires !attempt.success && !attempt.skippedOpenCircuit ==> attempt.error.Some?
    requires slept == if attempt.skippedOpenCircuit || failures == 0 then [] else [policy.Backoff(failures - 1)]
    ensures var skipped := attempt.skippedOpenCircuit;
      !attempt.success ==>
        Trying(policy, attempts + [attempt], sleeps + slept,
               if skipped then failures else failures + 1, if skipped then lastErr else attempt.error)
    ensures forall k :: 0 <= k < |attempts| ==> !attempts[k].success
    ensures attempt.success ==> Tried(attempts + [attempt]) > 0
    ensures sleeps + slept == Backoffs(policy, SaturatingDec(Tried(attempts + [attempt])))
  {
    hide RetryPolicy.Backoff;
    SleptNext(policy, failures, attempt.skippedOpenCircuit, slept);
    assert (attempts + [attempt])[..|attempts|] == attempts;
  }

  lemma TryingEnds(policy: RetryPolicy, attempts: seq<ForwardAttempt>, sleeps: seq<nat>, failures: nat,
                   lastErr: Option<string>)
    requires Trying(policy, attempts, sleeps, failures, lastErr)
    ensures forall k :: 0 <= k < |attempts| ==> !attempts[k].success
    ensures sleeps == Backoffs(policy, SaturatingDec(Tried(attempts)))
    ensures lastErr == LastError(attempts) && (lastErr.None? <==> Tried(attempts) == 0)
  {}

  /** All the sleeps of a request together stay below (candidates - 1) times the cap. */
  lemma {:induction false} SleepsBounded(policy: RetryPolicy, n: nat)
    requires policy.Valid()
    ensures Sum(Backoffs(policy, n)) <= n * policy.max
  {
    hide RetryPolicy.Backoff;
    if n > 0 {
      SleepsBounded(policy, n - 1);
      BackoffMonotone(policy, n - 1, n - 1);
      assert Backoffs(policy, n)[..n - 1] == Backoffs(policy, n - 1);
      OneMore(n - 1, policy.max);
    }
  }

  lemma OneMore(n: nat, max: nat)
    ensures (n + 1) * max == n * max + max
  {}

  lemma {:induction false} TriedAtMostAll(attempts: seq<ForwardAttempt>)
    ensures Tried(attempts) <= |attempts|
    ensures Tried(attempts) == 0 <==> forall i :: 0 <= i < |attempts| ==> attempts[i].skippedOpenCircuit
  {
    if attempts != [] { TriedAtMostAll(attempts[..|attempts| - 1]); }
  }

  /** So for the sleeps of any request over `n` candidates. */
  lemma RequestSleepsBounded(policy: RetryPolicy, attempts: seq<ForwardAttempt>, n: nat)
    requires policy.Valid() && |attempts| <= n && n > 0
    ensures Sum(Backoffs(policy, SaturatingDec(Tried(attempts)))) <= (n - 1) * policy.max
  {
    hide Sum, Backoffs, Tried, RetryPolicy.Backoff;
    var m := SaturatingDec(Tried(attempts));
    TriedAtMostAll(attempts);
    SleepsBounded(policy, m);
    MulMonotone(m, n - 1, policy.max);
  }
}
