/**
 The circuit breaker and bounded retry (crates/infrastructure/src/resilience.rs; the
 breaker again in crates/retrieval/src/circuit_breaker.rs). Time is a natural number
 that callers read from the clock.
 */
module Resilience {
  import opened Wrappers

  datatype CircuitState = Closed | Open | HalfOpen

  /** One call on the breaker, with the time at which it ran. */
  datatype Event =
    | Succeeded
    | Failed(at: nat)
    | Asked(at: nat, granted: bool)

  // ---- What a history of calls means ----

  /** Failures since the last success. */
  function Failures(log: seq<Event>): nat {
    if log == [] then 0
    else match log[|log| - 1]
      case Succeeded => 0
      case Failed(_) => Failures(log[..|log| - 1]) + 1
      case Asked(_, _) => Failures(log[..|log| - 1])
  }

  /** The time of the latest failure, since the last success, that met the threshold. */
  function Tripped(log: seq<Event>, threshold: nat): Option<nat> {
    if log == [] then None
    else match log[|log| - 1]
      case Succeeded => None
      case Failed(at) => if Failures(log) >= threshold then Some(at) else Tripped(log[..|log| - 1], threshold)
      case Asked(_, _) => Tripped(log[..|log| - 1], threshold)
  }

  /** A request was granted after that failure: a probe is out. */
  predicate Probing(log: seq<Event>, threshold: nat) {
    if log == [] then false
    else match log[|log| - 1]
      case Succeeded => false
      case Failed(_) => Failures(log) < threshold && Probing(log[..|log| - 1], threshold)
      case Asked(_, granted) =>
        (granted && Tripped(log[..|log| - 1], threshold).Some?) || Probing(log[..|log| - 1], threshold)
  }

  lemma {:induction false} TrippedIffThresholdMet(log: seq<Event>, threshold: nat)
    requires threshold >= 1
    ensures Tripped(log, threshold).Some? <==> Failures(log) >= threshold
    ensures Probing(log, threshold) ==> Tripped(log, threshold).Some?
  {
    if log != [] {
      TrippedIffThresholdMet(log[..|log| - 1], threshold);
    }
  }

  /** Whether the breaker lets a request through at time `now` after this history. */
  predicate Grants(log: seq<Event>, threshold: nat, openFor: nat, now: nat) {
    Probing(log, threshold) || match Tripped(log, threshold) case None => true case Some(at) => now - at >= openFor
  }

  /** Every request in the history was answered as the breaker answers. */
  ghost predicate Answered(log: seq<Event>, threshold: nat, openFor: nat) {
    forall k :: 0 <= k < |log| && log[k].Asked? ==> (log[k].granted <==> Grants(log[..k], threshold, openFor, log[k].at))
  }

  /** The failure behind a trip: it met the threshold, and only requests followed it. */
  lemma {:induction false} TripHasCause(log: seq<Event>, threshold: nat) returns (j: nat)
    requires threshold >= 1 && Tripped(log, threshold).Some?
    ensures j < |log| && log[j] == Failed(Tripped(log, threshold).value)
    ensures Failures(log[..j + 1]) >= threshold
    ensures forall i :: j < i < |log| ==> log[i].Asked?
  {
    var n := |log| - 1;
    TrippedIffThresholdMet(log[..n], threshold);
    if log[n].Failed? && Failures(log) >= threshold {
      j := n;
      assert log[..n + 1] == log;
    } else {
      j := TripHasCause(log[..n], threshold);
      assert log[..n][..j + 1] == log[..j + 1];
    }
  }

  /**
   Over any history: a request is refused only within `openFor` of a failure that met
   the threshold, with nothing but refused requests in between.
   */
  lemma RefusedOnlyWhileOpen(log: seq<Event>, threshold: nat, openFor: nat, k: nat) returns (j: nat)
    requires threshold >= 1 && Answered(log, threshold, openFor) && k < |log| && log[k].Asked? && !log[k].granted
    ensures j < k && log[j].Failed? && log[k].at - log[j].at < openFor && Failures(log[..j + 1]) >= threshold
    ensures forall i :: j < i < k ==> log[i].Asked? && !log[i].granted
  {
    var before := log[..k];
    j := TripHasCause(before, threshold);
    assert before[..j + 1] == log[..j + 1];
    NotProbingMeansNoneGranted(before, threshold, j);
  }

  lemma {:induction false} NotProbingMeansNoneGranted(log: seq<Event>, threshold: nat, j: nat)
    requires !Probing(log, threshold) && j < |log|
    requires log[j].Failed? && Failures(log[..j + 1]) >= threshold
    requires forall i :: j < i < |log| ==> log[i].Asked?
    ensures Tripped(log, threshold).Some?
    ensures forall i :: j < i < |log| && log[i].Asked? ==> !log[i].granted
  {
    var n := |log| - 1;
    assert log[..n + 1] == log;
    if j < n {
      assert log[..n][..j + 1] == log[..j + 1];
      NotProbingMeansNoneGranted(log[..n], threshold, j);
    }
  }

  // ---- The same, said of the calls themselves ----

  /** Call `k` is a failure that no success follows. */
  predicate StillCounts(log: seq<Event>, k: nat) {
    k < |log| && log[k].Failed? && forall i :: k < i < |log| ==> !log[i].Succeeded?
  }

  /** The failures that no success follows. */
  ghost function FailedSinceSuccess(log: seq<Event>): set<nat> {
    set k: nat | k < |log| && StillCounts(log, k)
  }

  lemma OneMoreCall(before: seq<Event>, e: Event, k: nat)
    ensures StillCounts(before + [e], k) <==>
      (!e.Succeeded? && StillCounts(before, k)) || (e.Failed? && k == |before|)
  {
    var log := before + [e];
    if k < |before| {
      assert log[k] == before[k];
      if !e.Succeeded? && StillCounts(before, k) {
        forall i | k < i < |log| ensures !log[i].Succeeded? {
          assert i < |before| ==> log[i] == before[i];
        }
      }
      if StillCounts(log, k) {
        assert log[|before|] == e;
        forall i | k < i < |before| ensures !before[i].Succeeded? {
          assert log[i] == before[i];
        }
      }
    }
  }

  lemma CountAfterCall(before: seq<Event>, e: Event)
    ensures |FailedSinceSuccess(before + [e])| ==
      if e.Succeeded? then 0 else |FailedSinceSuccess(before)| + if e.Failed? then 1 else 0
  {
    var now, was := FailedSinceSuccess(before + [e]), FailedSinceSuccess(before);
    forall k: nat ensures k in now <==> (!e.Succeeded? && k in was) || (e.Failed? && k == |before|) {
      OneMoreCall(before, e, k);
    }
    if e.Succeeded? {
      assert now == {};
    } else if e.Failed? {
      assert now == was + {|before|};
    } else {
      assert now == was;
    }
  }

  /** The counter counts them. */
  lemma {:induction false} FailuresAreCounted(log: seq<Event>)
    ensures Failures(log) == |FailedSinceSuccess(log)|
  {
    if log == [] {
      assert FailedSinceSuccess(log) == {};
    } else {
      var before, e := log[..|log| - 1], log[|log| - 1];
      FailuresAreCounted(before);
      CountAfterCall(before, e);
      assert log == before + [e];
    }
  }

  /** A failure met the threshold and only requests followed: a probe is out exactly when one was granted. */
  lemma {:induction false} ProbingIffGranted(log: seq<Event>, threshold: nat, j: nat)
    requires j < |log| && log[j].Failed? && Failures(log[..j + 1]) >= threshold
    requires forall i :: j < i < |log| ==> log[i].Asked?
    ensures Tripped(log, threshold) == Some(log[j].at)
    ensures Probing(log, threshold) <==> exists i :: j < i < |log| && log[i].granted
  {
    var n := |log| - 1;
    assert log[..n + 1] == log;
    if j < n {
      assert log[..n][..j + 1] == log[..j + 1];
      ProbingIffGranted(log[..n], threshold, j);
    }
  }

  /** Call `j` was a failure that met the threshold less than `openFor` ago, and no request has been granted since. */
  ghost predicate ShutBy(log: seq<Event>, threshold: nat, openFor: nat, now: nat, j: nat) {
    && j < |log| && log[j].Failed? && |FailedSinceSuccess(log[..j + 1])| >= threshold
    && (forall i :: j < i < |log| ==> log[i].Asked? && !log[i].granted)
    && now - log[j].at < openFor
  }

  /** A request is refused exactly when such a failure shuts the breaker. */
  lemma RefusesIffShut(log: seq<Event>, threshold: nat, openFor: nat, now: nat)
    requires threshold >= 1
    ensures !Grants(log, threshold, openFor, now) <==> exists j :: ShutBy(log, threshold, openFor, now, j)
  {
    if !Grants(log, threshold, openFor, now) {
      var j := TripHasCause(log, threshold);
      FailuresAreCounted(log[..j + 1]);
      ProbingIffGranted(log, threshold, j);
      assert ShutBy(log, threshold, openFor, now, j);
    } else if j :| ShutBy(log, threshold, openFor, now, j) {
      FailuresAreCounted(log[..j + 1]);
      ProbingIffGranted(log, threshold, j);
    }
  }

  lemma AnsweredAppend(log: seq<Event>, threshold: nat, openFor: nat, e: Event)
    requires Answered(log, threshold, openFor)
    requires e.Asked? ==> (e.granted <==> Grants(log, threshold, openFor, e.at))
    ensures Answered(log + [e], threshold, openFor)
  {
    assert (log + [e])[..|log|] == log;
    assert forall k :: 0 <= k < |log| ==> (log + [e])[..k] == log[..k];
  }

  lemma LogAppend(log: seq<Event>, e: Event)
    ensures (log + [e])[..|log + [e]| - 1] == log && (log + [e])[|log + [e]| - 1] == e
  {
  }

  /** What another caller may do on the breaker. */
  datatype OtherCall = AskedBy(at: nat) | SucceededBy | FailedBy(at: nat)

  predicate Matches(call: OtherCall, event: Event) {
    match call
    case AskedBy(at) => event.Asked? && event.at == at
    case SucceededBy => event.Succeeded?
    case FailedBy(at) => event == Failed(at)
  }

  class CircuitBreaker {
    const failureThreshold: nat
    const openFor: nat
    var state: CircuitState
    var consecutiveFailures: nat
    var openedAt: Option<nat>
    ghost var log: seq<Event>

    /** The three fields are a function of the history: closed below the threshold, half-open while probing. */
    ghost predicate Valid()
      reads this
    {
      && failureThreshold >= 1
      && Answered(log, failureThreshold, openFor)
      && consecutiveFailures == Failures(log)
      && openedAt == Tripped(log, failureThreshold)
      && state == (if Failures(log) < failureThreshold then Closed
                   else if Probing(log, failureThreshold) then HalfOpen else Open)
    }

    constructor (failureThreshold: nat, openFor: nat)
      ensures Valid() && log == [] && this.openFor == openFor
      ensures this.failureThreshold == if failureThreshold < 1 then 1 else failureThreshold
    {
      this.failureThreshold := if failureThreshold < 1 then 1 else failureThreshold;
      this.openFor := openFor;
      state, consecutiveFailures, openedAt, log := Closed, 0, None, [];
    }

    /**
     Refuses exactly while the threshold is met, no probe is out, and less than
     `openFor` has passed since the latest failure that met it: exactly when one of the
     calls so far shuts it.
     */
    method AllowRequest(now: nat) returns (granted: bool)
      requires Valid()
      modifies this
      ensures Valid() && log == old(log) + [Asked(now, granted)]
      ensures !granted <==>
        && Failures(old(log)) >= failureThreshold
        && !Probing(old(log), failureThreshold)
        && Tripped(old(log), failureThreshold).Some?
        && now - Tripped(old(log), failureThreshold).value < openFor
      ensures !granted <==> exists j :: ShutBy(old(log), failureThreshold, openFor, now, j)
    {
      RefusesIffShut(log, failureThreshold, openFor, now);
      TrippedIffThresholdMet(log, failureThreshold);
      match state {
        case Closed => granted := true;
        case HalfOpen => granted := true;
        case Open =>
          var ready := if openedAt.Some? then now - openedAt.value >= openFor else false;
          if ready {
            state := HalfOpen;
          }
          granted := ready;
      }
      LogAppend(log, Asked(now, granted));
      AnsweredAppend(log, failureThreshold, openFor, Asked(now, granted));
      log := log + [Asked(now, granted)];
    }

    /** A success closes the breaker and forgets every failure. */
    method RecordSuccess()
      requires Valid()
      modifies this
      ensures Valid() && log == old(log) + [Succeeded] && state == Closed
    {
      LogAppend(log, Succeeded);
      AnsweredAppend(log, failureThreshold, openFor, Succeeded);
      log := log + [Succeeded];
      state, consecutiveFailures, openedAt := Closed, 0, None;
    }

    /** A failure at or past the threshold opens it; in particular a failed probe always does. */
    method RecordFailure(now: nat)
      requires Valid()
      modifies this
      ensures Valid() && log == old(log) + [Failed(now)]
      ensures state == if Failures(log) >= failureThreshold then Open else Closed
      ensures old(state) != Closed ==> state == Open && openedAt == Some(now)
    {
      LogAppend(log, Failed(now));
      AnsweredAppend(log, failureThreshold, openFor, Failed(now));
      log := log + [Failed(now)];
      TrippedIffThresholdMet(old(log), failureThreshold);
      consecutiveFailures := consecutiveFailures + 1;
      if consecutiveFailures >= failureThreshold {
        state := Open;
        openedAt := Some(now);
      }
    }

    method OneOther(other: OtherCall) returns (ghost event: Event)
      requires Valid()
      modifies this
      ensures Valid() && log == old(log) + [event] && Matches(other, event)
    {
      match other {
        case AskedBy(at) =>
          var granted := AllowRequest(at);
          event := Asked(at, granted);
        case SucceededBy =>
          RecordSuccess();
          event := Succeeded;
        case FailedBy(at) =>
          RecordFailure(at);
          event := Failed(at);
      }
    }

    /** Calls that other callers make on the breaker while its lock is free. */
    method Interleave(others: seq<OtherCall>) returns (ghost events: seq<Event>)
      requires Valid()
      modifies this
      ensures Valid() && log == old(log) + events
      ensures |events| == |others| && forall k :: 0 <= k < |others| ==> Matches(others[k], events[k])
    {
      events := [];
      for i := 0 to |others|
        invariant Valid() && log == old(log) + events
        invariant |events| == i && forall k :: 0 <= k < i ==> Matches(others[k], events[k])
      {
        ghost var event := OneOther(others[i]);
        events := events + [event];
      }
    }

    /**
     `execute_with_resilience`: a refused call does nothing; a granted one runs the
     retries and, at time `later` and after whatever other callers did meanwhile, records
     a single outcome.
     */
    method ExecuteWithResilience(policy: RetryPolicy, operation: nat -> Result<int, string>, now: nat, later: nat,
                                 others: seq<OtherCall>)
      returns (outcome: Result<int, Option<string>>, attempts: nat, ghost granted: bool, ghost events: seq<Event>)
      requires Valid()
      modifies this
      ensures Valid()
      ensures granted == Grants(old(log), failureThreshold, openFor, now)
      ensures !granted ==>
        outcome == Failure(None) && attempts == 0 && events == [] && log == old(log) + [Asked(now, false)]
      ensures granted ==>
        && |events| == |others| && (forall k :: 0 <= k < |others| ==> Matches(others[k], events[k]))
        && 1 <= attempts <= MaxAttempts(policy)
        && (forall a: nat :: 1 <= a < attempts ==> operation(a).Failure?)
        && (if operation(attempts).Success?
            then outcome == Success(operation(attempts).value)
                 && log == old(log) + [Asked(now, true)] + events + [Succeeded]
            else outcome == Failure(Some(operation(attempts).error)) && attempts == MaxAttempts(policy)
                 && log == old(log) + [Asked(now, true)] + events + [Failed(later)])
    {
      var allowed := AllowRequest(now);
      granted, events := allowed, [];
      TrippedIffThresholdMet(old(log), failureThreshold);
      if !allowed {
        return Failure(None), 0, granted, events;
      }
      var result, waits;
      result, attempts, waits := RetryWithBackoff(policy, operation);
      events := Interleave(others);
      match result {
        case Success(value) =>
          RecordSuccess();
          outcome := Success(value);
        case Failure(error) =>
          RecordFailure(later);
          outcome := Failure(Some(error));
      }
    }
  }

  // ---- Retry ----

  datatype RetryPolicy = RetryPolicy(maxAttempts: nat, baseDelay: nat, maxDelay: nat)

  function MaxAttempts(policy: RetryPolicy): nat {
    if policy.maxAttempts < 1 then 1 else policy.maxAttempts
  }

  const JITTER_MS := 7

  /** The wait after a failed attempt, in milliseconds. */
  function WaitAfter(policy: RetryPolicy, attempt: nat): nat {
    Min(policy.baseDelay * attempt + JITTER_MS * attempt, policy.maxDelay)
  }

  /** The waits of a call that gave up `n` times. */
  function Waits(policy: RetryPolicy, n: nat): (r: seq<nat>)
    ensures |r| == n
  {
    if n == 0 then [] else Waits(policy, n - 1) + [WaitAfter(policy, n)]
  }

  lemma {:induction false} WaitsAt(policy: RetryPolicy, n: nat, k: nat)
    requires k < n
    ensures Waits(policy, n)[k] == WaitAfter(policy, k + 1)
  {
    if k < n - 1 {
      WaitsAt(policy, n - 1, k);
    }
  }

  /** Waits never shrink and never exceed the cap. */
  lemma WaitsDoNotShrink(policy: RetryPolicy, n: nat, j: nat, k: nat)
    requires j <= k < n
    ensures Waits(policy, n)[j] <= Waits(policy, n)[k] <= policy.maxDelay
  {
    WaitsAt(policy, n, j);
    WaitsAt(policy, n, k);
    MultiplyMonotone(j + 1, k + 1, policy.baseDelay);
  }

  /** Runs the operation until it succeeds, at least once and at most `maxAttempts` times. */
  method RetryWithBackoff(policy: RetryPolicy, operation: nat -> Result<int, string>)
    returns (result: Result<int, string>, attempts: nat, waits: seq<nat>)
    ensures 1 <= attempts && (attempts <= policy.maxAttempts || attempts == 1)
    ensures result.Failure? ==> attempts >= policy.maxAttempts
    ensures |waits| == attempts - 1
    ensures forall k :: 0 <= k < |waits| ==>
      waits[k] <= policy.maxDelay
      && (waits[k] == policy.baseDelay * (k + 1) + 7 * (k + 1) || waits[k] == policy.maxDelay)
      && waits[k] <= policy.baseDelay * (k + 1) + 7 * (k + 1)
    ensures 1 <= attempts <= MaxAttempts(policy)
    ensures result == operation(attempts)
    ensures forall a: nat :: 1 <= a < attempts ==> operation(a).Failure?
    ensures result.Failure? ==> attempts == MaxAttempts(policy)
    ensures waits == Waits(policy, attempts - 1)
  {
    var attempt: nat := 1;
    waits := [];
    while true
      invariant 1 <= attempt <= MaxAttempts(policy)
      invariant forall a: nat :: 1 <= a < attempt ==> operation(a).Failure?
      invariant waits == Waits(policy, attempt - 1)
      decreases MaxAttempts(policy) - attempt
    {
      result := operation(attempt);
      if result.Success? || attempt >= policy.maxAttempts {
        attempts := attempt;
        forall k: nat | k < |waits| ensures waits[k] == WaitAfter(policy, k + 1) {
          WaitsAt(policy, attempt - 1, k);
        }
        return;
      }
      waits := waits + [WaitAfter(policy, attempt)];
      attempt := attempt + 1;
    }
  }
}
