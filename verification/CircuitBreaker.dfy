/** The circuit breaker: its counters against the history of what was recorded. */
module CircuitBreaker {

  datatype State = Closed | Open | HalfOpen

  datatype Config = Config(failureThreshold: int, successThreshold: int, timeout: int)

  datatype Breaker = Breaker(state: State, failures: int, successes: int, lastFailureTime: int)

  function WithDefaults(c: Config): Config {
    Config(if c.failureThreshold <= 0 then 5 else c.failureThreshold,
           if c.successThreshold <= 0 then 2 else c.successThreshold,
           if c.timeout <= 0 then 30_000_000_000 else c.timeout)
  }

  ghost predicate Proper(c: Config) {
    c.failureThreshold > 0 && c.successThreshold > 0 && c.timeout > 0
  }

  function SetState(b: Breaker, next: State): Breaker {
    if b.state == next then b
    else Breaker(next, if next.Closed? then 0 else b.failures, 0, b.lastFailureTime)
  }

  /** The calls a breaker receives, with the clock readings they take. `counted` is IsFailure's verdict. */
  datatype Call = Allow(now: int) | Success | Failure(counted: bool, now: int) | Reset

  function Granted(c: Config, b: Breaker, now: int): bool {
    !b.state.Open? || now - b.lastFailureTime >= c.timeout
  }

  function After(c: Config, b: Breaker, call: Call): Breaker {
    match call
    case Allow(now) => if Granted(c, b, now) && b.state.Open? then SetState(b, HalfOpen) else b
    case Success =>
      var d := b.(failures := 0, successes := b.successes + 1);
      if d.state.HalfOpen? && d.successes >= c.successThreshold then SetState(d, Closed) else d
    case Failure(counted, now) =>
      if !counted then b
      else
        var d := b.(successes := 0, failures := b.failures + 1, lastFailureTime := now);
        if d.state.HalfOpen? || (d.state.Closed? && d.failures >= c.failureThreshold) then SetState(d, Open) else d
    case Reset => SetState(b, Closed).(failures := 0, successes := 0)
  }

  class CircuitBreaker {
    const config: Config
    var state: State
    var failures: int
    var successes: int
    var lastFailureTime: int

    constructor (given: Config)
      ensures config == WithDefaults(given) && Proper(config)
      ensures Value() == Breaker(Closed, 0, 0, 0)
    {
      config := WithDefaults(given);
      state, failures, successes, lastFailureTime := Closed, 0, 0, 0;
    }

    function Value(): Breaker
      reads this
    {
      Breaker(state, failures, successes, lastFailureTime)
    }

    method ChangeState(newState: State)
      modifies this
      ensures Value() == SetState(old(Value()), newState)
    {
      if state == newState {
        return;
      }
      state := newState;
      successes := 0;
      if newState.Closed? {
        failures := 0;
      }
    }

    method AllowCall(now: int) returns (ok: bool)
      modifies this
      ensures ok == Granted(config, old(Value()), now)
      ensures Value() == After(config, old(Value()), Allow(now))
    {
      match state
      case Closed => return true;
      case Open =>
        if now - lastFailureTime >= config.timeout {
          ChangeState(HalfOpen);
          return true;
        }
        return false;
      case HalfOpen => return true;
    }

    method RecordSuccess()
      modifies this
      ensures Value() == After(config, old(Value()), Success)
    {
      failures := 0;
      successes := successes + 1;
      if state.HalfOpen? && successes >= config.successThreshold {
        ChangeState(Closed);
      }
    }

    method RecordFailure(counted: bool, now: int)
      modifies this
      ensures Value() == After(config, old(Value()), Failure(counted, now))
    {
      if !counted {
        return;
      }
      successes := 0;
      failures := failures + 1;
      lastFailureTime := now;
      if state.Closed? && failures >= config.failureThreshold {
        ChangeState(Open);
      }
      if state.HalfOpen? {
        ChangeState(Open);
      }
    }

    method ResetBreaker()
      modifies this
      ensures Value() == After(config, old(Value()), Reset)
    {
      ChangeState(Closed);
      failures := 0;
      successes := 0;
    }
  }

  // ---------------------------------------------------------------- The history it stands for

  function Run(c: Config, calls: seq<Call>): Breaker {
    if calls == [] then Breaker(Closed, 0, 0, 0)
    else After(c, Run(c, calls[..|calls| - 1]), calls[|calls| - 1])
  }

  /** Counted failures since the last success or reset, late ones included. */
  function TrailingFailures(calls: seq<Call>): nat {
    if calls == [] then 0
    else
      var before := TrailingFailures(calls[..|calls| - 1]);
      match calls[|calls| - 1]
      case Failure(counted, _) => if counted then before + 1 else before
      case Allow(_) => before
      case _ => 0
  }

  function Successes(calls: seq<Call>): nat {
    if calls == [] then 0
    else Successes(calls[..|calls| - 1]) + if calls[|calls| - 1].Success? then 1 else 0
  }

  ghost predicate LatestFailure(calls: seq<Call>, i: nat) {
    i < |calls| && calls[i].Failure? && calls[i].counted
    && forall j :: i < j < |calls| ==> !(calls[j].Failure? && calls[j].counted)
  }

  /** The breaker opened for its trial at call `i`, and nothing since has ended the trial. */
  ghost predicate TrialSince(c: Config, calls: seq<Call>, i: nat) {
    && i < |calls|
    && calls[i].Allow? && Run(c, calls[..i]).state.Open? && Granted(c, Run(c, calls[..i]), calls[i].now)
    && forall j :: i < j < |calls| ==> !calls[j].Reset? && !(calls[j].Failure? && calls[j].counted)
  }

  ghost predicate OpenExplained(calls: seq<Call>, b: Breaker) {
    exists i: nat :: LatestFailure(calls, i) && calls[i].now == b.lastFailureTime
  }

  ghost predicate TrialExplained(c: Config, calls: seq<Call>, b: Breaker) {
    exists i: nat :: TrialSince(c, calls, i) && b.successes == Successes(calls[i..])
  }

  ghost predicate Explained(c: Config, calls: seq<Call>, b: Breaker) {
    && b.failures == TrailingFailures(calls)
    && (b.state.Closed? ==> b.failures < c.failureThreshold)
    && (b.state.Open? ==> OpenExplained(calls, b))
    && (b.state.HalfOpen? ==> TrialExplained(c, calls, b) && b.successes < c.successThreshold)
  }

  lemma OpenStays(calls: seq<Call>, call: Call, b: Breaker, d: Breaker)
    requires if call.Failure? && call.counted then d.lastFailureTime == call.now
             else OpenExplained(calls, b) && d.lastFailureTime == b.lastFailureTime
    ensures OpenExplained(calls + [call], d)
  {
    var more := calls + [call];
    if call.Failure? && call.counted {
      assert LatestFailure(more, |calls|);
    } else {
      var i: nat :| LatestFailure(calls, i) && calls[i].now == b.lastFailureTime;
      assert LatestFailure(more, i);
    }
  }

  lemma TrialStays(c: Config, calls: seq<Call>, call: Call, b: Breaker, d: Breaker)
    requires TrialExplained(c, calls, b) && !call.Reset? && !(call.Failure? && call.counted)
    requires d.successes == b.successes + if call.Success? then 1 else 0
    ensures TrialExplained(c, calls + [call], d)
  {
    var more := calls + [call];
    var i: nat :| TrialSince(c, calls, i) && b.successes == Successes(calls[i..]);
    assert more[..i] == calls[..i];
    assert more[i..][..|more[i..]| - 1] == calls[i..];
    assert TrialSince(c, more, i);
  }

  lemma TrialStarts(c: Config, calls: seq<Call>, call: Call, d: Breaker)
    requires call.Allow? && Run(c, calls).state.Open? && Granted(c, Run(c, calls), call.now) && d.successes == 0
    ensures TrialExplained(c, calls + [call], d)
  {
    var more := calls + [call];
    assert more[..|calls|] == calls && more[|calls|..] == [call];
    assert [call][..0] == [];
    assert Successes([call]) == 0;
    assert TrialSince(c, more, |calls|);
  }

  lemma OneCall(c: Config, calls: seq<Call>, call: Call)
    requires Proper(c) && Explained(c, calls, Run(c, calls))
    ensures Explained(c, calls + [call], Run(c, calls + [call]))
  {
    var more := calls + [call];
    assert more[..|calls|] == calls;
    var b := Run(c, calls);
    var d := After(c, b, call);
    assert Run(c, more) == d;
    assert d.failures == TrailingFailures(more);
    if d.state.Open? {
      OpenStays(calls, call, b, d);
    } else if d.state.HalfOpen? {
      if b.state.Open? {
        TrialStarts(c, calls, call, d);
      } else {
        TrialStays(c, calls, call, b, d);
      }
    }
  }

  /** In every reachable state: the failure counter is the trailing run of counted failures, below the threshold
      while closed; while open the recorded time is that of the latest counted failure; in a trial the success
      counter is the number of successes since it began, below the threshold. */
  lemma {:induction false} BreakerTheorem(c: Config, calls: seq<Call>)
    requires Proper(c)
    ensures Explained(c, calls, Run(c, calls))
    decreases |calls|
  {
    if calls != [] {
      var front := calls[..|calls| - 1];
      BreakerTheorem(c, front);
      OneCall(c, front, calls[|calls| - 1]);
      assert front + [calls[|calls| - 1]] == calls;
    }
  }

  ghost predicate ClockForward(calls: seq<Call>) {
    forall i, j :: 0 <= i < j < |calls| && calls[i].Failure? && calls[j].Failure? ==> calls[i].now <= calls[j].now
  }

  /** A call that an open breaker lets through comes at least Timeout after every counted failure there was. */
  lemma {:induction false} GrantedAfterQuiet(c: Config, calls: seq<Call>, now: int, k: nat)
    requires Proper(c) && ClockForward(calls)
    requires Run(c, calls).state.Open? && Granted(c, Run(c, calls), now)
    requires k < |calls| && calls[k].Failure? && calls[k].counted
    ensures now - calls[k].now >= c.timeout
  {
    BreakerTheorem(c, calls);
    var i: nat :| LatestFailure(calls, i) && calls[i].now == Run(c, calls).lastFailureTime;
    assert k <= i;
    assert k < i ==> calls[k].now <= calls[i].now;
  }

  /** And it is refused exactly while Timeout has not passed since the latest one. */
  lemma {:induction false} RefusedExactly(c: Config, calls: seq<Call>, now: int)
    requires Proper(c)
    ensures !Granted(c, Run(c, calls), now) <==>
            Run(c, calls).state.Open? && exists i: nat :: LatestFailure(calls, i) && now - calls[i].now < c.timeout
  {
    BreakerTheorem(c, calls);
    if Run(c, calls).state.Open? {
      var i: nat :| LatestFailure(calls, i) && calls[i].now == Run(c, calls).lastFailureTime;
      forall j: nat | LatestFailure(calls, j)
        ensures j == i
      {
      }
    }
  }

  /** A breaker trips, or trips again, only on a counted failure: the threshold-th in a row, or one during a trial. */
  lemma TripsOnFailure(c: Config, calls: seq<Call>, call: Call)
    requires Proper(c)
    ensures var b, d := Run(c, calls), Run(c, calls + [call]);
            !b.state.Open? && d.state.Open? <==>
              call.Failure? && call.counted
              && (b.state.HalfOpen? || (b.state.Closed? && TrailingFailures(calls) + 1 >= c.failureThreshold))
  {
    BreakerTheorem(c, calls);
    assert (calls + [call])[..|calls|] == calls;
  }

  /** Once a trial has begun, and until a reset or a counted failure, the breaker is not open. */
  lemma {:induction false} NotOpenSinceTrial(c: Config, calls: seq<Call>, i: nat, k: nat)
    requires TrialSince(c, calls, i) && i < k <= |calls|
    ensures !Run(c, calls[..k]).state.Open?
    decreases k
  {
    assert calls[..k][..k - 1] == calls[..k - 1];
    if k > i + 1 {
      NotOpenSinceTrial(c, calls, i, k - 1);
    }
  }

  /** So a trial has one beginning. */
  lemma OneTrial(c: Config, calls: seq<Call>, i: nat, k: nat)
    requires TrialSince(c, calls, i) && TrialSince(c, calls, k)
    ensures i == k
  {
    if i < k {
      NotOpenSinceTrial(c, calls, i, k);
    } else if k < i {
      NotOpenSinceTrial(c, calls, k, i);
    }
  }

  predicate Counted(call: Call) {
    call.Failure? && call.counted
  }

  /** Timeout has passed since the latest counted failure. */
  ghost predicate QuietFor(c: Config, calls: seq<Call>, now: int) {
    exists i: nat :: LatestFailure(calls, i) && now - calls[i].now >= c.timeout
  }

  /** The trial has had all the successes it needs but one. */
  ghost predicate OneSuccessShort(c: Config, calls: seq<Call>) {
    exists i: nat :: TrialSince(c, calls, i) && Successes(calls[i..]) + 1 >= c.successThreshold
  }

  /** Which state a call leads to, told from the calls before it alone: a reset closes the breaker; a closed one opens
      on the failure that makes as many in a row as allowed; an open one admits a trial to the first call after
      Timeout; a trial ends with a counted failure or with as many successes as asked for. */
  lemma StateTheorem(c: Config, calls: seq<Call>, call: Call)
    requires Proper(c)
    ensures var b, d := Run(c, calls).state, Run(c, calls + [call]).state;
            && (call.Reset? ==> d.Closed?)
            && (!call.Reset? && b.Closed? ==>
                  d == if Counted(call) && TrailingFailures(calls) + 1 >= c.failureThreshold then Open else Closed)
            && (!call.Reset? && b.Open? ==>
                  d == if call.Allow? && QuietFor(c, calls, call.now) then HalfOpen else Open)
            && (!call.Reset? && b.HalfOpen? ==>
                  d == if Counted(call) then Open
                       else if call.Success? && OneSuccessShort(c, calls) then Closed else HalfOpen)
  {
    BreakerTheorem(c, calls);
    assert (calls + [call])[..|calls|] == calls;
    var b := Run(c, calls);
    if b.state.Open? && call.Allow? {
      RefusedExactly(c, calls, call.now);
      QuietOrNot(c, calls, call.now);
    }
    if b.state.HalfOpen? && call.Success? {
      var i: nat :| TrialSince(c, calls, i) && b.successes == Successes(calls[i..]);
      forall k: nat | TrialSince(c, calls, k)
        ensures k == i
      {
        OneTrial(c, calls, i, k);
      }
    }
  }

  lemma QuietOrNot(c: Config, calls: seq<Call>, now: int)
    requires Proper(c) && Run(c, calls).state.Open?
    ensures QuietFor(c, calls, now)
            <==> !exists i: nat :: LatestFailure(calls, i) && now - calls[i].now < c.timeout
  {
    BreakerTheorem(c, calls);
    var i: nat :| LatestFailure(calls, i) && calls[i].now == Run(c, calls).lastFailureTime;
    forall j: nat | LatestFailure(calls, j)
      ensures j == i
    {
    }
  }

  /** A reset leaves nothing of the past but the time of the latest failure. */
  lemma ResetForgets(c: Config, calls: seq<Call>)
    ensures Run(c, calls + [Reset]) == Breaker(Closed, 0, 0, Run(c, calls).lastFailureTime)
  {
    assert (calls + [Reset])[..|calls|] == calls;
  }

  /** Positive settings are kept; the others become 5 failures, 2 successes and 30 seconds. */
  lemma SettingsKept(given: Config)
    ensures Proper(WithDefaults(given)) && (Proper(given) ==> WithDefaults(given) == given)
    ensures given.failureThreshold > 0 ==> WithDefaults(given).failureThreshold == given.failureThreshold
    ensures given.successThreshold > 0 ==> WithDefaults(given).successThreshold == given.successThreshold
    ensures given.timeout > 0 ==> WithDefaults(given).timeout == given.timeout
    ensures !(given.failureThreshold > 0) ==> WithDefaults(given).failureThreshold == 5
    ensures !(given.successThreshold > 0) ==> WithDefaults(given).successThreshold == 2
    ensures !(given.timeout > 0) ==> WithDefaults(given).timeout == 30 * 1_000_000_000
  {
  }

  /** Successes since the breaker last changed its state, counted a failure or was reset. */
  function LatestSuccesses(c: Config, calls: seq<Call>): nat {
    if calls == [] then 0
    else
      var front, call := calls[..|calls| - 1], calls[|calls| - 1];
      if Counted(call) || call.Reset? || Run(c, calls).state != Run(c, front).state then 0
      else LatestSuccesses(c, front) + if call.Success? then 1 else 0
  }

  /** The rest of what Stats reports, in every state: the success counter, and the time of the latest counted failure
      there ever was. */
  lemma {:induction false} StatsTheorem(c: Config, calls: seq<Call>)
    ensures Run(c, calls).successes == LatestSuccesses(c, calls)
    ensures forall i: nat :: LatestFailure(calls, i) ==> Run(c, calls).lastFailureTime == calls[i].now
    ensures (forall i :: 0 <= i < |calls| ==> !Counted(calls[i])) ==> Run(c, calls).lastFailureTime == 0
    decreases |calls|
  {
    if calls != [] {
      var front := calls[..|calls| - 1];
      StatsTheorem(c, front);
      forall i: nat | LatestFailure(calls, i)
        ensures Run(c, calls).lastFailureTime == calls[i].now
      {
        assert i < |front| ==> LatestFailure(front, i);
      }
    }
  }
}
