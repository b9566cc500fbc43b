/** The single-state limiter of `src/hooks/useRateLimit.ts`: the hook's
    state record and its three callbacks as pure transitions. The clock is
    the parameter `now`; React's state cell is the state passed in and
    returned. */
module RateLimitHook {

  const DefaultMaxAttempts := 5
  const DefaultWindowMs := 60000

  datatype RateLimitState = RateLimitState(attempts: int, lastAttempt: int, isBlocked: bool, remainingTime: int)

  /** The hook's initial state, and the state every reset returns to. */
  const Cleared := RateLimitState(0, 0, false, 0)

  /** What a callback returns to its caller. */
  datatype Decision = Decision(allowed: bool, remainingTime: int)

  /** A callback's result together with the state it leaves behind. */
  datatype Step = Step(decision: Decision, state: RateLimitState)

  /** `checkRateLimit()` at clock `now`. */
  function CheckRateLimit(s: RateLimitState, now: int, maxAttempts: int, windowMs: int): (r: Step)
    ensures now - s.lastAttempt > windowMs ==> r == Step(Decision(true, 0), Cleared)
    ensures now - s.lastAttempt <= windowMs ==> r.state == s
    ensures now - s.lastAttempt <= windowMs ==> (r.decision.allowed <==> s.attempts < maxAttempts)
    ensures r.decision.allowed ==> r.decision.remainingTime == 0
    ensures !r.decision.allowed ==> r.decision.remainingTime == windowMs - (now - s.lastAttempt)
    ensures !r.decision.allowed && now >= s.lastAttempt ==> 0 <= r.decision.remainingTime <= windowMs
  {
    var elapsed := now - s.lastAttempt;
    if elapsed > windowMs then Step(Decision(true, 0), Cleared)
    else if s.attempts >= maxAttempts then Step(Decision(false, windowMs - elapsed), s)
    else Step(Decision(true, 0), s)
  }

  /** `recordAttempt()` at clock `now`. */
  function RecordAttempt(s: RateLimitState, now: int, maxAttempts: int, windowMs: int): (r: Step)
    ensures now - s.lastAttempt > windowMs ==>
      r == Step(Decision(true, 0), RateLimitState(1, now, false, 0))
    ensures now - s.lastAttempt <= windowMs ==>
      && r.state.attempts == s.attempts + 1
      && r.state.lastAttempt == now
      && (r.state.isBlocked <==> s.attempts + 1 >= maxAttempts)
      && r.state.remainingTime == (if r.state.isBlocked then windowMs else 0)
      && r.decision == Decision(!r.state.isBlocked, r.state.remainingTime)
    ensures r.state.lastAttempt == now
  {
    if now - s.lastAttempt > windowMs then
      Step(Decision(true, 0), RateLimitState(1, now, false, 0))
    else
      var attempts := s.attempts + 1;
      var blocked := attempts >= maxAttempts;
      var remaining := if blocked then windowMs else 0;
      Step(Decision(!blocked, remaining), RateLimitState(attempts, now, blocked, remaining))
  }

  /** `resetRateLimit()`: the cleared state, whatever came before. */
  function ResetRateLimit(s: RateLimitState): (r: RateLimitState)
    ensures r.attempts == 0 && r.lastAttempt == 0 && !r.isBlocked && r.remainingTime == 0
  {
    Cleared
  }

  /** After a reset every check is allowed, as long as one attempt is. */
  lemma ResetThenCheckAllows(s: RateLimitState, now: int, maxAttempts: int, windowMs: int)
    requires maxAttempts >= 1
    ensures CheckRateLimit(ResetRateLimit(s), now, maxAttempts, windowMs).decision.allowed
  {
  }

  /** Recording attempts at the given instants, in order. */
  function RecordAll(s: RateLimitState, times: seq<int>, maxAttempts: int, windowMs: int): RateLimitState
    decreases |times|
  {
    if |times| == 0 then s
    else RecordAll(RecordAttempt(s, times[0], maxAttempts, windowMs).state, times[1..], maxAttempts, windowMs)
  }

  /** Each instant comes at most windowMs after the one before it, the
      first at most windowMs after `start`. */
  predicate Chained(start: int, times: seq<int>, windowMs: int) {
    && (|times| > 0 ==> times[0] - start <= windowMs)
    && forall i :: 1 <= i < |times| ==> times[i] - times[i - 1] <= windowMs
  }

  /** The window slides: because every recorded attempt moves lastAttempt,
      attempts that each follow the previous one within windowMs keep
      adding up, however long the whole run lasts. */
  lemma {:induction false} SlidingWindowAccumulates(s: RateLimitState, times: seq<int>,
                                                   maxAttempts: int, windowMs: int)
    requires |times| > 0
    requires Chained(s.lastAttempt, times, windowMs)
    ensures var last := RecordAll(s, times, maxAttempts, windowMs);
      && last.attempts == s.attempts + |times|
      && last.lastAttempt == times[|times| - 1]
      && (last.isBlocked <==> s.attempts + |times| >= maxAttempts)
    decreases |times|
  {
    var next := RecordAttempt(s, times[0], maxAttempts, windowMs).state;
    assert times[0] - s.lastAttempt <= windowMs;
    assert next.attempts == s.attempts + 1;
    assert RecordAll(s, times, maxAttempts, windowMs) == RecordAll(next, times[1..], maxAttempts, windowMs);
    if |times| > 1 {
      assert Chained(next.lastAttempt, times[1..], windowMs) by {
        assert times[1..][0] - next.lastAttempt == times[1] - times[0];
        forall i | 1 <= i < |times[1..]|
          ensures times[1..][i] - times[1..][i - 1] <= windowMs
        {
          assert times[1..][i] == times[i + 1];
        }
      }
      SlidingWindowAccumulates(next, times[1..], maxAttempts, windowMs);
      assert times[1..][|times[1..]| - 1] == times[|times| - 1];
    }
  }

  /** From the cleared state with lastAttempt = 0 far in the past, the
      first attempt opens a fresh count of one. */
  lemma FirstAttemptAfterQuietPeriod(s: RateLimitState, now: int, maxAttempts: int, windowMs: int)
    requires now - s.lastAttempt > windowMs
    ensures RecordAttempt(s, now, maxAttempts, windowMs).state.attempts == 1
    ensures CheckRateLimit(s, now, maxAttempts, windowMs).state == Cleared
  {
  }
}
