/** The per-identifier call limiter of `SecurityManager` in
    `src/lib/security.ts` (`checkRateLimit`, `cleanupRateLimits`): a map
    from identifier to a call count and the instant its window closes. The
    mutable map becomes a value passed in and returned. */
module RateLimitTable {

  const DefaultMaxCalls := 100
  const DefaultWindowMs := 60000

  datatype RateRecord = RateRecord(count: int, resetTime: int)

  type Table = map<string, RateRecord>

  /** The outcome of one `checkRateLimit` call: whether the call is allowed,
      and the table afterwards. */
  datatype Check = Check(allowed: bool, table: Table)

  /** Whether the identifier's window is still open at `now`. */
  predicate InWindow(table: Table, identifier: string, now: int) {
    identifier in table && now <= table[identifier].resetTime
  }

  /** `checkRateLimit(identifier, maxCalls, windowMs)` at clock `now`. */
  function CheckRateLimit(table: Table, identifier: string, now: int, maxCalls: int, windowMs: int): (r: Check)
    ensures identifier in r.table
    ensures forall k :: k != identifier ==> (k in r.table <==> k in table)
    ensures forall k :: k != identifier && k in table ==> r.table[k] == table[k]
    ensures !InWindow(table, identifier, now) ==>
      r.allowed && r.table[identifier] == RateRecord(1, now + windowMs)
    ensures InWindow(table, identifier, now) ==>
      (r.allowed <==> table[identifier].count < maxCalls)
    ensures InWindow(table, identifier, now) && !r.allowed ==> r.table == table
    ensures InWindow(table, identifier, now) && r.allowed ==>
      r.table[identifier] == table[identifier].(count := table[identifier].count + 1)
  {
    if identifier !in table || now > table[identifier].resetTime then
      Check(true, table[identifier := RateRecord(1, now + windowMs)])
    else if table[identifier].count >= maxCalls then
      Check(false, table)
    else
      Check(true, table[identifier := table[identifier].(count := table[identifier].count + 1)])
  }

  /** A run of calls for one identifier at the given instants: how many
      were allowed, and the table afterwards. */
  function RunChecks(table: Table, identifier: string, times: seq<int>, maxCalls: int, windowMs: int): (nat, Table)
    decreases |times|
  {
    if |times| == 0 then (0, table)
    else
      var first := CheckRateLimit(table, identifier, times[0], maxCalls, windowMs);
      var (n, last) := RunChecks(first.table, identifier, times[1..], maxCalls, windowMs);
      ((if first.allowed then 1 else 0) + n, last)
  }

  function Min(a: int, b: int): int { if a < b then a else b }

  /** While a window is open, calls are allowed until the count reaches
      maxCalls and refused afterwards, and the window's end stays put. */
  lemma {:induction false} CallsInOpenWindow(table: Table, identifier: string, times: seq<int>,
                                            maxCalls: int, windowMs: int)
    requires identifier in table
    requires forall i :: 0 <= i < |times| ==> times[i] <= table[identifier].resetTime
    ensures var (n, last) := RunChecks(table, identifier, times, maxCalls, windowMs);
      var c := table[identifier].count;
      && n == Min(|times|, if maxCalls - c > 0 then maxCalls - c else 0)
      && identifier in last && last[identifier].resetTime == table[identifier].resetTime
    decreases |times|
  {
    if |times| > 0 {
      var first := CheckRateLimit(table, identifier, times[0], maxCalls, windowMs);
      assert first.table[identifier].resetTime == table[identifier].resetTime;
      CallsInOpenWindow(first.table, identifier, times[1..], maxCalls, windowMs);
    }
  }

  /** At most maxCalls calls per identifier are allowed in one window: a
      run that starts a fresh window at t0 and stays within t0 + windowMs
      gets exactly min(calls, maxCalls) calls through. */
  lemma AtMostMaxCallsPerWindow(table: Table, identifier: string, t0: int, later: seq<int>,
                                maxCalls: int, windowMs: int)
    requires maxCalls >= 1
    requires !InWindow(table, identifier, t0)
    requires forall i :: 0 <= i < |later| ==> later[i] <= t0 + windowMs
    ensures RunChecks(table, identifier, [t0] + later, maxCalls, windowMs).0 == Min(1 + |later|, maxCalls)
    ensures RunChecks(table, identifier, [t0] + later, maxCalls, windowMs).0 <= maxCalls
  {
    var first := CheckRateLimit(table, identifier, t0, maxCalls, windowMs);
    assert ([t0] + later)[1..] == later;
    CallsInOpenWindow(first.table, identifier, later, maxCalls, windowMs);
  }

  /** A run of calls for one identifier leaves every other identifier's
      record as it was. */
  lemma {:induction false} RunLeavesOthers(table: Table, identifier: string, times: seq<int>,
                                          maxCalls: int, windowMs: int, other: string)
    requires other != identifier
    ensures var last := RunChecks(table, identifier, times, maxCalls, windowMs).1;
      (other in last <==> other in table) && (other in table ==> last[other] == table[other])
    decreases |times|
  {
    if |times| > 0 {
      var first := CheckRateLimit(table, identifier, times[0], maxCalls, windowMs);
      RunLeavesOthers(first.table, identifier, times[1..], maxCalls, windowMs, other);
    }
  }

  /** `cleanupRateLimits()` at clock `now`: drops the records whose window
      has closed. */
  function CleanupRateLimits(table: Table, now: int): (r: Table)
    ensures forall k :: k in r <==> k in table && now <= table[k].resetTime
    ensures forall k :: k in r ==> r[k] == table[k]
  {
    map k | k in table && !(now > table[k].resetTime) :: table[k]
  }

  /** Cleaning up never changes a later decision: a dropped record would
      have been replaced by a fresh window anyway. */
  lemma CleanupKeepsDecisions(table: Table, cleanedAt: int, identifier: string, now: int,
                              maxCalls: int, windowMs: int)
    requires cleanedAt <= now
    ensures var before := CheckRateLimit(table, identifier, now, maxCalls, windowMs);
      var after := CheckRateLimit(CleanupRateLimits(table, cleanedAt), identifier, now, maxCalls, windowMs);
      && after.allowed == before.allowed
      && after.table[identifier] == before.table[identifier]
  {
  }
}
