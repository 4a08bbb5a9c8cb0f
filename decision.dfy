/**
 The admission decision of the fixed-window rate limiter with a punitive
 lockout, stated on values. One key's record is a `Record`; one call of
 `processRequest` on it is `Process`; a run of calls for the same key is
 `Replay`. Times and durations are integers (nanoseconds); the caller
 supplies the current time `now` explicitly.
 */
module Decision {

  /** The fields of one key's rate-limit record. `lastAllowedTime` is the start
      of the current counting window; `blockedUntil` is only meaningful while
      `blocked` holds. */
  datatype Record = Record(
    ip: string,
    lastAllowedTime: int,
    requestCount: int,
    blocked: bool,
    blockedUntil: int)

  /** The record after one call, and the verdict of that call. */
  datatype Outcome = Outcome(rec: Record, allowed: bool)

  /** The record after a run of calls, and the verdict of each call in order. */
  datatype Trace = Trace(last: Record, verdicts: seq<bool>)

  /** The record created the first time a key is seen. The block expiry 0
      stands for Go's zero time value: the decision reads it only while the
      key is blocked, and statistics report it as 0. */
  function NewRecord(ip: string, now: int): Record {
    Record(ip, now, 0, false, 0)
  }

  /** The record a lookup of `key` yields: the stored one, or a fresh one. */
  function Lookup(entries: map<string, Record>, key: string, now: int): Record {
    if key in entries then entries[key] else NewRecord(key, now)
  }

  /** The invariant every stored record keeps: the count is never negative,
      and a blocked key has exceeded its quota. */
  predicate Consistent(r: Record, maxCount: int) {
    r.requestCount >= 0 && (r.blocked ==> r.requestCount > maxCount)
  }

  /** A lockout that has not yet expired at time `now` (strictly before). */
  predicate ActivelyBlocked(r: Record, now: int) {
    r.blocked && now < r.blockedUntil
  }

  /** One decision, in the fixed order: block check, window reset, count. */
  function Process(r: Record, now: int, maxCount: int, interval: int): Outcome {
    if ActivelyBlocked(r, now) then
      Outcome(r, false)
    else
      var unblocked := r.(blocked := false);
      var windowed :=
        if now - unblocked.lastAllowedTime > interval
        then unblocked.(requestCount := 0, lastAllowedTime := now)
        else unblocked;
      var counted := windowed.(requestCount := windowed.requestCount + 1);
      if counted.requestCount > maxCount then
        Outcome(counted.(blocked := true, blockedUntil := now + interval), false)
      else
        Outcome(counted, true)
  }

  /** A run of calls for one key at the given times, in order. */
  function Replay(r: Record, times: seq<int>, maxCount: int, interval: int): (t: Trace)
    ensures |t.verdicts| == |times|
    decreases |times|
  {
    if times == [] then
      Trace(r, [])
    else
      var o := Process(r, times[0], maxCount, interval);
      var rest := Replay(o.rec, times[1..], maxCount, interval);
      Trace(rest.last, [o.allowed] + rest.verdicts)
  }

  // ---------------------------------------------------------------------
  // One call
  // ---------------------------------------------------------------------

  /** A call during an active lockout is rejected and changes nothing. */
  lemma RejectWhileBlocked(r: Record, now: int, maxCount: int, interval: int)
    requires r.blocked && now < r.blockedUntil
    ensures Process(r, now, maxCount, interval) == Outcome(r, false)
  {
  }

  /** From the expiry instant on, the block is cleared and the same call goes
      on to the window and count steps as if the key had never been blocked. */
  lemma ExpiredBlockIsCleared(r: Record, now: int, maxCount: int, interval: int)
    requires r.blocked && r.blockedUntil <= now
    ensures Process(r, now, maxCount, interval)
         == Process(r.(blocked := false), now, maxCount, interval)
  {
  }

  /** The window resets exactly when strictly more than `interval` has passed
      since its start; every call past the block check counts once more than
      the count after that reset. */
  lemma WindowResetRule(r: Record, now: int, maxCount: int, interval: int)
    requires !ActivelyBlocked(r, now)
    ensures var o := Process(r, now, maxCount, interval);
      if now - r.lastAllowedTime > interval
      then o.rec.lastAllowedTime == now && o.rec.requestCount == 1
      else o.rec.lastAllowedTime == r.lastAllowedTime && o.rec.requestCount == r.requestCount + 1
  {
  }

  /** Past the block check, the call is admitted iff its new count is within
      `maxCount`; a rejection blocks the key for one interval from now and
      keeps the increment; an admission leaves the key unblocked. */
  lemma ThresholdRule(r: Record, now: int, maxCount: int, interval: int)
    requires !ActivelyBlocked(r, now)
    ensures var o := Process(r, now, maxCount, interval);
      && (o.allowed <==> o.rec.requestCount <= maxCount)
      && (o.allowed ==> !o.rec.blocked && o.rec.blockedUntil == r.blockedUntil)
      && (!o.allowed ==> o.rec.blocked && o.rec.blockedUntil == now + interval)
      && o.rec.ip == r.ip
  {
  }

  /** Every call preserves the record invariant. */
  lemma ProcessKeepsConsistent(r: Record, now: int, maxCount: int, interval: int)
    requires Consistent(r, maxCount)
    ensures Consistent(Process(r, now, maxCount, interval).rec, maxCount)
  {
  }

  /** When the lockout has expired and a full window has passed since the
      window began, the next call both clears the block and resets the window,
      and is admitted whenever the quota is at least one. */
  lemma ExpiryAfterFullWindow(r: Record, now: int, maxCount: int, interval: int)
    requires r.blocked && r.blockedUntil <= now
    requires now - r.lastAllowedTime > interval
    requires maxCount >= 1
    ensures Process(r, now, maxCount, interval)
         == Outcome(r.(blocked := false, requestCount := 1, lastAllowedTime := now), true)
  {
  }

  /** The boundary where the lockout expires at the very instant the window
      reaches `interval` (the block was triggered when the window began): the
      block is cleared but the window does not reset, so the call is rejected
      and the key is blocked for another interval. */
  lemma ExactExpiryRejectsAgain(r: Record, now: int, maxCount: int, interval: int)
    requires Consistent(r, maxCount) && r.blocked
    requires now == r.blockedUntil && now - r.lastAllowedTime == interval
    ensures var o := Process(r, now, maxCount, interval);
      && !o.allowed
      && o.rec == r.(requestCount := r.requestCount + 1, blockedUntil := now + interval)
  {
  }

  // ---------------------------------------------------------------------
  // The lockout outlasts the window
  // ---------------------------------------------------------------------

  /** A blocked record's window ends no later than its lockout. A block is
      set one interval after a call that falls inside the current window. */
  predicate WindowBeforeBlock(r: Record, interval: int) {
    r.blocked ==> r.lastAllowedTime + interval <= r.blockedUntil
  }

  /** The clock never goes backwards. */
  predicate NonDecreasing(times: seq<int>) {
    forall i, j | 0 <= i <= j < |times| :: times[i] <= times[j]
  }

  /** With a clock that has not gone back past the window start, a call keeps
      the lockout at or after the window's end, and the window start it leaves
      is not later than the call. */
  lemma ProcessKeepsWindowBeforeBlock(r: Record, now: int, maxCount: int, interval: int)
    requires WindowBeforeBlock(r, interval) && r.lastAllowedTime <= now
    ensures var o := Process(r, now, maxCount, interval);
      WindowBeforeBlock(o.rec, interval) && o.rec.lastAllowedTime <= now
  {
  }

  /** A call strictly after the lockout's expiry, on a record whose window
      ends no later than its lockout, both clears the block and resets the
      window. It is admitted iff the quota is at least one; otherwise it
      blocks again for one interval. */
  lemma ExpiryClearsAndResets(r: Record, now: int, maxCount: int, interval: int)
    requires r.blocked && WindowBeforeBlock(r, interval) && r.blockedUntil < now
    ensures Process(r, now, maxCount, interval)
         == if maxCount >= 1
            then Outcome(r.(blocked := false, requestCount := 1, lastAllowedTime := now), true)
            else Outcome(r.(requestCount := 1, lastAllowedTime := now, blockedUntil := now + interval), false)
  {
  }

  /** Over calls whose times never go backwards and never precede the window
      start, every record keeps its lockout at or after its window's end. */
  lemma {:induction false} ReplayKeepsWindowBeforeBlock(r: Record, times: seq<int>, maxCount: int, interval: int)
    requires WindowBeforeBlock(r, interval) && NonDecreasing(times)
    requires forall i | 0 <= i < |times| :: r.lastAllowedTime <= times[i]
    ensures WindowBeforeBlock(Replay(r, times, maxCount, interval).last, interval)
    decreases |times|
  {
    if times != [] {
      var o := Process(r, times[0], maxCount, interval);
      ProcessKeepsWindowBeforeBlock(r, times[0], maxCount, interval);
      forall i | 0 <= i < |times[1..]|
        ensures o.rec.lastAllowedTime <= times[1..][i]
      {
        assert times[0] <= times[i + 1];
      }
      ReplayKeepsWindowBeforeBlock(o.rec, times[1..], maxCount, interval);
    }
  }

  /** For a key first seen at `t0` and called at non-decreasing times, the
      first call strictly after a lockout expires both clears the block and
      resets the window, and is admitted whenever the quota is at least one. */
  lemma ExpiryAfterRun(ip: string, t0: int, times: seq<int>, now: int, maxCount: int, interval: int)
    requires NonDecreasing(times)
    requires forall i | 0 <= i < |times| :: t0 <= times[i]
    ensures var last := Replay(NewRecord(ip, t0), times, maxCount, interval).last;
      last.blocked && last.blockedUntil < now && maxCount >= 1 ==>
        Process(last, now, maxCount, interval)
          == Outcome(last.(blocked := false, requestCount := 1, lastAllowedTime := now), true)
  {
    var last := Replay(NewRecord(ip, t0), times, maxCount, interval).last;
    ReplayKeepsWindowBeforeBlock(NewRecord(ip, t0), times, maxCount, interval);
    if last.blocked && last.blockedUntil < now {
      ExpiryClearsAndResets(last, now, maxCount, interval);
    }
  }

  // ---------------------------------------------------------------------
  // Runs of calls for one key
  // ---------------------------------------------------------------------

  /** A run splits at any point into two consecutive runs. */
  lemma {:induction false} ReplayAppend(r: Record, a: seq<int>, b: seq<int>, maxCount: int, interval: int)
    ensures var ta := Replay(r, a, maxCount, interval);
      var tb := Replay(ta.last, b, maxCount, interval);
      Replay(r, a + b, maxCount, interval) == Trace(tb.last, ta.verdicts + tb.verdicts)
    decreases |a|
  {
    if a != [] {
      var o := Process(r, a[0], maxCount, interval);
      assert (a + b)[0] == a[0];
      assert (a + b)[1..] == a[1..] + b;
      ReplayAppend(o.rec, a[1..], b, maxCount, interval);
    } else {
      assert a + b == b;
    }
  }

  /** The record invariant holds after any run of calls. */
  lemma {:induction false} ReplayKeepsConsistent(r: Record, times: seq<int>, maxCount: int, interval: int)
    requires Consistent(r, maxCount)
    ensures Consistent(Replay(r, times, maxCount, interval).last, maxCount)
    decreases |times|
  {
    if times != [] {
      ProcessKeepsConsistent(r, times[0], maxCount, interval);
      ReplayKeepsConsistent(Process(r, times[0], maxCount, interval).rec, times[1..], maxCount, interval);
    }
  }

  /** A blocked key rejects every call made before its expiry, however many
      windows elapse meanwhile, and its record stays exactly as it was. */
  lemma {:induction false} StaysBlocked(r: Record, times: seq<int>, maxCount: int, interval: int)
    requires r.blocked
    requires forall i | 0 <= i < |times| :: times[i] < r.blockedUntil
    ensures var t := Replay(r, times, maxCount, interval);
      t.last == r && forall i | 0 <= i < |times| :: !t.verdicts[i]
    decreases |times|
  {
    if times != [] {
      RejectWhileBlocked(r, times[0], maxCount, interval);
      StaysBlocked(r, times[1..], maxCount, interval);
    }
  }

  /** An unblocked key admits calls within its window while the quota lasts,
      counting each one and leaving the window start alone. */
  lemma {:induction false} AdmitsWithinQuota(r: Record, times: seq<int>, maxCount: int, interval: int)
    requires !r.blocked
    requires r.requestCount + |times| <= maxCount
    requires forall i | 0 <= i < |times| :: times[i] - r.lastAllowedTime <= interval
    ensures var t := Replay(r, times, maxCount, interval);
      && t.last == r.(requestCount := r.requestCount + |times|)
      && forall i | 0 <= i < |times| :: t.verdicts[i]
    decreases |times|
  {
    if times != [] {
      var o := Process(r, times[0], maxCount, interval);
      assert o == Outcome(r.(requestCount := r.requestCount + 1), true);
      AdmitsWithinQuota(o.rec, times[1..], maxCount, interval);
    }
  }

  /** Within one window, an unblocked key with `k` calls left in its quota
      admits `k` calls and rejects the next one, which blocks the key for one
      interval from that call and keeps its increment. */
  lemma {:induction false} FillsThenBlocks(r: Record, times: seq<int>, maxCount: int, interval: int)
    requires !r.blocked && |times| >= 1
    requires r.requestCount + |times| == maxCount + 1
    requires forall i | 0 <= i < |times| :: times[i] - r.lastAllowedTime <= interval
    ensures var t := Replay(r, times, maxCount, interval);
      && (forall i | 0 <= i < |times| - 1 :: t.verdicts[i])
      && !t.verdicts[|times| - 1]
      && t.last == r.(requestCount := maxCount + 1, blocked := true,
                      blockedUntil := times[|times| - 1] + interval)
  {
    var n := |times| - 1;
    var front, back := times[..n], [times[n]];
    assert times == front + back;
    ReplayAppend(r, front, back, maxCount, interval);
    AdmitsWithinQuota(r, front, maxCount, interval);
  }

  /** A key seen for the first time admits `maxCount` calls in its first
      window and rejects the next, blocking until one interval after it. */
  lemma FreshKeyQuota(ip: string, t0: int, times: seq<int>, maxCount: int, interval: int)
    requires maxCount >= 0 && |times| == maxCount + 1
    requires forall i | 0 <= i < |times| :: times[i] - t0 <= interval
    ensures var t := Replay(NewRecord(ip, t0), times, maxCount, interval);
      && (forall i | 0 <= i < maxCount :: t.verdicts[i])
      && !t.verdicts[maxCount]
      && t.last == Record(ip, t0, maxCount + 1, true, times[maxCount] + interval)
  {
    FillsThenBlocks(NewRecord(ip, t0), times, maxCount, interval);
  }

  /** Once the lockout has expired and a full window has passed, the same
      pattern repeats: `maxCount` admissions in a window that starts at the
      first call, then a rejection that blocks again. The final record again
      meets this lemma's own preconditions for later calls. */
  lemma RoundAfterExpiry(r: Record, times: seq<int>, maxCount: int, interval: int)
    requires r.blocked && maxCount >= 0 && |times| == maxCount + 1
    requires r.blockedUntil <= times[0] && times[0] - r.lastAllowedTime > interval
    requires forall i | 0 <= i < |times| :: times[i] - times[0] <= interval
    ensures var t := Replay(r, times, maxCount, interval);
      && (forall i | 0 <= i < maxCount :: t.verdicts[i])
      && !t.verdicts[maxCount]
      && t.last == Record(r.ip, times[0], maxCount + 1, true, times[maxCount] + interval)
  {
    var o := Process(r, times[0], maxCount, interval);
    if maxCount == 0 {
      assert times[1..] == [];
    } else {
      assert o == Outcome(r.(blocked := false, requestCount := 1, lastAllowedTime := times[0]), true);
      FillsThenBlocks(o.rec, times[1..], maxCount, interval);
    }
  }
}
