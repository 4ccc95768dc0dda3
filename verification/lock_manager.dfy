/**
  `LockManager.around`: build the key, take the lock with one non-blocking
  attempt, schedule the renewal task, run the protected method, and in a
  `finally` block release the lock and shut the scheduler down.

  The protected method is reduced to how it ends; while it runs, renewals,
  other clients and the passage of time act on the store, so the store and the
  clock the `finally` block sees are given as part of that description.
 */
module LockManager {
  import opened Options
  import opened JavaLong
  import opened LeaseStore
  import opened RedisLock
  import opened KeyAssembly

  /** How many milliseconds each renewal runs ahead of the lease. */
  const PostponeTime: int := 5

  /** The `@Lock` attributes: lease length (documented as ms, sent as seconds), key prefix, budget (ms). */
  datatype LockConfig = LockConfig(lockTime: Seconds, keyPrefix: string, timeOut: Long)

  /** `@Lock` with every attribute left at its default. */
  const DefaultConfig: LockConfig := LockConfig(100, "", 100)

  /** Both the initial delay and the period, in milliseconds, of the renewal task. */
  function RenewalPeriod(lockTime: int): int {
    lockTime - PostponeTime
  }

  /** How the protected method ended: a value (possibly `null`), an `Exception`, or another `Throwable`. */
  datatype WorkOutcome =
    | Returns(value: Option<string>)
    | RaisesException(exception: string)
    | RaisesError(error: string)

  /** The protected method's ending, and the store and clock its `finally` block sees. */
  datatype Work = Work(outcome: WorkOutcome, release: View)

  /** What `around` does to the scheduler, the lock and the protected method, in order. */
  datatype Event =
    | CreateScheduler
    | Acquire(acquired: bool)
    | ScheduleRenewal(delay: int, period: int)
    | Proceed
    | Release(released: bool)
    | Shutdown

  datatype Failure =
    | NullArgument                 // getModelKey on a null argument
    | LockFailed(key: Key)         // "failed to obtain the distributed lock, key=…"
    | RenewalRejected              // scheduleAtFixedRate refuses a period that is not positive
    | WorkFailed(exception: string)

  datatype Outcome = Returned(value: Option<string>) | Thrown(failure: Failure)

  datatype Invocation = Invocation(events: seq<Event>, outcome: Outcome, store: Store)

  /** The result of `around` once the protected method ran and its lock was released. */
  function Result(w: WorkOutcome): Outcome {
    match w
    case Returns(v) => Returned(v)
    case RaisesException(e) => Thrown(WorkFailed(e))
    case RaisesError(_) => Returned(None)
  }

  /** `around` for one intercepted call, taking `tok` as the fresh token of its `lock()`. */
  function Around(cfg: LockConfig, site: CallSite, s: Store, now: int, tok: Value, work: Work): (r: Invocation)
    ensures AssembleKey(cfg.keyPrefix, site).None? ==> r == Invocation([], Thrown(NullArgument), s)
    ensures AssembleKey(cfg.keyPrefix, site).Some? ==>
              var key := AssembleKey(cfg.keyPrefix, site).value;
              && (Proceed in r.events <==> Get(s, key, now) == None && RenewalPeriod(cfg.lockTime) > 0)
              && (Get(s, key, now).Some? ==>
                    r.outcome == Thrown(LockFailed(key)) && r.store == s && Shutdown !in r.events)
              && (Get(s, key, now) == None && RenewalPeriod(cfg.lockTime) <= 0 ==>
                    && r.outcome == Thrown(RenewalRejected)
                    && Get(r.store, key, now) == Some(tok)
                    && Shutdown !in r.events)
              && (Proceed in r.events ==>
                    && r.events == [CreateScheduler, Acquire(true),
                                    ScheduleRenewal(RenewalPeriod(cfg.lockTime), RenewalPeriod(cfg.lockTime)),
                                    Proceed, Release(Get(work.release.store, key, work.release.now) == Some(tok)),
                                    Shutdown]
                    && Get(r.store, key, work.release.now) != Some(tok)
                    && r.store - {key} == work.release.store - {key})
    ensures Proceed in r.events ==>
              && (work.outcome.Returns? ==> r.outcome == Returned(work.outcome.value))
              && (work.outcome.RaisesException? ==> r.outcome == Thrown(WorkFailed(work.outcome.exception)))
              && (work.outcome.RaisesError? ==> r.outcome == Returned(None))
    ensures Proceed !in r.events ==> r.outcome.Thrown? && !r.outcome.failure.WorkFailed?
  {
    match AssembleKey(cfg.keyPrefix, site)
    case None => Invocation([], Thrown(NullArgument), s)
    case Some(key) =>
      var acq := Lock(NewHandle(key, cfg.lockTime, cfg.timeOut), s, tok, now);
      if !acq.result then
        Invocation([CreateScheduler, Acquire(false)], Thrown(LockFailed(key)), acq.store)
      else
        var period := RenewalPeriod(cfg.lockTime);
        if period <= 0 then
          Invocation([CreateScheduler, Acquire(true)], Thrown(RenewalRejected), acq.store)
        else
          var rel := Unlock(acq.handle, work.release.store, work.release.now);
          Invocation([CreateScheduler, Acquire(true), ScheduleRenewal(period, period), Proceed, Release(rel.result), Shutdown],
                     Result(work.outcome), rel.store)
  }

  /**
    Whether the release in the `finally` block succeeds does not change what
    `around` returns or throws: only how the protected method ended does.
   */
  lemma OutcomeIgnoresRelease(cfg: LockConfig, site: CallSite, s: Store, now: int, tok: Value,
                              w: WorkOutcome, v1: View, v2: View)
    ensures Around(cfg, site, s, now, tok, Work(w, v1)).outcome == Around(cfg, site, s, now, tok, Work(w, v2)).outcome
  {
  }

  /** For a lock time above the margin, the renewal period is positive and shorter than the lock time. */
  lemma RenewalAheadOfLease(lockTime: Seconds)
    requires lockTime > PostponeTime
    ensures 0 < RenewalPeriod(lockTime) < lockTime
    ensures RenewalPeriod(lockTime) * NanosPerMilli < lockTime * NanosPerSecond
  {
  }

  /** Renewal ticks no further apart than the renewal period. */
  predicate TicksWithinPeriod(ticks: seq<int>, lockTime: Seconds) {
    forall j :: 0 < j < |ticks| ==> 0 <= ticks[j] - ticks[j - 1] <= RenewalPeriod(lockTime) * NanosPerMilli
  }

  /**
    The renewal task keeps the lease alive: ticks at most one period apart,
    the first while the key is still alive, leave the key holding the same
    value with a lease of `lockTime` seconds from the last tick.
   */
  lemma RenewalKeepsLeaseAlive(lockTime: Seconds, s: Store, key: Key, ticks: seq<int>)
    requires lockTime > PostponeTime
    requires |ticks| > 0 && Live(s, key, ticks[0])
    requires TicksWithinPeriod(ticks, lockTime)
    ensures var r := Renewals(s, key, lockTime, ticks);
            key in r && r[key] == Entry(s[key].value, LeaseEnd(ticks[|ticks| - 1], lockTime))
  {
    RenewalAheadOfLease(lockTime);
    assert TicksWithinLease(ticks, lockTime) by {
      forall j | 0 < j < |ticks|
        ensures ticks[j - 1] <= ticks[j] < LeaseEnd(ticks[j - 1], lockTime)
      {
      }
    }
    RenewalsKeepAlive(s, key, lockTime, ticks);
  }
}
