/**
  One lock handle (`RedisLock`): its key, current token, lease length, acquisition
  budget and `locked` flag, and the operations that act on the shared store.

  Every operation is a step from (handle, store, clock) to a new handle, a new
  store and the boolean the Java method returns. The blocking acquire modes are
  loops whose k-th iteration sees `views[k]`: the store and the clock as they are
  when that iteration runs, after whatever other clients and the passage of time
  did in between.
 */
module RedisLock {
  import opened Options
  import opened JavaLong
  import opened LeaseStore

  /** Lease length used when the constructor is not given one (documented as ms, sent as seconds). */
  const DefaultExpireTime: Seconds := 100

  /** Acquisition budget in milliseconds used when the constructor is not given one. */
  const DefaultTimeout: Long := 100

  const NanosPerMilli: int := 1_000_000

  datatype Handle = Handle(
    lockKey: Key,
    lockValue: Option<Value>,
    expireTime: Seconds,
    timeout: Long,
    locked: bool)
  {
    /** A handle believes it holds the lock only with a token in hand. */
    predicate Valid() {
      locked ==> lockValue.Some?
    }
  }

  /** A freshly constructed handle: no token yet, not locked. */
  function NewHandle(key: Key, expireTime: Seconds, timeout: Long): Handle {
    Handle(key, None, expireTime, timeout, false)
  }

  /** The new handle, the new store and the boolean the operation returns. */
  datatype Reply = Reply(handle: Handle, store: Store, result: bool)

  /** The store and the clock as one loop iteration finds them. */
  datatype View = View(store: Store, now: int)

  /** How a blocking acquire returned, and after how many `SET` commands. */
  datatype Return = Return(handle: Handle, store: Store, result: bool, attempts: nat)

  predicate Held(v: View, k: Key) {
    Get(v.store, k, v.now).Some?
  }

  /** Taking a fresh token, as the three acquire modes do first. */
  function Begin(h: Handle, tok: Value): Handle {
    h.(lockValue := Some(tok))
  }

  /**
    `lock()`: a fresh token and exactly one `SET NX EX`; `locked` becomes the
    outcome, so a failed attempt also clears an earlier `locked`.
   */
  function Lock(h: Handle, s: Store, tok: Value, now: int): (r: Reply)
    ensures r.handle == h.(lockValue := Some(tok), locked := r.result)
    ensures r.result <==> Get(s, h.lockKey, now) == None
    ensures r.result ==> Get(r.store, h.lockKey, now) == Some(tok)
    ensures r.result ==> r.store == s[h.lockKey := Entry(tok, LeaseEnd(now, h.expireTime))]
    ensures !r.result ==> r.store == s
    ensures r.store - {h.lockKey} == s - {h.lockKey}
  {
    var sr := SetNxEx(s, h.lockKey, tok, h.expireTime, now);
    var ok := sr.reply == Ok;
    Reply(Begin(h, tok).(locked := ok), sr.store, ok)
  }

  /**
    One iteration of the retry loop of `lockBlock()` / `tryBlock()`: a `SET NX EX`
    with the token already chosen; only success touches `locked`.
   */
  function Attempt(h: Handle, s: Store, now: int): (r: Reply)
    requires h.lockValue.Some?
    ensures r.result <==> Get(s, h.lockKey, now) == None
    ensures r.result ==> r.handle == h.(locked := true) && Get(r.store, h.lockKey, now) == h.lockValue
    ensures r.result ==> r.store == s[h.lockKey := Entry(h.lockValue.value, LeaseEnd(now, h.expireTime))]
    ensures !r.result ==> r.handle == h && r.store == s
    ensures r.store - {h.lockKey} == s - {h.lockKey}
  {
    var sr := SetNxEx(s, h.lockKey, h.lockValue.value, h.expireTime, now);
    if sr.reply == Ok then Reply(h.(locked := true), sr.store, true)
    else Reply(h, s, false)
  }

  /**
    `unlock()`: nothing to do unless `locked`; otherwise the compare-and-delete
    script with the handle's token. `locked` becomes `reply == 0`, so a failed
    release leaves the handle still believing it holds the lock.
   */
  function Unlock(h: Handle, s: Store, now: int): (r: Reply)
    requires h.Valid()
    ensures !h.locked ==> r == Reply(h, s, true)
    ensures h.locked ==> (r.result <==> Get(s, h.lockKey, now) == h.lockValue)
    ensures h.locked && r.result ==>
              r.store == s - {h.lockKey} && r.handle == h.(locked := false)
    ensures h.locked && !r.result ==> r.store == s && r.handle == h
    ensures r.handle.Valid()
  {
    if !h.locked then Reply(h, s, true)
    else
      var cad := CompareAndDelete(s, h.lockKey, h.lockValue.value, now);
      Reply(h.(locked := cad.reply == 0), cad.store, cad.reply == 1)
  }

  /** `timeout * 1000000` as computed in Java `long` arithmetic. */
  function TimeoutNanos(timeout: Long): Long {
    Wrap(timeout * NanosPerMilli)
  }

  /** Budgets between zero and the largest that fits in nanoseconds convert without wrapping. */
  lemma TimeoutNanosExact(timeout: Long)
    requires -9_223_372_036_854 <= timeout <= 9_223_372_036_854
    ensures TimeoutNanos(timeout) == timeout * NanosPerMilli
    ensures TimeoutNanos(timeout) <= 0 <==> timeout <= 0
  {
  }

  /** A budget just past that range wraps to a negative number of nanoseconds. */
  lemma TimeoutNanosOverflow()
    ensures TimeoutNanos(9_223_372_036_855) < 0
  {
  }

  /** Just below that range the budget wraps the other way, to a positive number of nanoseconds. */
  lemma TimeoutNanosUnderflow()
    ensures TimeoutNanos(-9_223_372_036_855) > 0
  {
  }

  /**
    `lockBlock()`: one token chosen before the loop, then `SET NX EX` with that
    token until it succeeds. The loop never gives up; `None` means it has not
    returned within the iterations `views` describes.
   */
  method LockBlock(h: Handle, tok: Value, views: seq<View>) returns (r: Option<Return>)
    ensures r.Some? ==>
              && 1 <= r.value.attempts <= |views|
              && !Held(views[r.value.attempts - 1], h.lockKey)
              && (forall j :: 0 <= j < r.value.attempts - 1 ==> Held(views[j], h.lockKey))
    ensures r.Some? ==>
              && r.value.result
              && r.value.handle == h.(lockValue := Some(tok), locked := true)
              && Get(r.value.store, h.lockKey, views[r.value.attempts - 1].now) == Some(tok)
              && r.value.store == views[r.value.attempts - 1].store[h.lockKey :=
                                    Entry(tok, LeaseEnd(views[r.value.attempts - 1].now, h.expireTime))]
    ensures r.None? ==> forall j :: 0 <= j < |views| ==> Held(views[j], h.lockKey)
  {
    var hb := Begin(h, tok);
    var i := 0;
    while i < |views|
      invariant 0 <= i <= |views|
      invariant forall j :: 0 <= j < i ==> Held(views[j], h.lockKey)
    {
      var a := Attempt(hb, views[i].store, views[i].now);
      if a.result {
        return Some(Return(a.handle, a.store, true, i + 1));
      }
      i := i + 1;
    }
    return None;
  }

  /** The loop guard of `tryBlock()`: elapsed nanoseconds below the budget. */
  predicate InBudget(h: Handle, start: int, v: View) {
    v.now - start < TimeoutNanos(h.timeout)
  }

  /** `tryBlock()` returned `true` from its `attempts`-th iteration, whose `SET` succeeded. */
  predicate TryAcquired(h: Handle, tok: Value, start: int, views: seq<View>, ret: Return) {
    && 1 <= ret.attempts <= |views|
    && (forall j :: 0 <= j < ret.attempts ==> InBudget(h, start, views[j]))
    && (forall j :: 0 <= j < ret.attempts - 1 ==> Held(views[j], h.lockKey))
    && !Held(views[ret.attempts - 1], h.lockKey)
    && ret.result
    && ret.handle == h.(lockValue := Some(tok), locked := true)
    && Get(ret.store, h.lockKey, views[ret.attempts - 1].now) == Some(tok)
    && ret.store == views[ret.attempts - 1].store[h.lockKey :=
                      Entry(tok, LeaseEnd(views[ret.attempts - 1].now, h.expireTime))]
  }

  /** `tryBlock()` found its budget spent at iteration `attempts` after as many failed `SET`s. */
  predicate TryTimedOut(h: Handle, tok: Value, start: int, views: seq<View>, ret: Return) {
    && ret.attempts < |views|
    && (forall j :: 0 <= j < ret.attempts ==> InBudget(h, start, views[j]) && Held(views[j], h.lockKey))
    && !InBudget(h, start, views[ret.attempts])
    && ret.result == h.locked
    && ret.handle == h.(lockValue := Some(tok))
    && ret.store == views[ret.attempts].store
  }

  /**
    `tryBlock()`: like `lockBlock()`, but each iteration first compares the time
    elapsed since `start` with the budget. When the budget is spent it returns
    the `locked` value the handle had before the call, not `false`.
    `None` means it has not returned within the iterations `views` describes.
   */
  method TryBlock(h: Handle, tok: Value, start: int, views: seq<View>) returns (r: Option<Return>)
    ensures r.Some? ==>
              TryAcquired(h, tok, start, views, r.value) != TryTimedOut(h, tok, start, views, r.value)
    ensures 0 < |views| && !InBudget(h, start, views[0]) ==>
              r == Some(Return(h.(lockValue := Some(tok)), views[0].store, h.locked, 0))
    ensures r.None? ==>
              forall j :: 0 <= j < |views| ==> InBudget(h, start, views[j]) && Held(views[j], h.lockKey)
  {
    var hb := Begin(h, tok);
    var i := 0;
    while i < |views|
      invariant 0 <= i <= |views|
      invariant forall j :: 0 <= j < i ==> InBudget(h, start, views[j]) && Held(views[j], h.lockKey)
    {
      if !InBudget(h, start, views[i]) {
        return Some(Return(hb, views[i].store, h.locked, i));
      }
      var a := Attempt(hb, views[i].store, views[i].now);
      if a.result {
        return Some(Return(a.handle, a.store, true, i + 1));
      }
      i := i + 1;
    }
    return None;
  }

  /**
    With a budget that is not positive (and no overflow), `tryBlock()` never
    issues a `SET`: its first check already fails, whatever the clock reads.
   */
  lemma NoAttemptWithoutBudget(h: Handle, start: int, v: View)
    requires -9_223_372_036_854 <= h.timeout <= 0
    requires start <= v.now
    ensures !InBudget(h, start, v)
  {
    TimeoutNanosExact(h.timeout);
  }
}
