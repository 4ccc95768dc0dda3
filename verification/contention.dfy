/**
  Several lock handles contending for one key of one shared store, each run by
  its own client. A run is any sequence of steps by any clients, interleaved
  with the passage of time; a blocking acquire spans many steps (its start, then
  one step per loop iteration), so other clients may act between its attempts.
  Tokens come from a supply that never repeats: a step that would take a token
  already handed out is not a step of the system and changes nothing.
 */
module Contention {
  import opened Options
  import opened JavaLong
  import opened LeaseStore
  import opened RedisLock

  /** Where a client is in the handle's code: between calls, or inside one of the two retry loops. */
  datatype Mode = Idle | Blocking | Trying(start: int)

  datatype Client = Client(handle: Handle, mode: Mode)

  datatype System = System(
    key: Key,
    store: Store,
    now: int,
    clients: seq<Client>,
    used: set<Value>)

  datatype Action =
    | Spawn(expireTime: Seconds, timeout: Long)  // a new handle on the key
    | CallLock(i: nat, tok: Value)               // lock()
    | CallLockBlock(i: nat, tok: Value)          // lockBlock(), up to its loop
    | CallTryBlock(i: nat, tok: Value)           // tryBlock(), up to its loop
    | Iterate(i: nat)                            // one iteration of the loop client i is in
    | CallUnlock(i: nat)                         // unlock()
    | Renew(i: nat)                              // one renewal tick of client i's scheduler
    | Elapse(d: nat)                             // d nanoseconds pass

  /** Client i exists, is between calls, and `tok` was never handed out. */
  predicate CanCall(sys: System, i: nat, tok: Value) {
    i < |sys.clients| && sys.clients[i].mode.Idle? && tok !in sys.used
  }

  function Step(sys: System, a: Action): System {
    match a
    case Spawn(e, t) =>
      sys.(clients := sys.clients + [Client(NewHandle(sys.key, e, t), Idle)])
    case CallLock(i, tok) =>
      if CanCall(sys, i, tok) then
        var r := Lock(sys.clients[i].handle, sys.store, tok, sys.now);
        sys.(store := r.store, clients := sys.clients[i := Client(r.handle, Idle)], used := sys.used + {tok})
      else sys
    case CallLockBlock(i, tok) =>
      if CanCall(sys, i, tok) then
        var h := Begin(sys.clients[i].handle, tok);
        sys.(clients := sys.clients[i := Client(h, Blocking)], used := sys.used + {tok})
      else sys
    case CallTryBlock(i, tok) =>
      if CanCall(sys, i, tok) then
        var h := Begin(sys.clients[i].handle, tok);
        sys.(clients := sys.clients[i := Client(h, Trying(sys.now))], used := sys.used + {tok})
      else sys
    case Iterate(i) =>
      if i < |sys.clients| && !sys.clients[i].mode.Idle? && sys.clients[i].handle.lockValue.Some? then
        var c := sys.clients[i];
        if c.mode.Trying? && !InBudget(c.handle, c.mode.start, View(sys.store, sys.now)) then
          sys.(clients := sys.clients[i := Client(c.handle, Idle)])
        else
          var r := Attempt(c.handle, sys.store, sys.now);
          if r.result then sys.(store := r.store, clients := sys.clients[i := Client(r.handle, Idle)])
          else sys
      else sys
    case CallUnlock(i) =>
      if i < |sys.clients| && sys.clients[i].mode.Idle? && sys.clients[i].handle.Valid() then
        var r := Unlock(sys.clients[i].handle, sys.store, sys.now);
        sys.(store := r.store, clients := sys.clients[i := Client(r.handle, Idle)])
      else sys
    case Renew(i) =>
      if i < |sys.clients| then
        var h := sys.clients[i].handle;
        sys.(store := Expire(sys.store, h.lockKey, h.expireTime, sys.now).store)
      else sys
    case Elapse(d) =>
      sys.(now := sys.now + d)
  }

  function Run(sys: System, actions: seq<Action>): System
    decreases |actions|
  {
    if |actions| == 0 then sys else Run(Step(sys, actions[0]), actions[1..])
  }

  /** The token of client i, if it has taken one. */
  function TokenOf(sys: System, i: nat): Option<Value>
    requires i < |sys.clients|
  {
    sys.clients[i].handle.lockValue
  }

  /** Client i's current token is the live value under the key. */
  predicate Owner(sys: System, i: nat)
    requires i < |sys.clients|
  {
    Get(sys.store, sys.key, sys.now).Some? && TokenOf(sys, i) == Get(sys.store, sys.key, sys.now)
  }

  /** The facts every reachable state keeps. */
  predicate Inv(sys: System) {
    && (forall i :: 0 <= i < |sys.clients| ==> sys.clients[i].handle.lockKey == sys.key)
    && (forall i :: 0 <= i < |sys.clients| ==> sys.clients[i].handle.Valid())
    && (forall i :: 0 <= i < |sys.clients| && !sys.clients[i].mode.Idle? ==> TokenOf(sys, i).Some?)
    && (forall i :: 0 <= i < |sys.clients| && TokenOf(sys, i).Some? ==> TokenOf(sys, i).value in sys.used)
    && (forall i, j :: 0 <= i < j < |sys.clients| && TokenOf(sys, i).Some? ==> TokenOf(sys, i) != TokenOf(sys, j))
    && (sys.key in sys.store ==> sys.store[sys.key].value in sys.used)
    && (forall i :: 0 <= i < |sys.clients| && Owner(sys, i) ==> sys.clients[i].handle.locked)
  }

  /** A system before any client exists; a value already under the key counts as handed out. */
  function Init(key: Key, store: Store, now: int): (sys: System)
    ensures Inv(sys)
    ensures sys.clients == []
  {
    System(key, store, now, [], if key in store then {store[key].value} else {})
  }

  lemma StepKeepsInv(sys: System, a: Action)
    requires Inv(sys)
    ensures Inv(Step(sys, a))
  {
    match a
    case Spawn(e, t) =>
      var sys' := Step(sys, a);
      assert forall j :: 0 <= j < |sys.clients| ==> TokenOf(sys', j) == TokenOf(sys, j);
      assert TokenOf(sys', |sys.clients|) == None;
    case CallLock(i, tok) =>
      if CanCall(sys, i, tok) {
        var r := Lock(sys.clients[i].handle, sys.store, tok, sys.now);
        ReplaceKeepsInv(sys, i, Client(r.handle, Idle), r.store, sys.used + {tok});
      }
    case CallLockBlock(i, tok) =>
      if CanCall(sys, i, tok) {
        ReplaceKeepsInv(sys, i, Client(Begin(sys.clients[i].handle, tok), Blocking), sys.store, sys.used + {tok});
      }
    case CallTryBlock(i, tok) =>
      if CanCall(sys, i, tok) {
        ReplaceKeepsInv(sys, i, Client(Begin(sys.clients[i].handle, tok), Trying(sys.now)), sys.store, sys.used + {tok});
      }
    case Iterate(i) =>
      if i < |sys.clients| && !sys.clients[i].mode.Idle? && sys.clients[i].handle.lockValue.Some? {
        var c := sys.clients[i];
        if c.mode.Trying? && !InBudget(c.handle, c.mode.start, View(sys.store, sys.now)) {
          ReplaceKeepsInv(sys, i, Client(c.handle, Idle), sys.store, sys.used);
        } else {
          var r := Attempt(c.handle, sys.store, sys.now);
          if r.result {
            ReplaceKeepsInv(sys, i, Client(r.handle, Idle), r.store, sys.used);
          }
        }
      }
    case CallUnlock(i) =>
      if i < |sys.clients| && sys.clients[i].mode.Idle? && sys.clients[i].handle.Valid() {
        var r := Unlock(sys.clients[i].handle, sys.store, sys.now);
        assert r.handle.lockValue == TokenOf(sys, i);
        ReplaceKeepsInv(sys, i, Client(r.handle, Idle), r.store, sys.used);
      }
    case Renew(i) =>
      var sys' := Step(sys, a);
      assert forall j :: 0 <= j < |sys.clients| ==> TokenOf(sys', j) == TokenOf(sys, j);
    case Elapse(d) =>
      var sys' := Step(sys, a);
      assert forall j :: 0 <= j < |sys.clients| ==> TokenOf(sys', j) == TokenOf(sys, j);
  }

  /**
    Replacing client i (and the store and the used tokens) keeps the invariant
    when the new client and store satisfy it locally.
   */
  lemma ReplaceKeepsInv(sys: System, i: nat, c: Client, store: Store, used: set<Value>)
    requires Inv(sys)
    requires i < |sys.clients|
    requires sys.used <= used
    requires c.handle.lockKey == sys.key && c.handle.Valid()
    requires !c.mode.Idle? ==> c.handle.lockValue.Some?
    requires c.handle.lockValue.Some? ==> c.handle.lockValue.value in used
    requires c.handle.lockValue.Some? ==>
               c.handle.lockValue == TokenOf(sys, i) || c.handle.lockValue.value !in sys.used
    requires sys.key in store ==> store[sys.key].value in used
    requires Get(store, sys.key, sys.now).Some? ==>
               Get(store, sys.key, sys.now) == Get(sys.store, sys.key, sys.now) ||
               (c.handle.lockValue == Get(store, sys.key, sys.now) && c.handle.locked)
    requires Get(store, sys.key, sys.now) == c.handle.lockValue && c.handle.lockValue.Some? ==> c.handle.locked
    ensures Inv(sys.(store := store, clients := sys.clients[i := c], used := used))
  {
    var sys' := sys.(store := store, clients := sys.clients[i := c], used := used);
    forall j | 0 <= j < |sys.clients| && j != i
      ensures TokenOf(sys', j) == TokenOf(sys, j)
      ensures TokenOf(sys, j).Some? ==> TokenOf(sys, j) != c.handle.lockValue
    {
    }
    forall j | 0 <= j < |sys.clients| && Owner(sys', j)
      ensures sys'.clients[j].handle.locked
    {
      if j != i {
        assert Owner(sys, j);
      }
    }
  }

  /** Every state reachable from an invariant state keeps the invariant. */
  lemma {:induction false} RunKeepsInv(sys: System, actions: seq<Action>)
    requires Inv(sys)
    ensures Inv(Run(sys, actions))
    decreases |actions|
  {
    if |actions| > 0 {
      StepKeepsInv(sys, actions[0]);
      RunKeepsInv(Step(sys, actions[0]), actions[1..]);
    }
  }

  /**
    Mutual exclusion on the store: after any interleaving, at most one client's
    token is live under the key, and that client believes it holds the lock.
   */
  lemma MutualExclusion(key: Key, store: Store, now: int, actions: seq<Action>)
    ensures var sys := Run(Init(key, store, now), actions);
            forall i, j :: 0 <= i < |sys.clients| && 0 <= j < |sys.clients| && Owner(sys, i) && Owner(sys, j) ==>
              i == j && sys.clients[i].handle.locked
  {
    RunKeepsInv(Init(key, store, now), actions);
  }

  /** At most one client believes it holds the lock, and a client that does finds the key alive. */
  predicate Exclusive(sys: System) {
    && (forall i, j ::
          0 <= i < |sys.clients| && 0 <= j < |sys.clients| &&
          sys.clients[i].handle.locked && sys.clients[j].handle.locked
          ==> i == j)
    && (forall i :: 0 <= i < |sys.clients| && sys.clients[i].handle.locked ==> Live(sys.store, sys.key, sys.now))
  }

  /** The step does not let a live lease on the key run out. */
  predicate NoLapse(sys: System, a: Action) {
    a.Elapse? ==> (Live(sys.store, sys.key, sys.now) ==> Live(sys.store, sys.key, sys.now + a.d))
  }

  predicate NoLapseRun(sys: System, actions: seq<Action>)
    decreases |actions|
  {
    |actions| == 0 || (NoLapse(sys, actions[0]) && NoLapseRun(Step(sys, actions[0]), actions[1..]))
  }

  /** Replacing client i keeps exclusion when the new client and store respect it locally. */
  lemma ReplaceKeepsExclusive(sys: System, i: nat, c: Client, store: Store)
    requires Exclusive(sys)
    requires i < |sys.clients|
    requires c.handle.locked ==> Live(store, sys.key, sys.now)
    requires c.handle.locked && !sys.clients[i].handle.locked ==> !Live(sys.store, sys.key, sys.now)
    requires !Live(store, sys.key, sys.now) ==> !Live(sys.store, sys.key, sys.now) || !c.handle.locked
    requires !Live(store, sys.key, sys.now) && Live(sys.store, sys.key, sys.now) ==> sys.clients[i].handle.locked
    ensures Exclusive(sys.(store := store, clients := sys.clients[i := c]))
  {
    // Every client other than i is unchanged, so the requires cover every pair.
  }

  lemma StepKeepsExclusive(sys: System, a: Action)
    requires Inv(sys) && Exclusive(sys)
    requires NoLapse(sys, a)
    ensures Exclusive(Step(sys, a))
  {
    // Only the stepping client and the store change. A successful SET NX needs the
    // key free, and under no lapse a free key means no client is `locked`; an
    // unlock, a renewal or a failed attempt never makes a new client `locked`.
  }

  /**
    While no lease runs out, the lock is exclusive in the stronger sense: at most
    one client's `locked` is true, whatever the interleaving.
   */
  lemma {:induction false} ExclusiveWithoutLapse(sys: System, actions: seq<Action>)
    requires Inv(sys) && Exclusive(sys)
    requires NoLapseRun(sys, actions)
    ensures Exclusive(Run(sys, actions))
    decreases |actions|
  {
    if |actions| > 0 {
      StepKeepsInv(sys, actions[0]);
      StepKeepsExclusive(sys, actions[0]);
      ExclusiveWithoutLapse(Step(sys, actions[0]), actions[1..]);
    }
  }

  /** The client whose step `a` is, if any. */
  function Actor(a: Action): Option<nat> {
    match a
    case CallLock(i, _) => Some(i)
    case CallLockBlock(i, _) => Some(i)
    case CallTryBlock(i, _) => Some(i)
    case Iterate(i) => Some(i)
    case CallUnlock(i) => Some(i)
    case Renew(i) => Some(i)
    case _ => None
  }

  /**
    No step of another client takes the lock away from its owner: the
    conditional set refuses a live key and the compare-and-delete refuses a
    foreign token. Only the passage of time can end ownership.
   */
  lemma OthersCannotEvict(sys: System, a: Action, j: nat)
    requires Inv(sys)
    requires j < |sys.clients| && Owner(sys, j)
    requires !a.Elapse? && Actor(a) != Some(j)
    ensures j < |Step(sys, a).clients| && Owner(Step(sys, a), j)
    ensures Get(Step(sys, a).store, sys.key, sys.now) == Get(sys.store, sys.key, sys.now)
  {
    var sys' := Step(sys, a);
    assert TokenOf(sys', j) == TokenOf(sys, j);
    match a
    case CallUnlock(i) =>
      if i < |sys.clients| && sys.clients[i].mode.Idle? && sys.clients[i].handle.Valid() && sys.clients[i].handle.locked {
        assert TokenOf(sys, i) != TokenOf(sys, j);
      }
    case _ =>
  }

  /**
    A renewal tick of any client restarts the lease under the key for whoever
    holds it: the token is not checked, so a client that lost the lock keeps
    extending the new owner's lease with its own lease length.
   */
  lemma RenewIgnoresToken(sys: System, i: nat, j: nat)
    requires Inv(sys)
    requires i < |sys.clients| && j < |sys.clients| && i != j && Owner(sys, j)
    ensures var sys' := Step(sys, Renew(i));
            sys'.store[sys.key] == Entry(TokenOf(sys, j).value, LeaseEnd(sys.now, sys.clients[i].handle.expireTime))
  {
  }

  /**
    When a lease runs out while its holder still works, a second client acquires
    the key and both believe they hold the lock; the first client's release then
    fails, leaves the new owner's entry in place and leaves the first client
    still `locked`.
   */
  lemma LapseBreaksExclusion()
    ensures var sys0 := Init("lock:k", map[], 0);
            var trace := [Spawn(1, 100), Spawn(1, 100), CallLock(0, "a"), Elapse(NanosPerSecond), CallLock(1, "b")];
            var sys := Run(sys0, trace);
            && |sys.clients| == 2
            && sys.clients[0].handle.locked && sys.clients[1].handle.locked
            && !Exclusive(sys)
            && !NoLapseRun(sys0, trace)
            && var after := Step(sys, CallUnlock(0));
               && after.store == sys.store
               && after.clients[0].handle.locked
               && Owner(after, 1)
  {
    var sys0 := Init("lock:k", map[], 0);
    var s1 := Step(sys0, Spawn(1, 100));
    var s2 := Step(s1, Spawn(1, 100));
    var s3 := Step(s2, CallLock(0, "a"));
    assert s3.clients[0].handle.locked;
    var s4 := Step(s3, Elapse(NanosPerSecond));
    assert !Live(s4.store, s4.key, s4.now);
    var s5 := Step(s4, CallLock(1, "b"));
    assert s5.clients[1].handle.locked && s5.clients[0].handle.locked;
    var trace := [Spawn(1, 100), Spawn(1, 100), CallLock(0, "a"), Elapse(NanosPerSecond), CallLock(1, "b")];
    RunFrom([sys0, s1, s2, s3, s4, s5], trace, 0);
    assert trace[0..] == trace;
    assert !NoLapse(s3, Elapse(NanosPerSecond));
    assert !NoLapseRun(s3, trace[3..]) by { assert trace[3..][0] == Elapse(NanosPerSecond); }
    assert !NoLapseRun(s2, trace[2..]) by { assert trace[2..][1..] == trace[3..]; }
    assert !NoLapseRun(s1, trace[1..]) by { assert trace[1..][1..] == trace[2..]; }
  }

  // ---- Three callers on key "lock:User:update:1", with the states between the phases ----

  const ScenarioKey: Key := "lock:User:update:1"
  const Lease: int := 100 * NanosPerSecond
  const Budget: int := 50 * NanosPerMilli

  /** A holds the lock; B and C wait idle. */
  function AHolds(): System {
    System(ScenarioKey, map[ScenarioKey := Entry("a", Lease)], 0,
           [Client(Handle(ScenarioKey, Some("a"), 100, 100, true), Idle),
            Client(NewHandle(ScenarioKey, 100, 50), Idle),
            Client(NewHandle(ScenarioKey, 100, 100), Idle)],
           {"a"})
  }

  /** 50 ms later: B's `tryBlock()` has returned without the lock. */
  function BGaveUp(): System {
    System(ScenarioKey, map[ScenarioKey := Entry("a", Lease)], Budget,
           [Client(Handle(ScenarioKey, Some("a"), 100, 100, true), Idle),
            Client(Handle(ScenarioKey, Some("b"), 100, 50, false), Idle),
            Client(NewHandle(ScenarioKey, 100, 100), Idle)],
           {"a", "b"})
  }

  /** A released; C holds the lock. */
  function CHolds(): System {
    System(ScenarioKey, map[ScenarioKey := Entry("c", Budget + Lease)], Budget,
           [Client(Handle(ScenarioKey, Some("a"), 100, 100, false), Idle),
            Client(Handle(ScenarioKey, Some("b"), 100, 50, false), Idle),
            Client(Handle(ScenarioKey, Some("c"), 100, 100, true), Idle)],
           {"a", "b", "c"})
  }

  lemma ScenarioAcquire()
    ensures Run(Init(ScenarioKey, map[], 0), [Spawn(100, 100), Spawn(100, 50), Spawn(100, 100), CallLock(0, "a")]) == AHolds()
  {
    var t := [Spawn(100, 100), Spawn(100, 50), Spawn(100, 100), CallLock(0, "a")];
    var s0 := Init(ScenarioKey, map[], 0);
    var s1 := Step(s0, t[0]);
    var s2 := Step(s1, t[1]);
    var s3 := Step(s2, t[2]);
    var s4 := Step(s3, t[3]);
    assert s4 == AHolds();
    RunFrom([s0, s1, s2, s3, s4], t, 0);
    assert t[0..] == t;
  }

  lemma ScenarioTimeout()
    ensures Run(AHolds(), [CallTryBlock(1, "b"), Iterate(1), Elapse(Budget), Iterate(1)]) == BGaveUp()
  {
    var t := [CallTryBlock(1, "b"), Iterate(1), Elapse(Budget), Iterate(1)];
    var s0 := AHolds();
    var s1 := Step(s0, t[0]);
    var s2 := Step(s1, t[1]);
    assert s2 == s1;
    var s3 := Step(s2, t[2]);
    var s4 := Step(s3, t[3]);
    assert s4 == BGaveUp();
    RunFrom([s0, s1, s2, s3, s4], t, 0);
    assert t[0..] == t;
  }

  lemma ScenarioHandOver()
    ensures Run(BGaveUp(), [CallUnlock(0), CallLock(2, "c")]) == CHolds()
  {
    var t := [CallUnlock(0), CallLock(2, "c")];
    var s0 := BGaveUp();
    var s1 := Step(s0, t[0]);
    var s2 := Step(s1, t[1]);
    assert s2 == CHolds();
    RunFrom([s0, s1, s2], t, 0);
    assert t[0..] == t;
  }

  lemma {:induction false} RunAppend(sys: System, t1: seq<Action>, t2: seq<Action>)
    ensures Run(sys, t1 + t2) == Run(Run(sys, t1), t2)
    decreases |t1|
  {
    if |t1| > 0 {
      assert (t1 + t2)[0] == t1[0];
      assert (t1 + t2)[1..] == t1[1..] + t2;
      RunAppend(Step(sys, t1[0]), t1[1..], t2);
    } else {
      assert t1 + t2 == t2;
    }
  }

  /**
    Three callers on one key: A takes the lock; B's `tryBlock()` with a 50 ms
    budget fails its attempt, finds the budget spent 50 ms later and returns
    without the lock; A releases; C's single `lock()` then succeeds.
   */
  lemma ThreeCallerScenario()
    ensures var sys := Run(Init(ScenarioKey, map[], 0),
                           [Spawn(100, 100), Spawn(100, 50), Spawn(100, 100), CallLock(0, "a")] +
                           [CallTryBlock(1, "b"), Iterate(1), Elapse(Budget), Iterate(1)] +
                           [CallUnlock(0), CallLock(2, "c")]);
            && |sys.clients| == 3
            && !sys.clients[0].handle.locked
            && sys.clients[1].mode.Idle? && !sys.clients[1].handle.locked
            && sys.clients[2].handle.locked && Owner(sys, 2)
  {
    var t1 := [Spawn(100, 100), Spawn(100, 50), Spawn(100, 100), CallLock(0, "a")];
    var t2 := [CallTryBlock(1, "b"), Iterate(1), Elapse(Budget), Iterate(1)];
    var t3 := [CallUnlock(0), CallLock(2, "c")];
    var s0 := Init(ScenarioKey, map[], 0);
    ScenarioAcquire();
    ScenarioTimeout();
    ScenarioHandOver();
    RunAppend(s0, t1 + t2, t3);
    RunAppend(s0, t1, t2);
    assert Owner(CHolds(), 2);
  }

  /** Running the rest of a trace from a recorded state reaches the recorded final state. */
  lemma {:induction false} RunFrom(states: seq<System>, trace: seq<Action>, m: nat)
    requires |states| == |trace| + 1 && m <= |trace|
    requires forall n :: 0 <= n < |trace| ==> states[n + 1] == Step(states[n], trace[n])
    ensures Run(states[m], trace[m..]) == states[|trace|]
    decreases |trace| - m
  {
    if m < |trace| {
      assert trace[m..][1..] == trace[m + 1..];
      RunFrom(states, trace, m + 1);
    }
  }
}
