# RedisLock in Dafny

A model of the distributed lock of `git.soulbgm.lock`: the `RedisLock` handle
(one token, one key, a lease and an acquisition budget, acquired with
`SET key token NX EX seconds` and released with a compare-and-delete script run
atomically by the store) and the pure parts of `LockManager.around` (key
assembly from the intercepted call, the acquire → schedule renewal → run →
release → shut down order, and what the call returns or throws).

The store is an immutable map from key to (value, deadline). The clock is an
explicit `now` in nanoseconds, the unit of `System.nanoTime`, and a lease
counts as gone once `now` reaches its deadline. Handles and clients are records.
Every operation is a pure step from (handle, store, clock) to a new handle, a
new store and the Java return value.

Files, one module each:

- `options.dfy`: `Option`, standing for Java `null`.
- `java_long.dfy`: `long` and its wrap-around.
- `lease_store.dfy`: the three store commands.
  - `SET NX EX`.
  - The compare-and-delete script.
  - `EXPIRE`.
  - Repeated renewal.
- `redis_lock.dfy`: the handle.
  - `lock()`, `unlock()`, and one retry iteration.
  - `lockBlock()` and `tryBlock()` as loops. Iteration *k* of a loop sees `views[k]`, the store and clock as other clients and time left them.
- `contention.dfy`: any number of handles on one key under arbitrary interleavings.
  - A blocking acquire is a start step followed by one step per loop iteration.
  - Renewal ticks and the passage of time are steps of their own.
  - Tokens come from a supply that never repeats.
  - The invariants and mutual exclusion are proved over all runs.
- `key_assembly.dfy`: key assembly, `getModelKey` and `buildGetMethod`.
- `lock_manager.dfy`: `around`.

Behaviour kept as the code has it, including where it departs from what a caller might expect:

- `unlock()` sets `locked = (reply == 0)`. A failed release therefore leaves the handle `locked`.
- `tryBlock()` returns the handle's earlier `locked` value when the budget runs out, not `false`. The budget `timeout * 1000000` is computed in `long` and wraps for budgets outside ±9 223 372 036 854 ms. A timeout below −9 223 372 036 854 ms therefore becomes a positive budget, and `tryBlock()` does attempt a `SET`.
- Renewal (`EXPIRE`) never checks the token. A handle that lost its lease keeps extending the new owner's lease.
- The lease is documented in milliseconds but passed to `EX`/`EXPIRE` as seconds. The model keeps the seconds: a lease of `n` lasts `n * 10^9` ns. The renewal period `lockTime - 5` is in real milliseconds.
- `around` only ever uses the non-blocking `lock()`.
- `around` does not shut the scheduler down when acquisition fails.
- `around` releases before it shuts the scheduler down.
- With `lockTime <= 5`, `scheduleAtFixedRate` rejects the period after the lock was taken and outside the `try`. The lock is then neither released nor is the scheduler shut down.
- A `null` argument whose `@LockKey` lists fields makes `getModelKey` throw before any lock is attempted.

The annotation defaults (`lockTime` 100, `keyPrefix` "", `timeOut` 100) are
`LockManager.DefaultConfig`. The handle's defaults (lease 100, budget 100) are
`RedisLock.DefaultExpireTime` and `RedisLock.DefaultTimeout`.

## Model

| member | source | states |
|---|---|---|
| LeaseStore.SetNxEx | src/main/java/git/soulbgm/lock/RedisLock.java:237-263 | the conditional set succeeds exactly when the key is not alive; on success the token is readable for the whole lease and gone at its end; on failure the store is unchanged; no other key is touched |
| LeaseStore.CompareAndDelete | src/main/java/git/soulbgm/lock/RedisLock.java:70-81 | the script deletes the key (reply 1) exactly when its live value equals the given token, otherwise replies 0 and leaves the store as it was |
| LeaseStore.Expire | src/main/java/git/soulbgm/lock/RedisLock.java:265-289 | a live key gets a fresh lease from now with its value kept, whoever wrote it; an absent key is left absent with reply 0 |
| LeaseStore.RenewalsKeepAlive | src/main/java/git/soulbgm/lock/RedisLock.java:272-289 | renewals each issued before the previous lease ends keep the key holding its original value, with the lease ending one full lease after the last renewal |
| RedisLock.Lock | src/main/java/git/soulbgm/lock/RedisLock.java:141-146 | takes the new token, makes one conditional set, and returns true exactly when the key was free; then the store holds the token and `locked` is true; otherwise the store is unchanged and `locked` is false |
| RedisLock.Attempt | src/main/java/git/soulbgm/lock/RedisLock.java:155-161 | one retry iteration succeeds exactly when the key is free, storing the handle's existing token and setting `locked`; a failed iteration changes neither handle nor store |
| RedisLock.Unlock | src/main/java/git/soulbgm/lock/RedisLock.java:200-235 | a handle that is not locked returns true with the store untouched; a locked one deletes the key only if it still holds its token, otherwise returns false, leaves another holder's entry in place and stays locked |
| RedisLock.LockBlock | src/main/java/git/soulbgm/lock/RedisLock.java:153-165 | one token for all attempts; returns only true, at the first iteration that finds the key free; the store is then that iteration's store with the token under the key for a full lease, and nothing else changed; until then every iteration found the key held |
| RedisLock.TryBlock | src/main/java/git/soulbgm/lock/RedisLock.java:172-189 | each return either came from a successful set made within the budget, leaving that iteration's store with the token under the key for a full lease and nothing else changed, or from the first iteration past the budget after failed attempts, returning the earlier `locked`; a budget already spent means no attempt at all |
| RedisLock.TimeoutNanosExact | src/main/java/git/soulbgm/lock/RedisLock.java:174-175 | in the range where it does not wrap, the nanosecond budget is the millisecond budget times one million, and it is non-positive exactly when the timeout is |
| RedisLock.TimeoutNanosOverflow | src/main/java/git/soulbgm/lock/RedisLock.java:175 | a budget of 9 223 372 036 855 ms wraps to a negative number of nanoseconds |
| RedisLock.TimeoutNanosUnderflow | src/main/java/git/soulbgm/lock/RedisLock.java:175 | a budget of −9 223 372 036 855 ms wraps to a positive number of nanoseconds |
| RedisLock.NoAttemptWithoutBudget | src/main/java/git/soulbgm/lock/RedisLock.java:175-178 | with a timeout between −9 223 372 036 854 and 0 ms (where the conversion does not wrap), and a clock that does not run backwards, the loop guard fails at the first check, so no set is made |
| Contention.StepKeepsInv | src/main/java/git/soulbgm/lock/RedisLock.java:141-235 | every step of every client keeps these facts: tokens are distinct and handed out once, and a client whose token is live under the key is `locked` |
| Contention.RunKeepsInv | src/main/java/git/soulbgm/lock/RedisLock.java:141-235 | the invariant holds after any interleaving of steps |
| Contention.MutualExclusion | src/main/java/git/soulbgm/lock/RedisLock.java:31-35 | after any interleaving from an empty start, at most one client has its token live under the key, and that client is `locked` |
| Contention.StepKeepsExclusive | src/main/java/git/soulbgm/lock/RedisLock.java:237-258 | a step that lets no lease run out keeps at most one client `locked`, with the key alive while one is |
| Contention.ExclusiveWithoutLapse | src/main/java/git/soulbgm/lock/RedisLock.java:237-258 | over any interleaving in which no lease runs out, at most one client is `locked` at any time |
| Contention.OthersCannotEvict | src/main/java/git/soulbgm/lock/RedisLock.java:191-231 | no step by another client removes or replaces the owner's live entry; only elapsed time can end ownership |
| Contention.RenewIgnoresToken | src/main/java/git/soulbgm/lock/RedisLock.java:272-289 | a renewal tick by a client that is not the owner restarts the owner's lease with the ticking client's lease length |
| Contention.LapseBreaksExclusion | src/main/java/git/soulbgm/lock/RedisLock.java:224-230 | once a lease lapses, a second client acquires and both are `locked`; the first client's release then fails, keeps the new owner's entry and leaves the first client `locked` |
| Contention.ThreeCallerScenario | src/main/java/git/soulbgm/lock/RedisLock.java:172-189 | A holds the key; B's 50 ms `tryBlock` gives up without the lock; after A releases, C's `lock` succeeds and C owns the key |
| KeyAssembly.BuildGetMethod | src/main/java/git/soulbgm/lock/LockManager.java:149-159 | the getter name is "is" (boolean) or "get", then the first character upper-cased, then the rest; its length is the field's plus 2 or 3 |
| KeyAssembly.GetterRoundTrip | src/main/java/git/soulbgm/lock/LockManager.java:149-159 | a field name not starting with a capital letter is recovered from its getter name |
| KeyAssembly.GetterNamesDistinct | src/main/java/git/soulbgm/lock/LockManager.java:149-159 | fields of one kind, not starting with a capital, have equal getter names only when they are the same field |
| KeyAssembly.ModelKeyJoined | src/main/java/git/soulbgm/lock/LockManager.java:126-141 | `getModelKey` appends ":" and then each listed field's value, in the order the fields are listed |
| KeyAssembly.ParamsKeyJoined | src/main/java/git/soulbgm/lock/LockManager.java:70-88 | the append loop over parameters produces ":" before every piece, in order: the whole argument when `keyField` is empty, each listed field's value otherwise; a null model argument throws |
| KeyAssembly.AssembleKeyShape | src/main/java/git/soulbgm/lock/LockManager.java:59-88 | the key is "lock:", then the prefix (or "ClassName:methodName" when the prefix is empty), then the joined pieces |
| KeyAssembly.SameKeyIffSamePieces | src/main/java/git/soulbgm/lock/LockManager.java:66-88 | for one method and prefix, two calls share a key exactly when their pieces agree, provided no piece contains ':' |
| LockManager.Around | src/main/java/git/soulbgm/lock/LockManager.java:90-116 | if acquisition fails it throws naming the key and never runs the work; if it succeeds the work runs and is followed by release and shutdown, and the caller's token is never left live; the result follows the work's ending; `lockTime <= 5` throws with the lock still held |
| LockManager.OutcomeIgnoresRelease | src/main/java/git/soulbgm/lock/LockManager.java:104-110 | whether the release succeeds does not change what `around` returns or throws |
| LockManager.RenewalAheadOfLease | src/main/java/git/soulbgm/lock/LockManager.java:95-98 | for `lockTime` above the 5 ms margin, the renewal period is positive and shorter than the lease |
| LockManager.RenewalKeepsLeaseAlive | src/main/java/git/soulbgm/lock/LockManager.java:95-98 | renewal ticks at most one period apart keep the key alive with its value, its lease ending `lockTime` seconds after the last tick |

## Left out

- Jedis versus JedisCluster dispatch and `RedisTemplate` callbacks: the store is a map. In the unmodelled fallback where the connection is neither type:
  - `set` returns null, so acquisition fails.
  - `unlock` sees reply 0.
  - `expire` unboxes a null.
- Real time: `System.nanoTime` wrap-around, the 10 ms + 400 ns backoff sleep, and the `Thread.sleep(lockTime)` before the work in `around`.
  - Time is the explicit clock.
  - Each loop check and its `SET` happen at one instant.
- The scheduler thread. Renewal ticks are `Renew` steps in the interleaving model and a list of tick instants in `RenewalKeepsLeaseAlive`.
- UUID generation: tokens are parameters drawn from a supply that never repeats.
- Reflection.
  - An argument object is the fields and getter values reflection would find.
  - A failed field or getter lookup yields an empty piece.
  - Upper-casing covers ASCII letters only.
- Lease lengths of zero or less: Redis rejects `EX 0`, so leases are positive whole seconds (`Seconds`).
- The four `RedisLock` constructors: one constructor function with explicit lease and budget, plus the default constants.
- Logging, Spring/AspectJ wiring, the annotation declarations, the demo service, the `User` class and the test that needs a live Redis.
- LockManager.Around: the store and clock at release are inputs, not derived from the acquisition. Renewals, other clients and time may change the store while the work runs. Their effect is modelled in `Contention` and `RenewalKeepsLeaseAlive`.
