/**
  The shared key-value store the lock is coordinated through, reduced to the
  three atomic commands the lock issues: `SET key value NX EX seconds`, the
  compare-and-delete script, and `EXPIRE key seconds`.

  Each entry carries the absolute instant (in nanoseconds, the unit of the
  client's clock) at which it expires; an entry whose deadline has passed is
  treated as absent, which is how the store's own TTL countdown is seen by
  clients. Time is the `now` argument of every command.
 */
module LeaseStore {
  import opened Options

  type Key = string
  type Value = string

  /** A lease length in whole seconds, the unit of `EX` and `EXPIRE`. */
  type Seconds = n: int | n > 0 witness 1

  const NanosPerSecond: int := 1_000_000_000

  datatype Entry = Entry(value: Value, deadline: int)

  type Store = map<Key, Entry>

  /** The key exists and its lease has not yet run out at `now`. */
  predicate Live(s: Store, k: Key, now: int) {
    k in s && now < s[k].deadline
  }

  /** `GET key` at instant `now`. */
  function Get(s: Store, k: Key, now: int): Option<Value> {
    if Live(s, k, now) then Some(s[k].value) else None
  }

  /** The instant at which a lease of `seconds` granted at `now` runs out. */
  function LeaseEnd(now: int, seconds: Seconds): int {
    now + seconds * NanosPerSecond
  }

  /** The reply of `SET … NX`: the status string "OK", or nil when nothing was set. */
  datatype SetReply = Ok | Nil

  datatype SetResult = SetResult(store: Store, reply: SetReply)

  /** `SET k v NX EX seconds`: store `v` only if `k` does not exist. */
  function SetNxEx(s: Store, k: Key, v: Value, seconds: Seconds, now: int): (r: SetResult)
    ensures r.reply == Ok <==> Get(s, k, now) == None
    ensures r.reply == Ok ==>
              forall t :: now <= t < LeaseEnd(now, seconds) ==> Get(r.store, k, t) == Some(v)
    ensures r.reply == Ok ==> !Live(r.store, k, LeaseEnd(now, seconds))
    ensures r.reply == Ok ==> r.store == s[k := Entry(v, LeaseEnd(now, seconds))]
    ensures r.reply == Nil ==> r.store == s
    ensures r.store - {k} == s - {k}
  {
    if Live(s, k, now) then SetResult(s, Nil)
    else SetResult(s[k := Entry(v, LeaseEnd(now, seconds))], Ok)
  }

  datatype IntResult = IntResult(store: Store, reply: int)

  /**
    The compare-and-delete script, run atomically by the store:
    if GET k equals v then DEL k (reply 1) else reply 0.
   */
  function CompareAndDelete(s: Store, k: Key, v: Value, now: int): (r: IntResult)
    ensures r.reply == 0 || r.reply == 1
    ensures r.reply == 1 <==> Get(s, k, now) == Some(v)
    ensures r.reply == 1 ==> k !in r.store && r.store == s - {k}
    ensures r.reply == 0 ==> r.store == s
  {
    if Get(s, k, now) == Some(v) then IntResult(s - {k}, 1) else IntResult(s, 0)
  }

  /** `EXPIRE k seconds`: restart the lease of an existing key, whoever holds it. */
  function Expire(s: Store, k: Key, seconds: Seconds, now: int): (r: IntResult)
    ensures r.reply == 0 || r.reply == 1
    ensures r.reply == 1 <==> Live(s, k, now)
    ensures r.reply == 1 ==> k in r.store && r.store[k] == Entry(s[k].value, LeaseEnd(now, seconds))
    ensures r.reply == 0 ==> r.store == s
    ensures r.store - {k} == s - {k}
  {
    if Live(s, k, now) then IntResult(s[k := Entry(s[k].value, LeaseEnd(now, seconds))], 1)
    else IntResult(s, 0)
  }

  /** The store after `EXPIRE k seconds` has been issued at each instant of `ticks`, in order. */
  function Renewals(s: Store, k: Key, seconds: Seconds, ticks: seq<int>): Store
    decreases |ticks|
  {
    if |ticks| == 0 then s
    else Renewals(Expire(s, k, seconds, ticks[0]).store, k, seconds, ticks[1..])
  }

  /** Consecutive renewal instants each fall inside the lease the previous one granted. */
  predicate TicksWithinLease(ticks: seq<int>, seconds: Seconds) {
    forall j :: 0 < j < |ticks| ==> ticks[j - 1] <= ticks[j] < LeaseEnd(ticks[j - 1], seconds)
  }

  /**
    Renewals issued before each lease runs out keep the key alive: the value is
    whatever it was (the token is never consulted) and the lease now ends one
    full lease after the last renewal.
   */
  lemma {:induction false} RenewalsKeepAlive(s: Store, k: Key, seconds: Seconds, ticks: seq<int>)
    requires |ticks| > 0
    requires Live(s, k, ticks[0])
    requires TicksWithinLease(ticks, seconds)
    ensures var r := Renewals(s, k, seconds, ticks);
            k in r && r[k] == Entry(s[k].value, LeaseEnd(ticks[|ticks| - 1], seconds))
    decreases |ticks|
  {
    var s1 := Expire(s, k, seconds, ticks[0]).store;
    if |ticks| == 1 {
      assert Renewals(s1, k, seconds, ticks[1..]) == s1;
    } else {
      var rest := ticks[1..];
      assert Live(s1, k, rest[0]);
      assert TicksWithinLease(rest, seconds) by {
        forall j | 0 < j < |rest|
          ensures rest[j - 1] <= rest[j] < LeaseEnd(rest[j - 1], seconds)
        {
          assert rest[j - 1] == ticks[j] && rest[j] == ticks[j + 1];
        }
      }
      RenewalsKeepAlive(s1, k, seconds, rest);
    }
  }
}
