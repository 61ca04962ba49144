/** The invalidation scheduler: at most one pending expiry timer per
    (pubkey, category). A timer is represented by the time it fires at; the
    clock itself is not modelled. */
module Scheduler {
  import opened Models

  datatype TimerKey = TimerKey(pubkey: string, category: Category)

  /** The registry `#invalidations`: key to fire time. */
  type Timers = map<TimerKey, int>

  /** `#invalidationKey`: the string the source uses for a key. */
  function InvalidationKey(k: TimerKey): string {
    k.pubkey + ":" + CategoryName(k.category)
  }

  /** The string keys never collide: distinct (pubkey, category) pairs get
      distinct strings, so keying the registry by the pair loses nothing. */
  lemma InvalidationKeyInjective(a: TimerKey, b: TimerKey)
    requires InvalidationKey(a) == InvalidationKey(b)
    ensures a == b
  {
    var s := InvalidationKey(a);
    // the last character names the category: 'l' for "general", 'c' for "music"
    assert s[|s| - 1] == (if a.category == General then 'l' else 'c');
    assert s[|s| - 1] == (if b.category == General then 'l' else 'c');
    var n := |CategoryName(a.category)| + 1;
    assert a.pubkey == s[..|s| - n];
    assert b.pubkey == s[..|s| - n];
  }

  /** `schedule(pubkey, category, ttl)` called at `now`: the previous timer of
      the key is dropped and one firing at `now + ttl` replaces it; every
      other key keeps its timer. */
  function Schedule(timers: Timers, key: TimerKey, now: int, ttl: int): (r: Timers)
    ensures r.Keys == timers.Keys + {key}
    ensures r[key] == now + ttl
    ensures forall k :: k in timers && k != key ==> r[k] == timers[k]
  {
    timers[key := now + ttl]
  }

  /** `cancel`: the key's timer, if any, is dropped; nothing else changes. */
  function Cancel(timers: Timers, key: TimerKey): (r: Timers)
    ensures r.Keys == timers.Keys - {key}
    ensures forall k :: k in r ==> r[k] == timers[k]
    ensures key !in timers ==> r == timers
  {
    timers - {key}
  }

  /** `cancelAll`. */
  function CancelAll(timers: Timers): (r: Timers)
    ensures forall k :: k !in r
  {
    map[]
  }

  /** Scheduling twice: only the last call's timer remains. */
  lemma ScheduleLastWins(timers: Timers, key: TimerKey, now1: int, ttl1: int, now2: int, ttl2: int)
    ensures Schedule(Schedule(timers, key, now1, ttl1), key, now2, ttl2) == Schedule(timers, key, now2, ttl2)
  {
  }

  /** Cancelling is idempotent, and cancels whatever was scheduled before. */
  lemma CancelIdempotent(timers: Timers, key: TimerKey, now: int, ttl: int)
    ensures Cancel(Cancel(timers, key), key) == Cancel(timers, key)
    ensures Cancel(Schedule(timers, key, now, ttl), key) == Cancel(timers, key)
  {
  }
}
