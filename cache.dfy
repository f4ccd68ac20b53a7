/**
 * The keyed cache behind `Cache::remember`: each key holds a value and the
 * moment it expires. Time is an explicit integer count of seconds.
 */
module ResultCache {

  /** Both uses in the component pass `now()->addSeconds(4)`. */
  const TTL_SECONDS: int := 4

  datatype Entry<T> = Entry(value: T, expiresAt: int)

  type Store<T> = map<string, Entry<T>>

  /** A stored entry is visible to readers strictly before its expiry moment. */
  predicate Live<T>(store: Store<T>, key: string, now: int) {
    key in store && now < store[key].expiresAt
  }

  /** The value handed back by one `remember` call, the cache after it, and whether the callback ran. */
  datatype Remembered<T> = Remembered(value: T, store: Store<T>, computed: bool)

  /**
   * `Cache::remember(key, now + 4s, compute)`: a live entry is returned as it is
   * and the callback is not run; otherwise the callback's value is stored with a
   * fresh four-second expiry and returned.
   */
  function Remember<T>(store: Store<T>, key: string, now: int, compute: () -> T): (r: Remembered<T>)
    ensures r.store.Keys == store.Keys + {key}
    ensures r.computed <==> !Live(store, key, now)
    ensures !r.computed ==> r.value == store[key].value && r.store == store
    ensures r.computed ==> r.value == compute() && r.store[key] == Entry(r.value, now + TTL_SECONDS)
    ensures Live(r.store, key, now) && r.store[key].value == r.value
    ensures forall k :: k in store && k != key ==> r.store[k] == store[k]
  {
    if Live(store, key, now) then Remembered(store[key].value, store, false)
    else
      var v := compute();
      Remembered(v, store[key := Entry(v, now + TTL_SECONDS)], true)
  }

  /**
   * Two calls for the same key within four seconds run the callback at most once,
   * and, when the first call computed, the second returns its value.
   */
  lemma ComputedAtMostOncePerWindow<T>(store: Store<T>, key: string, t1: int, t2: int, f: () -> T, g: () -> T)
    requires t1 <= t2 < t1 + TTL_SECONDS
    ensures var r1 := Remember(store, key, t1, f);
            var r2 := Remember(r1.store, key, t2, g);
            !(r1.computed && r2.computed) && (r1.computed ==> r2.value == r1.value)
  {
  }

  /** Once an entry has expired, the next call runs the callback again and returns its value. */
  lemma RecomputedAfterExpiry<T>(store: Store<T>, key: string, now: int, compute: () -> T)
    requires key in store && store[key].expiresAt <= now
    ensures var r := Remember(store, key, now, compute);
            r.computed && r.value == compute()
  {
  }
}
