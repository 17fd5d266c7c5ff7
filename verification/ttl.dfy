/**
 A TTL cache: a map from string keys to items, each of which remembers the
 instant it was (re)started, the duration captured when it was created, and
 its value. The wall clock is an explicit `now` argument, and the removal
 performed by an item's timer goroutine is the explicit transition `Expire`.
 */
module TtlCache {
  import opened Wrappers

  /** Bounds of Go's `time.Duration`, an int64 count of nanoseconds. */
  const MinDuration: int := -0x8000_0000_0000_0000
  const MaxDuration: int := 0x7FFF_FFFF_FFFF_FFFF

  type Duration = d: int | MinDuration <= d <= MaxDuration

  /** A clock reading in nanoseconds. Go's `time.Time` spans a far wider
      range than a `Duration`, so instants are unbounded here. */
  type Instant = int

  datatype Item<V> = Item(start: Instant, duration: Duration, value: V) {
    /** The instant at which the item's timer fires. */
    function Deadline(): Instant {
      start + duration
    }
  }

  datatype Cache<V> = Cache(duration: Duration, resetOnAdd: bool, items: map<string, Item<V>>)

  /** The cache holds nothing; `duration` and `resetOnAdd` are left as given. */
  function New<V>(duration: Duration): (c: Cache<V>)
    ensures Len(c) == 0
    ensures c.duration == duration && !c.resetOnAdd
  {
    Cache(duration, false, map[])
  }

  function Len<V>(c: Cache<V>): nat {
    |c.items|
  }

  /**
   Stores `value` under `key` at instant `now`. A fresh key gets a new item
   stamped `now` with the cache's current duration. A present key only has
   its value replaced, unless `resetOnAdd` is set, in which case its start
   moves to `now` while its captured duration is kept.
   */
  function Add<V>(c: Cache<V>, key: string, value: V, now: Instant): (r: Cache<V>)
    ensures r.duration == c.duration && r.resetOnAdd == c.resetOnAdd
    ensures key in r.items && r.items[key].value == value
    ensures r.items - {key} == c.items - {key}
    ensures key !in c.items ==>
              && r.items[key].start == now
              && r.items[key].duration == c.duration
              && Len(r) == Len(c) + 1
    ensures key in c.items ==>
              && r.items[key].duration == c.items[key].duration
              && Len(r) == Len(c)
    ensures key in c.items && !c.resetOnAdd ==> r.items[key].start == c.items[key].start
    ensures key in c.items && c.resetOnAdd ==> r.items[key].start == now
  {
    if key !in c.items then
      c.(items := c.items[key := Item(now, c.duration, value)])
    else
      var updated := c.items[key].(value := value);
      var i := if c.resetOnAdd then updated.(start := now) else updated;
      c.(items := c.items[key := i])
  }

  /** The value stored under `key`, if any. */
  function Get<V>(c: Cache<V>, key: string): (r: Option<V>)
    ensures r.Some? <==> key in c.items
    ensures r.Some? ==> r.value == c.items[key].value
  {
    if key in c.items then Some(c.items[key].value) else None
  }

  /** Go's `Time.Sub`: an exact difference, saturated to the `Duration` range. */
  function Saturate(x: int): (d: Duration)
    ensures MinDuration <= x <= MaxDuration ==> d == x
    ensures x < MinDuration ==> d == MinDuration
    ensures x > MaxDuration ==> d == MaxDuration
    ensures d > 0 <==> x > 0
    ensures d < 0 <==> x < 0
  {
    if x < MinDuration then MinDuration
    else if x > MaxDuration then MaxDuration
    else x
  }

  /**
   The time left until `key`'s deadline, seen at `now`, and whether the key
   is present. The remainder may be zero or negative when the deadline has
   passed but the timer's removal has not happened yet.
   */
  function TTL<V>(c: Cache<V>, key: string, now: Instant): (r: (Duration, bool))
    ensures r.1 <==> key in c.items
    ensures !r.1 ==> r.0 == 0
    ensures r.1 ==> (r.0 <= 0 <==> now >= c.items[key].Deadline())
    ensures r.1 && MinDuration <= c.items[key].Deadline() - now <= MaxDuration ==>
              r.0 == c.items[key].Deadline() - now
  {
    if key !in c.items then (0, false)
    else (Saturate(c.items[key].Deadline() - now), true)
  }

  /**
   The deletion performed by an item's timer goroutine. It removes whatever
   is stored under `key`, without checking that it is the item the timer was
   started for.
   */
  function Expire<V>(c: Cache<V>, key: string): (r: Cache<V>)
    ensures r.duration == c.duration && r.resetOnAdd == c.resetOnAdd
    ensures key !in r.items
    ensures forall k :: k != key ==> Get(r, k) == Get(c, k)
    ensures forall k :: k in r.items ==> k in c.items && r.items[k] == c.items[k]
    ensures key in c.items ==> Len(r) == Len(c) - 1
    ensures key !in c.items ==> r == c
  {
    c.(items := c.items - {key})
  }

  /** Right after `Add(key, value)`, `Get(key)` returns `value`, and every
      other key reads as before. */
  lemma GetAfterAdd<V>(c: Cache<V>, key: string, value: V, now: Instant, other: string)
    ensures Get(Add(c, key, value, now), key) == Some(value)
    ensures other != key ==> Get(Add(c, key, value, now), other) == Get(c, other)
  {
  }

  /** `TTL` right after `Add`, at the same instant: a fresh key reports the
      cache's duration, a reset key its own captured duration, and without a
      reset the remainder is the one reported before the `Add`. */
  lemma TtlAfterAdd<V>(c: Cache<V>, key: string, value: V, now: Instant)
    ensures key !in c.items ==> TTL(Add(c, key, value, now), key, now) == (c.duration, true)
    ensures key in c.items && c.resetOnAdd ==>
              TTL(Add(c, key, value, now), key, now) == (c.items[key].duration, true)
    ensures key in c.items && !c.resetOnAdd ==>
              TTL(Add(c, key, value, now), key, now) == TTL(c, key, now)
  {
  }

  /** A removed key is gone for `Get` and `TTL`; nothing else changes. */
  lemma LookupsAfterExpire<V>(c: Cache<V>, key: string, now: Instant)
    ensures Get(Expire(c, key), key) == None
    ensures TTL(Expire(c, key), key, now) == (0, false)
    ensures forall k :: k != key ==> TTL(Expire(c, key), k, now) == TTL(c, k, now)
  {
  }
}
