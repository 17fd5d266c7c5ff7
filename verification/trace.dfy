/**
 The cache as a sequential state machine. Every externally visible step
 is an `Event`: a caller's `Add`, a timer firing, or a write to one of the
 two public configuration fields. `Run` applies a trace of events in order.
 A trace is `Valid` when its timestamps never go backwards and every timer
 fires no earlier than the deadline of the item it removes.
 */
module CacheTrace {
  import opened Wrappers
  import opened TtlCache

  datatype Event<V> =
    | Added(key: string, value: V, at: Instant)
    | TimerFired(key: string, at: Instant)
    | DurationSet(d: Duration)
    | ResetOnAddSet(b: bool)
  {
    predicate Timed() {
      Added? || TimerFired?
    }
  }

  function Apply<V>(c: Cache<V>, e: Event<V>): Cache<V> {
    match e
    case Added(key, value, at) => Add(c, key, value, at)
    case TimerFired(key, _) => Expire(c, key)
    case DurationSet(d) => c.(duration := d)
    case ResetOnAddSet(b) => c.(resetOnAdd := b)
  }

  function Run<V>(c: Cache<V>, t: seq<Event<V>>): Cache<V>
    decreases |t|
  {
    if t == [] then c else Run(Apply(c, t[0]), t[1..])
  }

  /** The clock after `e`, starting from `clock`. */
  function Tick<V>(clock: Instant, e: Event<V>): Instant {
    if e.Timed() then e.at else clock
  }

  /** `e` may happen in state `c` when the clock reads `clock`. */
  predicate Enabled<V>(c: Cache<V>, clock: Instant, e: Event<V>) {
    && (e.Timed() ==> clock <= e.at)
    && (e.TimerFired? ==> e.key in c.items && e.at >= c.items[e.key].Deadline())
  }

  predicate Valid<V>(c: Cache<V>, clock: Instant, t: seq<Event<V>>)
    decreases |t|
  {
    t == [] || (Enabled(c, clock, t[0]) && Valid(Apply(c, t[0]), Tick(clock, t[0]), t[1..]))
  }

  /** No item was started after `clock`. */
  predicate StartsNotAfter<V>(c: Cache<V>, clock: Instant) {
    forall k :: k in c.items ==> c.items[k].start <= clock
  }

  lemma {:induction false} RunAppend<V>(c: Cache<V>, t: seq<Event<V>>, e: Event<V>)
    ensures Run(c, t + [e]) == Apply(Run(c, t), e)
    decreases |t|
  {
    if t == [] {
      assert [] + [e] == [e];
    } else {
      assert (t + [e])[1..] == t[1..] + [e];
      RunAppend(Apply(c, t[0]), t[1..], e);
    }
  }

  // Reference semantics: what a trace leaves behind, read per key from the
  // last event that names it.

  /** The value the last `Added` for `key` stored, unless a later timer
      removed it; keys the trace never names keep their value in `c0`. */
  function LastValue<V>(c0: Cache<V>, t: seq<Event<V>>, key: string): Option<V> {
    if t == [] then Get(c0, key)
    else
      var e := t[|t| - 1];
      if e.Added? && e.key == key then Some(e.value)
      else if e.TimerFired? && e.key == key then None
      else LastValue(c0, t[..|t| - 1], key)
  }

  /** The keys whose last event is an `Added`, plus untouched keys of `c0`. */
  function LiveKeys<V>(c0: Cache<V>, t: seq<Event<V>>): set<string> {
    if t == [] then c0.items.Keys
    else
      var e := t[|t| - 1];
      var before := LiveKeys(c0, t[..|t| - 1]);
      if e.Added? then before + {e.key}
      else if e.TimerFired? then before - {e.key}
      else before
  }

  /** `Get` after any trace returns exactly the reference value. */
  lemma {:induction false} GetMatchesLastValue<V>(c0: Cache<V>, t: seq<Event<V>>, key: string)
    ensures Get(Run(c0, t), key) == LastValue(c0, t, key)
    decreases |t|
  {
    if t != [] {
      var init, e := t[..|t| - 1], t[|t| - 1];
      assert t == init + [e];
      RunAppend(c0, init, e);
      GetMatchesLastValue(c0, init, key);
      var c := Run(c0, init);
      match e
      case Added(k, v, at) =>
        GetAfterAdd(c, k, v, at, key);
      case TimerFired(k, _) =>
      case DurationSet(_) =>
      case ResetOnAddSet(_) =>
    }
  }

  /** The cache's keys after any trace are the reference live keys, so
      `Len` counts exactly the keys `Get` finds. */
  lemma {:induction false} LenMatchesLiveKeys<V>(c0: Cache<V>, t: seq<Event<V>>)
    ensures Run(c0, t).items.Keys == LiveKeys(c0, t)
    ensures Len(Run(c0, t)) == |LiveKeys(c0, t)|
    decreases |t|
  {
    if t != [] {
      var init, e := t[..|t| - 1], t[|t| - 1];
      assert t == init + [e];
      RunAppend(c0, init, e);
      LenMatchesLiveKeys(c0, init);
      var c := Run(c0, init);
      match e
      case Added(k, v, at) =>
        var r := Add(c, k, v, at);
        assert r.items.Keys - {k} == c.items.Keys - {k} by {
          assert (r.items - {k}).Keys == r.items.Keys - {k};
          assert (c.items - {k}).Keys == c.items.Keys - {k};
        }
      case TimerFired(_, _) =>
      case DurationSet(_) =>
      case ResetOnAddSet(_) =>
    }
    assert |Run(c0, t).items| == |Run(c0, t).items.Keys|;
  }

  /** A valid step keeps every item's start at or before the clock. */
  lemma StepKeepsStarts<V>(c: Cache<V>, clock: Instant, e: Event<V>)
    requires StartsNotAfter(c, clock)
    requires Enabled(c, clock, e)
    ensures StartsNotAfter(Apply(c, e), Tick(clock, e))
  {
  }

  /**
   An item is never removed before its deadline, and neither a reset nor a
   change of the cache's duration ever brings its deadline forward: while
   every event happens before the deadline `D` the key is present, keeps its
   captured duration, and its deadline stays at `D` or later.
   */
  lemma {:induction false} DeadlineNeverRecedes<V>(c: Cache<V>, clock: Instant, t: seq<Event<V>>, key: string)
    requires StartsNotAfter(c, clock)
    requires Valid(c, clock, t)
    requires key in c.items
    requires forall i :: 0 <= i < |t| && t[i].Timed() ==> t[i].at < c.items[key].Deadline()
    ensures key in Run(c, t).items
    ensures Run(c, t).items[key].duration == c.items[key].duration
    ensures Run(c, t).items[key].Deadline() >= c.items[key].Deadline()
    decreases |t|
  {
    if t != [] {
      var e := t[0];
      var c' := Apply(c, e);
      StepKeepsStarts(c, clock, e);
      if e.TimerFired? && e.key == key {
        assert false;
      }
      assert key in c'.items && c'.items[key].duration == c.items[key].duration by {
        if e.Added? && e.key != key {
          assert key in c.items - {e.key};
          assert (c'.items - {e.key})[key] == (c.items - {e.key})[key];
        }
      }
      assert c'.items[key].Deadline() >= c.items[key].Deadline() by {
        if e.Added? && e.key == key && c.resetOnAdd {
          assert c.items[key].start <= clock <= e.at;
        } else if e.Added? && e.key != key {
          assert (c'.items - {e.key})[key] == (c.items - {e.key})[key];
        }
      }
      forall i | 0 <= i < |t[1..]| && t[1..][i].Timed()
        ensures t[1..][i].at < c'.items[key].Deadline()
      {
        assert t[1..][i] == t[i + 1];
      }
      DeadlineNeverRecedes(c', Tick(clock, e), t[1..], key);
    }
  }

  /** With the reset policy off and never switched on, an item keeps its
      start and captured duration, hence its deadline, until a timer
      removes it. */
  lemma {:induction false} DeadlineFixedWithoutReset<V>(c: Cache<V>, t: seq<Event<V>>, key: string)
    requires !c.resetOnAdd
    requires forall i :: 0 <= i < |t| ==> t[i] != ResetOnAddSet(true)
    requires forall i :: 0 <= i < |t| ==> !(t[i].TimerFired? && t[i].key == key)
    requires key in c.items
    ensures key in Run(c, t).items
    ensures Run(c, t).items[key].start == c.items[key].start
    ensures Run(c, t).items[key].duration == c.items[key].duration
    decreases |t|
  {
    if t != [] {
      var e := t[0];
      var c' := Apply(c, e);
      assert key in c'.items && c'.items[key].start == c.items[key].start
          && c'.items[key].duration == c.items[key].duration by {
        if e.Added? && e.key != key {
          assert key in c.items - {e.key};
          assert (c'.items - {e.key})[key] == (c.items - {e.key})[key];
        }
      }
      assert !c'.resetOnAdd by {
        assert t[0] != ResetOnAddSet(true);
      }
      forall i | 0 <= i < |t[1..]|
        ensures t[1..][i] != ResetOnAddSet(true) && !(t[1..][i].TimerFired? && t[1..][i].key == key)
      {
        assert t[1..][i] == t[i + 1];
      }
      DeadlineFixedWithoutReset(c', t[1..], key);
    }
  }

  // The two scenarios of the repository's tests, with one second as 10^9
  // nanoseconds.

  const Second: int := 1_000_000_000

  /** A cache of one second; while it runs, the duration is raised to two
      seconds and a second key is added. The first key keeps its one-second
      deadline, the second gets two seconds, and after two seconds the first
      key's timer may have removed it while the second key is still there. */
  lemma DurationChangeOnlyAffectsNewKeys()
    ensures var c := Run(New<string>(Second), [Added("item", "1", 0), DurationSet(2 * Second), Added("next", "2", 0)]);
            && "item" in c.items && c.items["item"].Deadline() == Second
            && "next" in c.items && c.items["next"].Deadline() == 2 * Second
            && Valid(c, 0, [TimerFired("item", 2 * Second)])
            && Get(Run(c, [TimerFired("item", 2 * Second)]), "item") == None
            && Get(Run(c, [TimerFired("item", 2 * Second)]), "next") == Some("2")
  {
    var c0 := New<string>(Second);
    var c1 := Add(c0, "item", "1", 0);
    var c2 := c1.(duration := 2 * Second);
    var c3 := Add(c2, "next", "2", 0);
    calc {
      Run(c0, [Added("item", "1", 0), DurationSet(2 * Second), Added("next", "2", 0)]);
      Run(c1, [DurationSet(2 * Second), Added("next", "2", 0)]);
      Run(c2, [Added("next", "2", 0)]);
      Run(c3, []);
    }
    assert "item" in c3.items - {"next"};
    assert (c3.items - {"next"})["item"] == (c2.items - {"next"})["item"];
    var t := [TimerFired("item", 2 * Second)];
    assert Valid(Expire(c3, "item"), 2 * Second, t[1..]);
    assert Run(c3, t) == Run(Expire(c3, "item"), t[1..]);
  }

  /** A two-second cache with resets: re-adding after one second moves the
      deadline to three seconds, so no timer may fire at two and a half
      seconds, while one may at three. */
  lemma ResetPostponesExpiry()
    ensures var c := Run(New<string>(2 * Second).(resetOnAdd := true),
                         [Added("item", "1", 0), Added("item", "2", Second)]);
            && Get(c, "item") == Some("2")
            && !Enabled(c, Second, TimerFired("item", 5 * Second / 2))
            && Enabled(c, Second, TimerFired("item", 3 * Second))
  {
    var c0 := New<string>(2 * Second).(resetOnAdd := true);
    var c1 := Add(c0, "item", "1", 0);
    var c2 := Add(c1, "item", "2", Second);
    calc {
      Run(c0, [Added("item", "1", 0), Added("item", "2", Second)]);
      Run(c1, [Added("item", "2", Second)]);
      Run(c2, []);
    }
  }
}
