/** When tasks of the timing wheel fire (muduo/test/timer/timewheel.cpp).

    A task fires on the tick that clears the last slot still referencing it. The
    number of ticks until the cursor reaches slot `p` is `TicksUntil`; a task is
    `DueAt(w, h, d)` when the farthest slot holding a reference to it is `d`
    ticks away. The lemmas below show that such a task fires on exactly the
    `d`-th tick (if still valid) and say how `timer_add`, `refresh_timer` and
    `cancel_timer` set or keep the due time. The scenario of the source's `main`
    is replayed in module `TimerScenario`. */
module TimerFiring {
  import opened TimingWheel

  // ---------------------------------------------------------------------------
  // Distance of the cursor to a slot

  /** The number of ticks after which a cursor at `tick` next reaches `slot`. */
  function TicksUntil(tick: nat, slot: nat, capacity: nat): (d: nat)
    requires tick < capacity && slot < capacity
    ensures 1 <= d <= capacity
  {
    if tick < slot then slot - tick else slot + capacity - tick
  }

  /** `TicksUntil` ticks move the cursor onto the slot, and no smaller positive count does. */
  lemma TicksUntilReaches(tick: nat, slot: nat, capacity: nat, e: nat)
    requires tick < capacity && slot < capacity
    ensures (tick + TicksUntil(tick, slot, capacity)) % capacity == slot
    ensures 1 <= e < TicksUntil(tick, slot, capacity) ==> (tick + e) % capacity != slot
  {
    if tick < slot {
      ModOfSum(slot, 0, capacity, slot);
    } else {
      ModOfSum(slot + capacity, 1, capacity, slot);
    }
    if 1 <= e < TicksUntil(tick, slot, capacity) {
      if tick + e < capacity {
        ModOfSum(tick + e, 0, capacity, tick + e);
      } else {
        ModOfSum(tick + e, 1, capacity, tick + e - capacity);
      }
    }
  }

  /** One tick brings every slot one tick closer, and the slot it reaches was one tick away. */
  lemma TicksUntilAfterTick(t: nat, p: nat, cap: nat)
    requires t < cap && p < cap
    ensures (t + 1) % cap < cap
    ensures TicksUntil(t, (t + 1) % cap, cap) == 1
    ensures p != (t + 1) % cap ==> TicksUntil((t + 1) % cap, p, cap) == TicksUntil(t, p, cap) - 1
  {
    if t + 1 < cap {
      ModOfSum(t + 1, 0, cap, t + 1);
    } else {
      ModOfSum(t + 1, 1, cap, 0);
    }
  }

  /** The slot `interval` ticks ahead is reached after `((interval - 1) mod capacity) + 1`
      ticks: after `interval` ticks when `interval <= capacity`, earlier otherwise. */
  lemma TicksUntilOffset(t: nat, interval: nat, cap: nat)
    requires t < cap && 1 <= interval
    ensures TicksUntil(t, (t + interval) % cap, cap) == (interval - 1) % cap + 1
  {
    var q, r := (interval - 1) / cap, (interval - 1) % cap;
    assert interval - 1 == q * cap + r;
    if t + r + 1 < cap {
      ModOfSum(t + interval, q, cap, t + r + 1);
    } else {
      assert t + interval == (q + 1) * cap + (t + r + 1 - cap);
      ModOfSum(t + interval, q + 1, cap, t + r + 1 - cap);
    }
  }

  // ---------------------------------------------------------------------------
  // Due times

  /** Every reference to `h` sits in a slot the cursor reaches within `d` ticks. */
  ghost predicate DueWithin(w: Wheel, h: Handle, d: nat)
    requires Shaped(w)
  {
    forall p :: 0 <= p < |w.slots| && h in w.slots[p] ==> TicksUntil(w.tick, p, w.capacity) <= d
  }

  /** The farthest slot referencing `h` is exactly `d` ticks away. */
  ghost predicate DueAt(w: Wheel, h: Handle, d: nat)
    requires Shaped(w)
  {
    && DueWithin(w, h, d)
    && exists p :: 0 <= p < |w.slots| && h in w.slots[p] && TicksUntil(w.tick, p, w.capacity) == d
  }

  /** `n` consecutive calls of `run_timer_task`: `n` entries are appended to the log
      and no task is created or changed. */
  function Ticks(w: Wheel, n: nat): (r: Wheel)
    requires Shaped(w)
    ensures Shaped(r)
    ensures |r.fired| == |w.fired| + n && r.fired[..|w.fired|] == w.fired
    ensures r.capacity == w.capacity && r.arena == w.arena && r.next == w.next
    decreases n
  {
    if n == 0 then w
    else
      var q := RunTimerTask(w);
      var r := Ticks(q, n - 1);
      assert r.fired[..|w.fired|] == r.fired[..|q.fired|][..|w.fired|];
      r
  }

  lemma {:induction false} TicksPreserve(w: Wheel, n: nat)
    requires WellFormed(w)
    ensures WellFormed(Ticks(w, n))
    decreases n
  {
    if n > 0 {
      RunTimerTaskPreserves(w);
      TicksPreserve(RunTimerTask(w), n - 1);
    }
  }

  /** Ticking `n` times is ticking `m <= n` times and then the remaining `n - m`. */
  lemma {:induction false} TicksSplit(w: Wheel, m: nat, n: nat)
    requires Shaped(w) && m <= n
    ensures Ticks(w, n) == Ticks(Ticks(w, m), n - m)
    decreases m
  {
    if m > 0 {
      TicksSplit(RunTimerTask(w), m - 1, n - 1);
    }
  }

  /** A log that extends another agrees with it on the older entries. */
  lemma PrefixEntries(a: seq<set<Handle>>, b: seq<set<Handle>>)
    requires |a| <= |b| && b[..|a|] == a
    ensures forall k :: 0 <= k < |a| ==> b[k] == a[k]
  {
    forall k | 0 <= k < |a|
      ensures b[k] == a[k]
    {
      assert b[k] == b[..|a|][k];
    }
  }

  /** If `h` is missing from the newer entries of `a`, and from every entry the
      extension `b` adds, it is missing from the newer entries of `b`. */
  lemma AbsentFromLog(a: seq<set<Handle>>, b: seq<set<Handle>>, start: nat, h: Handle)
    requires |a| <= |b| && b[..|a|] == a
    requires forall k :: start <= k < |a| ==> h !in a[k]
    requires forall k :: |a| <= k < |b| ==> h !in b[k]
    ensures forall k :: start <= k < |b| ==> h !in b[k]
  {
    PrefixEntries(a, b);
  }

  /** A proof helper: an allocated task referenced from some slot is alive. */
  lemma ReferencedIsLive(w: Wheel, h: Handle, p: nat)
    requires h in w.arena && p < |w.slots| && h in w.slots[p]
    ensures Live(w, h)
  {
    OccurrencesBound(w.slots, p, h);
  }

  /** After a tick every reference left is one tick closer. */
  lemma TickBringsCloser(w: Wheel, h: Handle, d: nat)
    requires Shaped(w) && DueWithin(w, h, d) && d >= 1
    ensures DueWithin(RunTimerTask(w), h, d - 1)
  {
    var r := RunTimerTask(w);
    forall p | 0 <= p < |r.slots| && h in r.slots[p]
      ensures TicksUntil(r.tick, p, r.capacity) <= d - 1
    {
      TicksUntilAfterTick(w.tick, p, w.capacity);
    }
  }

  /** A reference in a slot other than the one the next tick clears keeps its task
      alive through that tick, and keeps it from firing. */
  lemma TickSpares(w: Wheel, h: Handle, p0: nat)
    requires Shaped(w) && h in w.arena && p0 < |w.slots| && h in w.slots[p0]
    requires p0 != (w.tick + 1) % w.capacity
    ensures !Releases(w, RunTimerTask(w).tick, h)
    ensures h in RunTimerTask(w).slots[p0] && Live(RunTimerTask(w), h)
    ensures h !in RunTimerTask(w).fired[|w.fired|]
  {
    var r := RunTimerTask(w);
    RunTimerTaskCounts(w, RunTimerTask(w));
    RunTimerTaskReleases(w, RunTimerTask(w));
    OccurrencesBound(r.slots, p0, h);
  }

  /** A task referenced from a slot more than one tick away survives the next tick,
      one tick closer to its due time, and does not fire. */
  lemma TickKeepsPending(w: Wheel, h: Handle, d: nat)
    requires Shaped(w) && h in w.arena && DueAt(w, h, d) && d > 1
    ensures !Releases(w, RunTimerTask(w).tick, h)
    ensures Live(RunTimerTask(w), h) && DueAt(RunTimerTask(w), h, d - 1)
    ensures h !in RunTimerTask(w).fired[|w.fired|]
  {
    var p0 :| 0 <= p0 < |w.slots| && h in w.slots[p0] && TicksUntil(w.tick, p0, w.capacity) == d;
    var t := (w.tick + 1) % w.capacity;
    TicksUntilAfterTick(w.tick, p0, w.capacity);
    assert p0 != t;
    assert TicksUntil(t, p0, w.capacity) == d - 1;
    TickSpares(w, h, p0);
    TickBringsCloser(w, h, d);
    var r := RunTimerTask(w);
    assert r.tick == t && h in r.slots[p0];
  }

  /** A live task whose every reference is in the next slot is destroyed by the next
      tick: its callback runs exactly when it is still valid, and its id leaves the index. */
  lemma TickFires(w: Wheel, h: Handle)
    requires Shaped(w) && Live(w, h) && DueWithin(w, h, 1)
    ensures Releases(w, RunTimerTask(w).tick, h) && !Live(RunTimerTask(w), h)
    ensures h in RunTimerTask(w).fired[|w.fired|] <==> w.arena[h].valid
    ensures w.arena[h].id !in RunTimerTask(w).index
  {
    var t := (w.tick + 1) % w.capacity;
    var s := w.slots[t := multiset{}];
    forall p | 0 <= p < |s|
      ensures h !in s[p]
    {
      if p != t {
        TicksUntilAfterTick(w.tick, p, w.capacity);
      }
    }
    OccurrencesAbsent(s, h);
    OccurrencesUpdate(w.slots, t, multiset{}, h);
    RunTimerTaskCounts(w, RunTimerTask(w));
    RunTimerTaskReleases(w, RunTimerTask(w));
  }

  /** Before its due time a task stays alive, one tick closer per tick. */
  lemma {:induction false} TicksKeepPending(w: Wheel, h: Handle, d: nat, n: nat)
    requires Shaped(w) && h in w.arena && DueAt(w, h, d) && n < d
    ensures Live(Ticks(w, n), h) && DueAt(Ticks(w, n), h, d - n)
    decreases n
  {
    if n == 0 {
      var p0 :| 0 <= p0 < |w.slots| && h in w.slots[p0] && TicksUntil(w.tick, p0, w.capacity) == d;
      ReferencedIsLive(w, h, p0);
    } else {
      TicksKeepPending(w, h, d, n - 1);
      var x := Ticks(w, n - 1);
      TickKeepsPending(x, h, d - (n - 1));
      TicksLast(w, n);
    }
  }

  /** The `n`-th tick, before the task's due time, leaves it out of the entry it
      appends to the log. */
  lemma PendingTick(w: Wheel, h: Handle, d: nat, n: nat)
    requires Shaped(w) && h in w.arena && DueAt(w, h, d) && 0 < n < d
    ensures Ticks(w, n).fired[..|w.fired| + n - 1] == Ticks(w, n - 1).fired
    ensures h !in Ticks(w, n).fired[|w.fired| + n - 1]
  {
    TicksKeepPending(w, h, d, n - 1);
    var x := Ticks(w, n - 1);
    TickKeepsPending(x, h, d - (n - 1));
    TicksLast(w, n);
  }

  /** Before its due time a task does not fire. */
  lemma {:induction false} TicksKeepSilent(w: Wheel, h: Handle, d: nat, n: nat)
    requires Shaped(w) && h in w.arena && DueAt(w, h, d) && n < d
    ensures forall k :: |w.fired| <= k < |Ticks(w, n).fired| ==> h !in Ticks(w, n).fired[k]
    decreases n
  {
    if n > 0 {
      TicksKeepSilent(w, h, d, n - 1);
      PendingTick(w, h, d, n);
      AbsentFromLog(Ticks(w, n - 1).fired, Ticks(w, n).fired, |w.fired|, h);
    }
  }

  /** An invalid task never fires, however long the wheel ticks. */
  lemma {:induction false} TicksSkipInvalid(w: Wheel, h: Handle, n: nat)
    requires Shaped(w) && h in w.arena && !w.arena[h].valid
    ensures forall k :: |w.fired| <= k < |Ticks(w, n).fired| ==> h !in Ticks(w, n).fired[k]
    decreases n
  {
    if n > 0 {
      TicksSkipInvalid(w, h, n - 1);
      var x := Ticks(w, n - 1);
      TicksLast(w, n);
      RunTimerTaskReleases(x, RunTimerTask(x));
      AbsentFromLog(x.fired, Ticks(w, n).fired, |w.fired|, h);
    }
  }

  /** The `n`-th tick is one tick after the `n - 1`-th. */
  lemma TicksLast(w: Wheel, n: nat)
    requires Shaped(w) && n > 0
    ensures Ticks(w, n) == RunTimerTask(Ticks(w, n - 1))
  {
    TicksSplit(w, n - 1, n);
    assert Ticks(Ticks(Ticks(w, n - 1), 1), 0) == Ticks(RunTimerTask(Ticks(w, n - 1)), 0);
  }

  /** After `n` ticks the cursor has advanced `n` slots around the wheel. */
  lemma {:induction false} TicksCursor(w: Wheel, n: nat)
    requires Shaped(w)
    ensures Ticks(w, n).tick == (w.tick + n) % w.capacity
    decreases n
  {
    var c := w.capacity;
    if n == 0 {
      ModOfSum(w.tick, 0, c, w.tick);
    } else {
      var q := RunTimerTask(w);
      var m: nat := n - 1;
      assert Ticks(w, n) == Ticks(q, m);
      TicksCursor(q, m);
      var t1: nat := w.tick + 1;
      assert q.tick == t1 % c;
      ModShift(t1, m, c);
      assert t1 + m == w.tick + n;
    }
  }

  /** The slot `timer_add` and `refresh_timer` pick for an interval is the one the
      cursor stands on, freshly cleared, after that many ticks. */
  lemma TargetSlotReached(w: Wheel, interval: nat)
    requires Shaped(w)
    ensures Ticks(w, interval).tick == TargetSlot(w, interval)
    ensures interval > 0 ==> Ticks(w, interval).slots[TargetSlot(w, interval)] == multiset{}
  {
    TicksCursor(w, interval);
    if interval > 0 {
      TicksLast(w, interval);
    }
  }

  /** One tick before its due time a task is alive and every reference to it sits
      in the slot the next tick clears. */
  lemma LastPendingTick(w: Wheel, h: Handle, d: nat)
    requires Shaped(w) && h in w.arena && DueAt(w, h, d)
    ensures d >= 1
    ensures Live(Ticks(w, d - 1), h) && DueWithin(Ticks(w, d - 1), h, 1)
  {
    var p0 :| 0 <= p0 < |w.slots| && h in w.slots[p0] && TicksUntil(w.tick, p0, w.capacity) == d;
    TicksKeepPending(w, h, d, d - 1);
  }

  /** A task due in `d` ticks fires on exactly the `d`-th tick if it is still valid. */
  lemma FiresAt(w: Wheel, h: Handle, d: nat)
    requires Shaped(w) && h in w.arena && DueAt(w, h, d)
    ensures d >= 1
    ensures h in Ticks(w, d).fired[|w.fired| + d - 1] <==> w.arena[h].valid
  {
    LastPendingTick(w, h, d);
    var x := Ticks(w, d - 1);
    TickFires(x, h);
    TicksLast(w, d);
    var y := RunTimerTask(x);
    assert |x.fired| == |w.fired| + d - 1 && x.arena == w.arena;
    assert h in y.fired[|x.fired|] <==> x.arena[h].valid;
  }

  /** Before its due time a task does not fire. */
  lemma SilentBefore(w: Wheel, h: Handle, d: nat)
    requires Shaped(w) && h in w.arena && DueAt(w, h, d)
    ensures d >= 1
    ensures forall k :: |w.fired| <= k < |w.fired| + d - 1 ==> h !in Ticks(w, d).fired[k]
  {
    var p0 :| 0 <= p0 < |w.slots| && h in w.slots[p0] && TicksUntil(w.tick, p0, w.capacity) == d;
    var x := Ticks(w, d - 1);
    TicksKeepSilent(w, h, d, d - 1);
    TicksLast(w, d);
    PrefixEntries(x.fired, Ticks(w, d).fired);
  }

  /** After its due time a task is destroyed and its id is gone from the index. */
  lemma DestroyedAt(w: Wheel, h: Handle, d: nat)
    requires Shaped(w) && h in w.arena && DueAt(w, h, d)
    ensures d >= 1
    ensures !Live(Ticks(w, d), h) && w.arena[h].id !in Ticks(w, d).index
  {
    LastPendingTick(w, h, d);
    var x := Ticks(w, d - 1);
    TickFires(x, h);
    TicksLast(w, d);
  }

  /** In a reachable state a task due in `d` ticks appears in the log of any `n >= d`
      ticks exactly once, on the `d`-th tick, if it is still valid, and never otherwise. */
  lemma FiresExactlyOnce(w: Wheel, h: Handle, d: nat, n: nat)
    requires WellFormed(w) && h in w.arena && DueAt(w, h, d) && d <= n
    ensures forall k :: |w.fired| <= k < |w.fired| + n ==>
      (h in Ticks(w, n).fired[k] <==> k == |w.fired| + d - 1 && w.arena[h].valid)
  {
    var y := Ticks(w, d);
    var z := Ticks(w, n);
    FiresAt(w, h, d);
    SilentBefore(w, h, d);
    TicksSplit(w, d, n);
    PrefixEntries(y.fired, z.fired);
    TicksPreserve(w, n);
    var due := |w.fired| + d - 1;
    forall k | |w.fired| <= k < |w.fired| + n
      ensures h in z.fired[k] <==> k == due && w.arena[h].valid
    {
      if k > due {
        assert z.fired[due] !! z.fired[k];
      }
    }
  }

  /** A corollary of `TicksPreserve`: from a reachable state the log only ever names
      tasks of the arena. */
  lemma LogNamesTasks(w: Wheel, n: nat)
    requires WellFormed(w)
    ensures forall k :: 0 <= k < |Ticks(w, n).fired| ==> Ticks(w, n).fired[k] <= w.arena.Keys
  {
    TicksPreserve(w, n);
  }

  // ---------------------------------------------------------------------------
  // How the operations set the due time

  /** `timer_add` with a positive interval creates a live task due after
      `((interval - 1) mod capacity) + 1` ticks. */
  lemma TimerAddDue(w: Wheel, id: Id, interval: nat, callback: Callback)
    requires WellFormed(w) && interval > 0
    ensures Live(TimerAdd(w, id, interval, callback), w.next) && DueAt(TimerAdd(w, id, interval, callback), w.next, (interval - 1) % w.capacity + 1)
  {
    var r := TimerAdd(w, id, interval, callback);
    var pos := TargetSlot(w, interval);
    TicksUntilOffset(w.tick, interval, w.capacity);
    assert w.next !in w.arena;
    ReferencedIsLive(r, w.next, pos);
    assert forall p :: 0 <= p < |r.slots| && w.next in r.slots[p] ==> p == pos;
  }

  /** With no other call in between, a task added with a positive interval runs on
      exactly the `((interval - 1) mod capacity) + 1`-th tick after `timer_add`. */
  lemma TimerAddFiresOnce(w: Wheel, id: Id, interval: nat, callback: Callback, n: nat)
    requires WellFormed(w) && interval > 0 && (interval - 1) % w.capacity + 1 <= n
    ensures forall k :: |w.fired| <= k < |w.fired| + n ==>
      (w.next in Ticks(TimerAdd(w, id, interval, callback), n).fired[k] <==> k == |w.fired| + (interval - 1) % w.capacity)
  {
    var a := TimerAdd(w, id, interval, callback);
    TimerAddPreserves(w, id, interval, callback);
    TimerAddDue(w, id, interval, callback);
    FiresExactlyOnce(a, w.next, (interval - 1) % w.capacity + 1, n);
  }

  /** `timer_add` leaves the due time and state of every existing task alone. */
  lemma TimerAddKeepsDue(w: Wheel, id: Id, interval: nat, callback: Callback, g: Handle, d: nat)
    requires Shaped(w) && g in w.arena && DueAt(w, g, d)
    ensures DueAt(TimerAdd(w, id, interval, callback), g, d) && TimerAdd(w, id, interval, callback).arena[g] == w.arena[g]
  {
    var r := TimerAdd(w, id, interval, callback);
    if interval > 0 {
      var pos := TargetSlot(w, interval);
      assert r.slots[pos] == w.slots[pos] + multiset{w.next};
      assert forall p :: 0 <= p < |w.slots| ==> (g in r.slots[p] <==> g in w.slots[p]);
      var p0 :| 0 <= p0 < |w.slots| && g in w.slots[p0] && TicksUntil(w.tick, p0, w.capacity) == d;
      assert g in r.slots[p0];
    }
  }

  /** `refresh_timer` on an indexed id: the task is now due at the later of its old
      due time and the `interval`-ahead slot it was just added to. */
  lemma RefreshTimerDue(w: Wheel, id: Id, d: nat)
    requires Shaped(w) && id in w.index && w.arena[w.index[id]].interval > 0 && DueAt(w, w.index[id], d)
    ensures var h := w.index[id];
      var k := (w.arena[h].interval - 1) % w.capacity + 1;
      var r := RefreshTimer(w, id);
      DueAt(r, h, if d < k then k else d)
  {
    var h := w.index[id];
    var r := RefreshTimer(w, id);
    var pos := TargetSlot(w, w.arena[h].interval);
    var k := (w.arena[h].interval - 1) % w.capacity + 1;
    TicksUntilOffset(w.tick, w.arena[h].interval, w.capacity);
    var p0 :| 0 <= p0 < |w.slots| && h in w.slots[p0] && TicksUntil(w.tick, p0, w.capacity) == d;
    assert r.slots[pos] == w.slots[pos] + multiset{h};
    assert h in r.slots[p0];
    forall p | 0 <= p < |r.slots| && h in r.slots[p]
      ensures TicksUntil(r.tick, p, r.capacity) <= (if d < k then k else d)
    {
      if p != pos {
        assert h in w.slots[p];
      }
    }
  }

  /** `refresh_timer` leaves the due time of every other task alone. */
  lemma RefreshTimerKeepsDue(w: Wheel, id: Id, g: Handle, d: nat)
    requires Shaped(w) && DueAt(w, g, d)
    requires id in w.index ==> w.index[id] != g
    ensures DueAt(RefreshTimer(w, id), g, d)
  {
    var r := RefreshTimer(w, id);
    if id in w.index {
      var h := w.index[id];
      var pos := TargetSlot(w, w.arena[h].interval);
      assert r.slots[pos] == w.slots[pos] + multiset{h};
      assert forall p :: 0 <= p < |w.slots| ==> (g in r.slots[p] <==> g in w.slots[p]);
      var p0 :| 0 <= p0 < |w.slots| && g in w.slots[p0] && TicksUntil(w.tick, p0, w.capacity) == d;
      assert g in r.slots[p0];
    }
  }

  /** `cancel_timer` moves no reference, so every due time is unchanged; only the
      task the id names loses its validity. */
  lemma CancelTimerKeepsDue(w: Wheel, id: Id, g: Handle, d: nat)
    requires Shaped(w) && g in w.arena && DueAt(w, g, d)
    ensures DueAt(CancelTimer(w, id), g, d) && CancelTimer(w, id).arena[g].id == w.arena[g].id
    ensures CancelTimer(w, id).arena[g].valid <==> w.arena[g].valid && !(id in w.index && w.index[id] == g)
  {
  }

  // ---------------------------------------------------------------------------
  // The index after teardown

  /** Ticks only destroy tasks: a task alive after them was alive before. */
  lemma {:induction false} TicksNeverRevive(w: Wheel, n: nat)
    requires Shaped(w)
    ensures forall g :: Live(Ticks(w, n), g) ==> Live(w, g)
    decreases n
  {
    if n > 0 {
      TicksNeverRevive(w, n - 1);
      TicksLast(w, n);
      RunTimerTaskCounts(Ticks(w, n - 1), Ticks(w, n));
    }
  }

  /** No live task but the indexed one carries `id`. */
  ghost predicate SoleLiveCarrier(w: Wheel, id: Id)
    requires id in w.index
  {
    forall g :: Live(w, g) && w.arena[g].id == id ==> g == w.index[id]
  }

  /** A pending task that is the only live one carrying its id stays indexed; tasks
      with that id that were already destroyed are never torn down again. */
  lemma TickKeepsIndexed(w: Wheel, id: Id, d: nat)
    requires Shaped(w) && id in w.index && DueAt(w, w.index[id], d) && d > 1
    requires SoleLiveCarrier(w, id)
    ensures id in RunTimerTask(w).index && RunTimerTask(w).index[id] == w.index[id]
  {
    TickKeepsPending(w, w.index[id], d);
    RunTimerTaskReleases(w, RunTimerTask(w));
    forall h | Releases(w, RunTimerTask(w).tick, h)
      ensures Live(w, h)
    {
      OccurrencesBound(w.slots, RunTimerTask(w).tick, h);
    }
  }

  /** One more tick before its due time keeps such a task indexed. */
  lemma IndexedTick(w: Wheel, id: Id, d: nat, n: nat)
    requires Shaped(w) && id in w.index && DueAt(w, w.index[id], d) && 0 < n < d
    requires SoleLiveCarrier(w, id)
    requires id in Ticks(w, n - 1).index && Ticks(w, n - 1).index[id] == w.index[id]
    ensures id in Ticks(w, n).index && Ticks(w, n).index[id] == w.index[id]
  {
    TicksKeepPending(w, w.index[id], d, n - 1);
    TicksNeverRevive(w, n - 1);
    TickKeepsIndexed(Ticks(w, n - 1), id, d - (n - 1));
    TicksLast(w, n);
  }

  /** Up to its due time such a task stays indexed under its id. */
  lemma {:induction false} TicksKeepIndexed(w: Wheel, id: Id, d: nat, n: nat)
    requires Shaped(w) && id in w.index && DueAt(w, w.index[id], d) && n < d
    requires SoleLiveCarrier(w, id)
    ensures id in Ticks(w, n).index && Ticks(w, n).index[id] == w.index[id]
    decreases n
  {
    if n > 0 {
      TicksKeepIndexed(w, id, d, n - 1);
      IndexedTick(w, id, d, n);
    }
  }

  /** Teardown erases the id even when the index names a newer task for it: the newer
      task is then out of reach of `refresh_timer` and `cancel_timer`, yet it stays
      scheduled. */
  lemma TeardownOrphansNewerTask(w: Wheel, older: Handle, newer: Handle, d: nat)
    requires Shaped(w)
    requires Live(w, older) && DueWithin(w, older, 1)
    requires newer in w.arena && DueAt(w, newer, d) && d > 1
    requires w.arena[older].id == w.arena[newer].id
    requires w.arena[newer].id in w.index && w.index[w.arena[newer].id] == newer
    ensures var r := RunTimerTask(w);
      var id := w.arena[newer].id;
      && id !in r.index
      && Live(r, newer) && DueAt(r, newer, d - 1)
      && RefreshTimer(r, id) == r && CancelTimer(r, id) == r
  {
    TickFires(w, older);
    TickKeepsPending(w, newer, d);
  }
}
