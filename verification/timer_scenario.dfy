/** The demonstration in `main` of muduo/test/timer/timewheel.cpp: a default wheel
    (60 slots, cursor at 0) receives timer 1 after 5 ticks, timer 2 after 2 ticks and
    timer 3 after 15 ticks, and is then ticked once per second. The lemmas speak of
    any wheel in the state the default constructor leaves (`Pristine`), and
    `NewIsPristine` shows that the constructor leaves one. */
module TimerScenario {
  import opened TimingWheel
  import opened TimerFiring

  /** A default-sized wheel with its cursor at the default tick, and no task yet. */
  ghost predicate Pristine(w: Wheel)
  {
    && WellFormed(w)
    && w.capacity == DEFAULT_WHEEL_SIZE && w.tick == DEFAULT_TICK
    && w.arena == map[] && w.index == map[] && w.next == 0 && w.fired == []
  }

  /** `TimerWheel timer_wheel;` with the default arguments. */
  lemma NewIsPristine()
    ensures Pristine(New(DEFAULT_WHEEL_SIZE, DEFAULT_TICK))
  {
  }

  /** The wheel of `main` after its default construction and its three `timer_add` calls. */
  function MainWheel(): Wheel
  {
    var w0 := New(DEFAULT_WHEEL_SIZE, DEFAULT_TICK);
    var w1 := TimerAdd(w0, 1, 5, "timer 1");
    var w2 := TimerAdd(w1, 2, 2, "timer 2");
    TimerAdd(w2, 3, 15, "timer 3")
  }

  ghost predicate AllValid(w: Wheel)
  {
    forall h :: h in w.arena ==> w.arena[h].valid
  }

  /** `timer_add` with a positive interval on a reachable wheel whose tasks are all
      valid: the new task takes the next handle and the index maps `id` to it. */
  lemma AddValid(w: Wheel, id: Id, interval: nat, callback: Callback)
    requires WellFormed(w) && AllValid(w) && interval > 0
    ensures WellFormed(TimerAdd(w, id, interval, callback)) && AllValid(TimerAdd(w, id, interval, callback))
    ensures TimerAdd(w, id, interval, callback).arena.Keys == w.arena.Keys + {w.next}
    ensures TimerAdd(w, id, interval, callback).arena[w.next] == TimerTask(id, interval, callback, true)
    ensures forall g :: g in w.arena ==> TimerAdd(w, id, interval, callback).arena[g] == w.arena[g]
    ensures TimerAdd(w, id, interval, callback).index == w.index[id := w.next]
    ensures TimerAdd(w, id, interval, callback).next == w.next + 1
    ensures TimerAdd(w, id, interval, callback).capacity == w.capacity
    ensures TimerAdd(w, id, interval, callback).tick == w.tick
    ensures TimerAdd(w, id, interval, callback).fired == w.fired
  {
    TimerAddPreserves(w, id, interval, callback);
  }

  /** After `timer_add(1, 5, ...)`: timer 1 has handle 0. */
  ghost predicate FirstAdded(w: Wheel)
  {
    && WellFormed(w) && AllValid(w)
    && w.capacity == DEFAULT_WHEEL_SIZE && w.tick == DEFAULT_TICK && w.fired == []
    && w.next == 1 && w.arena.Keys == {0} && w.index == map[1 := 0]
    && w.arena[0] == TimerTask(1, 5, "timer 1", true)
  }

  /** ... then `timer_add(2, 2, ...)`: timer 2 has handle 1. */
  ghost predicate SecondAdded(w: Wheel)
  {
    && WellFormed(w) && AllValid(w)
    && w.capacity == DEFAULT_WHEEL_SIZE && w.tick == DEFAULT_TICK && w.fired == []
    && w.next == 2 && w.arena.Keys == {0, 1} && w.index == map[1 := 0, 2 := 1]
    && w.arena[0] == TimerTask(1, 5, "timer 1", true)
    && w.arena[1] == TimerTask(2, 2, "timer 2", true)
  }

  /** ... then `timer_add(3, 15, ...)`: timer 3 has handle 2, and the log is empty. */
  ghost predicate ThirdAdded(w: Wheel)
  {
    && WellFormed(w) && AllValid(w)
    && w.capacity == DEFAULT_WHEEL_SIZE && w.tick == DEFAULT_TICK && w.fired == []
    && w.arena.Keys == {0, 1, 2} && w.index == map[1 := 0, 2 := 1, 3 := 2]
    && w.arena[0] == TimerTask(1, 5, "timer 1", true)
    && w.arena[1] == TimerTask(2, 2, "timer 2", true)
    && w.arena[2] == TimerTask(3, 15, "timer 3", true)
  }

  /** What `main` has set up before its loop starts ticking: the three tasks are due
      after 5, 2 and 15 ticks. */
  ghost predicate MainReady(w: Wheel)
  {
    ThirdAdded(w) && DueAt(w, 0, 5) && DueAt(w, 1, 2) && DueAt(w, 2, 15)
  }

  lemma FirstAdd(w0: Wheel)
    requires Pristine(w0)
    ensures FirstAdded(TimerAdd(w0, 1, 5, "timer 1"))
    ensures DueAt(TimerAdd(w0, 1, 5, "timer 1"), 0, 5)
  {
    AddValid(w0, 1, 5, "timer 1");
    TimerAddDue(w0, 1, 5, "timer 1");
    assert (5 - 1) % w0.capacity + 1 == 5;
  }

  lemma SecondAdd(w1: Wheel)
    requires FirstAdded(w1)
    ensures SecondAdded(TimerAdd(w1, 2, 2, "timer 2"))
  {
    AddValid(w1, 2, 2, "timer 2");
  }

  lemma SecondAddDue(w1: Wheel)
    requires FirstAdded(w1) && DueAt(w1, 0, 5)
    ensures DueAt(TimerAdd(w1, 2, 2, "timer 2"), 0, 5) && DueAt(TimerAdd(w1, 2, 2, "timer 2"), 1, 2)
  {
    TimerAddDue(w1, 2, 2, "timer 2");
    assert (2 - 1) % w1.capacity + 1 == 2;
    TimerAddKeepsDue(w1, 2, 2, "timer 2", 0, 5);
  }

  lemma ThirdAdd(w2: Wheel)
    requires SecondAdded(w2)
    ensures ThirdAdded(TimerAdd(w2, 3, 15, "timer 3"))
  {
    AddValid(w2, 3, 15, "timer 3");
  }

  lemma ThirdAddDue(w2: Wheel)
    requires SecondAdded(w2) && DueAt(w2, 0, 5) && DueAt(w2, 1, 2)
    ensures DueAt(TimerAdd(w2, 3, 15, "timer 3"), 0, 5) && DueAt(TimerAdd(w2, 3, 15, "timer 3"), 1, 2)
    ensures DueAt(TimerAdd(w2, 3, 15, "timer 3"), 2, 15)
  {
    TimerAddDue(w2, 3, 15, "timer 3");
    assert (15 - 1) % w2.capacity + 1 == 15;
    TimerAddKeepsDue(w2, 3, 15, "timer 3", 0, 5);
    TimerAddKeepsDue(w2, 3, 15, "timer 3", 1, 2);
  }

  /** The three adds of `main` leave the wheel `MainReady`. */
  lemma MainAddsReady()
    ensures MainReady(MainWheel())
  {
    var w0 := New(DEFAULT_WHEEL_SIZE, DEFAULT_TICK);
    var w1 := TimerAdd(w0, 1, 5, "timer 1");
    var w2 := TimerAdd(w1, 2, 2, "timer 2");
    NewIsPristine();
    FirstAdd(w0);
    SecondAdd(w1);
    SecondAddDue(w1);
    ThirdAdd(w2);
    ThirdAddDue(w2);
  }

  /** Over the first 15 ticks timer 2 runs on tick 2, timer 1 on tick 5 and timer 3
      on tick 15, each exactly once (`MainRunsNothingElse` rules out any other task). */
  lemma MainFiringOrder(w: Wheel)
    requires MainReady(w)
    ensures forall k :: 0 <= k < 15 ==> (1 in Ticks(w, 15).fired[k] <==> k == 1)
    ensures forall k :: 0 <= k < 15 ==> (0 in Ticks(w, 15).fired[k] <==> k == 4)
    ensures forall k :: 0 <= k < 15 ==> (2 in Ticks(w, 15).fired[k] <==> k == 14)
  {
    MainFiresOnce(w, 0, 5);
    MainFiresOnce(w, 1, 2);
    MainFiresOnce(w, 2, 15);
  }

  /** No callback other than the three timers' ever runs. */
  lemma MainRunsNothingElse(w: Wheel, n: nat)
    requires MainReady(w)
    ensures forall k :: 0 <= k < n ==> Ticks(w, n).fired[k] <= {0, 1, 2}
  {
    LogNamesTasks(w, n);
  }

  lemma MainFiresOnce(w: Wheel, h: Handle, d: nat)
    requires WellFormed(w) && w.fired == [] && h in w.arena && w.arena[h].valid
    requires DueAt(w, h, d) && d <= 15
    ensures forall k :: 0 <= k < 15 ==> (h in Ticks(w, 15).fired[k] <==> k == d - 1)
  {
    FiresExactlyOnce(w, h, d, 15);
  }

  /** After `cancel_timer(2)` on that wheel timer 2 is invalid and timer 1 is not;
      neither due time moves. */
  lemma MainCancelled(w: Wheel)
    requires MainReady(w)
    ensures WellFormed(CancelTimer(w, 2)) && CancelTimer(w, 2).fired == []
    ensures 0 in CancelTimer(w, 2).arena && CancelTimer(w, 2).arena[0].valid
    ensures 1 in CancelTimer(w, 2).arena && !CancelTimer(w, 2).arena[1].valid
    ensures DueAt(CancelTimer(w, 2), 0, 5) && DueAt(CancelTimer(w, 2), 1, 2)
  {
    CancelTimerPreserves(w, 2);
    CancelTimerKeepsDue(w, 2, 0, 5);
    CancelTimerKeepsDue(w, 2, 1, 2);
  }

  /** Cancelling timer 2 right after the adds keeps its callback from running on
      any tick, however many follow, while timer 1 still runs on tick 5 and only then. */
  lemma MainCancel(w: Wheel, n: nat)
    requires MainReady(w)
    ensures forall k :: 0 <= k < n ==> 1 !in Ticks(CancelTimer(w, 2), n).fired[k]
    ensures n >= 5 ==> forall k :: 0 <= k < n ==> (0 in Ticks(CancelTimer(w, 2), n).fired[k] <==> k == 4)
  {
    MainCancelled(w);
    if n >= 5 {
      FiresExactlyOnce(CancelTimer(w, 2), 0, 5, n);
    }
    TicksSkipInvalid(CancelTimer(w, 2), 1, n);
  }

  /** After the adds, timer 2's task is the only live task carrying id 2. */
  lemma MainSoleCarrier(w: Wheel)
    requires MainReady(w)
    ensures 2 in w.index && SoleLiveCarrier(w, 2)
  {
  }

  /** `refresh_timer(2)` after the first tick: timer 2 is now due two ticks later. */
  lemma MainRefreshed(w: Wheel)
    requires MainReady(w)
    ensures WellFormed(RefreshTimer(Ticks(w, 1), 2))
    ensures |RefreshTimer(Ticks(w, 1), 2).fired| == 1
    ensures 1 in RefreshTimer(Ticks(w, 1), 2).arena && RefreshTimer(Ticks(w, 1), 2).arena[1].valid
    ensures DueAt(RefreshTimer(Ticks(w, 1), 2), 1, 2)
  {
    var x := Ticks(w, 1);
    TicksPreserve(w, 1);
    TicksKeepPending(w, 1, 2, 1);
    MainSoleCarrier(w);
    TicksKeepIndexed(w, 2, 2, 1);
    assert x.index[2] == 1 && x.arena[1].interval == 2 && x.capacity == 60;
    assert (2 - 1) % x.capacity + 1 == 2;
    RefreshTimerDue(x, 2, 1);
    RefreshTimerPreserves(x, 2);
  }

  /** Refreshing timer 2 after the first tick moves its run from the second tick to
      the third: the log entry of the second tick lacks it, that of the third has it. */
  lemma MainRefresh(w: Wheel)
    requires MainReady(w)
    ensures 1 !in Ticks(RefreshTimer(Ticks(w, 1), 2), 2).fired[1]
    ensures 1 in Ticks(RefreshTimer(Ticks(w, 1), 2), 2).fired[2]
  {
    MainRefreshed(w);
    FiresExactlyOnce(RefreshTimer(Ticks(w, 1), 2), 1, 2, 2);
  }
}
