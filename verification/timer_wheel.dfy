/** A single-level timing wheel (muduo/test/timer/timewheel.cpp, classes TimerTask
    and TimerWheel).

    The C++ code keeps `shared_ptr<TimerTask>` in the slots and `weak_ptr<TimerTask>`
    in an id index; a task's destructor runs the callback (unless the task was
    marked invalid) and then erases the task's id from the index. Here the shared
    ownership is an explicit arena: every task ever created has a handle and an
    entry in `arena`, and its strong reference count is the number of slot entries
    naming it (`Occurrences`), since the slots hold the only owning pointers. A
    task whose count drops to zero is destroyed; its entry stays in the arena so
    that the log of fired tasks keeps its meaning. */
module TimingWheel {

  type Id = nat
  type Handle = nat
  /** An opaque stand-in for the `std::function<void()>` a task runs. */
  type Callback = string

  const DEFAULT_TICK: nat := 0
  const DEFAULT_WHEEL_SIZE: nat := 60

  /** A TimerTask: its id, interval, callback and the flag `set_invalid` clears. */
  datatype TimerTask = TimerTask(id: Id, interval: nat, callback: Callback, valid: bool)
  {
    /** `set_invalid`: the callback will be skipped at teardown; nothing else changes. */
    function SetInvalid(): (t: TimerTask)
      ensures !t.valid
      ensures t.id == id && t.interval == interval && t.callback == callback
    {
      this.(valid := false)
    }
  }

  /** The wheel: `capacity` slots, the cursor `tick`, the arena of every task ever
      created (`next` is the next fresh handle), the id index, and the log of
      callbacks run, one set of task handles per `run_timer_task`. */
  datatype Wheel = Wheel(
    capacity: nat,
    tick: nat,
    slots: seq<multiset<Handle>>,
    arena: map<Handle, TimerTask>,
    index: map<Id, Handle>,
    next: Handle,
    fired: seq<set<Handle>>)

  /** Number of strong references to `h` held by all slots together. */
  function Occurrences(slots: seq<multiset<Handle>>, h: Handle): nat
  {
    if |slots| == 0 then 0 else slots[0][h] + Occurrences(slots[1..], h)
  }

  /** A task is alive while at least one slot references it. */
  predicate Live(w: Wheel, h: Handle)
  {
    h in w.arena && Occurrences(w.slots, h) > 0
  }

  /** What the operations need to be defined: a cursor inside a non-empty wheel,
      handles drawn from a counter, and an index that only names allocated tasks. */
  ghost predicate Shaped(w: Wheel)
  {
    && 0 < w.capacity
    && w.tick < w.capacity
    && |w.slots| == w.capacity
    && (forall h :: h in w.arena ==> h < w.next)
    && (forall id :: id in w.index ==> w.index[id] in w.arena)
  }

  /** The states the wheel reaches from its constructor. */
  ghost predicate WellFormed(w: Wheel)
  {
    && Shaped(w)
    // a zero interval is never scheduled
    && (forall h :: h in w.arena ==> w.arena[h].interval > 0)
    // slots reference only allocated tasks
    && (forall p, h :: 0 <= p < |w.slots| && h in w.slots[p] ==> h in w.arena)
    // every indexed weak reference can be locked, and names a task with that id
    && (forall id :: id in w.index ==> Live(w, w.index[id]) && w.arena[w.index[id]].id == id)
    // a fired task is destroyed and was valid when it was destroyed
    && (forall k, h :: 0 <= k < |w.fired| && h in w.fired[k] ==>
          h in w.arena && Occurrences(w.slots, h) == 0 && w.arena[h].valid)
    // no task fires twice
    && (forall i, j :: 0 <= i < j < |w.fired| ==> w.fired[i] !! w.fired[j])
  }

  /** Slot `p` holds every remaining strong reference to the allocated task `h`,
      so clearing it destroys the task. */
  predicate Releases(w: Wheel, p: nat, h: Handle)
    requires p < |w.slots|
  {
    h in w.arena && h in w.slots[p] && Occurrences(w.slots, h) == w.slots[p][h]
  }

  // ---------------------------------------------------------------------------
  // Reference counting over the slots

  lemma {:induction false} OccurrencesUpdate(s: seq<multiset<Handle>>, i: nat, m: multiset<Handle>, h: Handle)
    requires i < |s|
    ensures Occurrences(s[i := m], h) + s[i][h] == Occurrences(s, h) + m[h]
  {
    if i == 0 {
      assert s[i := m][1..] == s[1..];
    } else {
      OccurrencesUpdate(s[1..], i - 1, m, h);
      assert s[i := m][1..] == s[1..][i - 1 := m];
    }
  }

  lemma {:induction false} OccurrencesBound(s: seq<multiset<Handle>>, i: nat, h: Handle)
    requires i < |s|
    ensures s[i][h] <= Occurrences(s, h)
  {
    if i > 0 {
      OccurrencesBound(s[1..], i - 1, h);
    }
  }

  lemma {:induction false} OccurrencesAbsent(s: seq<multiset<Handle>>, h: Handle)
    requires forall p :: 0 <= p < |s| ==> h !in s[p]
    ensures Occurrences(s, h) == 0
  {
    if |s| > 0 {
      assert h !in s[0];
      OccurrencesAbsent(s[1..], h);
    }
  }

  /** Adding one entry for `h` to slot `pos` adds one strong reference to `h` only. */
  lemma OccurrencesInsert(s: seq<multiset<Handle>>, pos: nat, h: Handle)
    requires pos < |s|
    ensures forall g :: Occurrences(s[pos := s[pos] + multiset{h}], g)
                        == Occurrences(s, g) + (if g == h then 1 else 0)
  {
    forall g
      ensures Occurrences(s[pos := s[pos] + multiset{h}], g) == Occurrences(s, g) + (if g == h then 1 else 0)
    {
      OccurrencesUpdate(s, pos, s[pos] + multiset{h}, g);
    }
  }

  /** Clearing slot `pos` drops exactly the references it held. */
  lemma OccurrencesClear(s: seq<multiset<Handle>>, pos: nat)
    requires pos < |s|
    ensures forall g :: s[pos][g] <= Occurrences(s, g)
    ensures forall g :: Occurrences(s[pos := multiset{}], g) == Occurrences(s, g) - s[pos][g]
  {
    forall g
      ensures s[pos][g] <= Occurrences(s, g)
      ensures Occurrences(s[pos := multiset{}], g) == Occurrences(s, g) - s[pos][g]
    {
      OccurrencesBound(s, pos, g);
      OccurrencesUpdate(s, pos, multiset{}, g);
    }
  }

  // ---------------------------------------------------------------------------
  // Operations

  /** The constructor. The source stores the tick as given and only ever reads it
      modulo the capacity; the model stores it reduced (see `NewCursor`). A zero
      capacity divides by zero on first use, so the model asks for a positive one. */
  function New(capacity: nat, tick: nat): (w: Wheel)
    requires 0 < capacity
    ensures WellFormed(w)
    ensures w.capacity == capacity && w.tick == tick % capacity && |w.slots| == capacity
    ensures forall p :: 0 <= p < capacity ==> w.slots[p] == multiset{}
    ensures w.index == map[] && w.arena == map[] && w.next == 0 && w.fired == []
    ensures IndexNamesNewest(w)
  {
    Wheel(capacity, tick % capacity, seq(capacity, _ => multiset{}), map[], map[], 0, [])
  }

  // ---------------------------------------------------------------------------
  // Modular arithmetic on the cursor

  lemma {:induction false} MulAtLeast(a: nat, b: nat)
    requires 1 <= a
    ensures b <= a * b
  {
    if a > 1 {
      MulAtLeast(a - 1, b);
      assert a * b == (a - 1) * b + b;
    }
  }

  /** Division with remainder is unique. */
  lemma ModOfSum(x: int, q: int, cap: int, s: int)
    requires 0 < cap && 0 <= s < cap && x == q * cap + s
    ensures x % cap == s && x / cap == q
  {
    var q', s' := x / cap, x % cap;
    assert x == q' * cap + s';
    if q' < q {
      assert (q - q') * cap == s' - s;
      MulAtLeast(q - q', cap);
    } else if q' > q {
      assert (q' - q) * cap == s - s';
      MulAtLeast(q' - q, cap);
    }
  }

  /** Adding whole turns of the wheel does not move a slot position. */
  lemma ModShift(t: nat, i: nat, c: nat)
    requires 0 < c
    ensures (t % c + i) % c == (t + i) % c
  {
    var x := t % c + i;
    var q1, q2 := t / c, x / c;
    assert t + i == q1 * c + x;
    assert x == q2 * c + x % c;
    assert q1 * c + q2 * c == (q1 + q2) * c;
    ModOfSum(t + i, q1 + q2, c, x % c);
  }

  /** The slot that is cleared `interval` ticks from now (modulo the capacity). */
  function TargetSlot(w: Wheel, interval: nat): (pos: nat)
    requires 0 < w.capacity
    ensures pos < w.capacity
  {
    (w.tick + interval) % w.capacity
  }

  /** A wheel built with an unreduced tick places every task in the slot, and moves
      its cursor to the position, that the unreduced tick names. */
  lemma NewCursor(capacity: nat, tick: nat, interval: nat)
    requires 0 < capacity
    ensures TargetSlot(New(capacity, tick), interval) == (tick + interval) % capacity
    ensures RunTimerTask(New(capacity, tick)).tick == (tick + 1) % capacity
  {
    ModShift(tick, interval, capacity);
    ModShift(tick, 1, capacity);
  }

  /** `timer_add`: a zero interval is ignored; otherwise a fresh valid task with one
      strong reference is put in the target slot and indexed under `id`, replacing
      whatever the index held for `id` (an older task keeps its references). */
  function TimerAdd(w: Wheel, id: Id, interval: nat, callback: Callback): (r: Wheel)
    requires Shaped(w)
    ensures Shaped(r)
    ensures interval == 0 ==> r == w
    ensures interval > 0 ==>
      var h, pos := w.next, TargetSlot(w, interval);
      && h !in w.arena
      && r.capacity == w.capacity && r.tick == w.tick && |r.slots| == |w.slots|
      && r.slots[pos] == w.slots[pos] + multiset{h}
      && (forall p :: 0 <= p < |w.slots| && p != pos ==> r.slots[p] == w.slots[p])
      && r.arena.Keys == w.arena.Keys + {h}
      && r.arena[h] == TimerTask(id, interval, callback, true)
      && (forall g :: g in w.arena ==> r.arena[g] == w.arena[g])
      && r.index.Keys == w.index.Keys + {id} && r.index[id] == h
      && (forall other :: other in w.index && other != id ==> r.index[other] == w.index[other])
      && r.fired == w.fired && r.next == h + 1
  {
    if interval == 0 then w
    else
      var h, pos := w.next, TargetSlot(w, interval);
      w.(slots := w.slots[pos := w.slots[pos] + multiset{h}],
         arena := w.arena[h := TimerTask(id, interval, callback, true)],
         index := w.index[id := h],
         next := w.next + 1)
  }

  /** `remove_timer`: erase `id` from the index if present; no task is touched. */
  function RemoveTimer(w: Wheel, id: Id): (r: Wheel)
    ensures id !in r.index
    ensures forall other :: other != id ==>
      (other in r.index <==> other in w.index) && (other in w.index ==> r.index[other] == w.index[other])
    ensures r.capacity == w.capacity && r.tick == w.tick && r.slots == w.slots
    ensures r.arena == w.arena && r.next == w.next && r.fired == w.fired
  {
    if id !in w.index then w else w.(index := w.index - {id})
  }

  /** `refresh_timer`: for an indexed id, one more strong reference to the same task
      in the slot `interval` ticks ahead; existing references stay where they are.
      An unindexed id is ignored. */
  function RefreshTimer(w: Wheel, id: Id): (r: Wheel)
    requires Shaped(w)
    ensures Shaped(r)
    ensures id !in w.index ==> r == w
    ensures id in w.index ==>
      var h := w.index[id];
      var pos := TargetSlot(w, w.arena[h].interval);
      && r.capacity == w.capacity && r.tick == w.tick && |r.slots| == |w.slots|
      && r.slots[pos] == w.slots[pos] + multiset{h}
      && (forall p :: 0 <= p < |w.slots| && p != pos ==> r.slots[p] == w.slots[p])
      && r.arena == w.arena && r.index == w.index && r.fired == w.fired && r.next == w.next
  {
    if id !in w.index then w
    else
      var h := w.index[id];
      var pos := TargetSlot(w, w.arena[h].interval);
      w.(slots := w.slots[pos := w.slots[pos] + multiset{h}])
  }

  /** `cancel_timer`: an indexed task is marked invalid and nothing else changes;
      an unindexed id is ignored. */
  function CancelTimer(w: Wheel, id: Id): (r: Wheel)
    requires Shaped(w)
    ensures Shaped(r)
    ensures id !in w.index ==> r == w
    ensures id in w.index ==>
      var h := w.index[id];
      && r.arena.Keys == w.arena.Keys
      && r.arena[h] == w.arena[h].SetInvalid()
      && (forall g :: g in w.arena && g != h ==> r.arena[g] == w.arena[g])
    ensures r.capacity == w.capacity && r.tick == w.tick && r.slots == w.slots
    ensures r.index == w.index && r.next == w.next && r.fired == w.fired
  {
    if id !in w.index then w
    else
      var h := w.index[id];
      w.(arena := w.arena[h := w.arena[h].SetInvalid()])
  }

  /** `run_timer_task`: the cursor moves one slot and that slot is cleared. Every task
      whose remaining references were all in the cleared slot is destroyed: its
      callback runs if it is still valid, and its id is erased from the index,
      whichever task the index names for that id by then. */
  function RunTimerTask(w: Wheel): (r: Wheel)
    requires Shaped(w)
    ensures Shaped(r)
    ensures r.capacity == w.capacity && r.tick == (w.tick + 1) % w.capacity
    ensures |r.slots| == |w.slots| && r.slots[r.tick] == multiset{}
    ensures forall p :: 0 <= p < |w.slots| && p != r.tick ==> r.slots[p] == w.slots[p]
    ensures r.arena == w.arena && r.next == w.next
    // the tick appends one entry to the log: the released tasks that were still valid
    ensures |r.fired| == |w.fired| + 1 && r.fired[..|w.fired|] == w.fired
  {
    var t := (w.tick + 1) % w.capacity;
    var cleared := w.slots[t];
    var released := set h | h in cleared && h in w.arena && Occurrences(w.slots, h) == cleared[h];
    Wheel(w.capacity, t, w.slots[t := multiset{}], w.arena,
          w.index - (set h | h in released :: w.arena[h].id),
          w.next,
          w.fired + [set h | h in released && w.arena[h].valid])
  }

  /** A proof helper that only unfolds the body of `RunTimerTask` through `Releases`;
      `RunTimerTaskDestroys` states the same in terms of reference counts. */
  lemma RunTimerTaskReleases(w: Wheel, r: Wheel)
    requires Shaped(w) && r == RunTimerTask(w)
    ensures forall h :: h in r.fired[|w.fired|] <==> Releases(w, r.tick, h) && w.arena[h].valid
    ensures forall h :: Releases(w, r.tick, h) ==> w.arena[h].id !in r.index
    ensures forall id :: id in r.index ==> id in w.index && r.index[id] == w.index[id]
    ensures forall id :: id in w.index && id !in r.index ==>
      exists h :: Releases(w, r.tick, h) && w.arena[h].id == id
  {
  }

  // ---------------------------------------------------------------------------
  // Every operation keeps the wheel well formed

  /** `timer_add` gives the new task exactly one strong reference and leaves every
      other count alone. */
  lemma TimerAddPreserves(w: Wheel, id: Id, interval: nat, callback: Callback)
    requires WellFormed(w)
    ensures WellFormed(TimerAdd(w, id, interval, callback))
    ensures interval > 0 ==> Occurrences(TimerAdd(w, id, interval, callback).slots, w.next) == 1
    ensures forall g :: g in w.arena ==>
      Occurrences(TimerAdd(w, id, interval, callback).slots, g) == Occurrences(w.slots, g)
  {
    if interval > 0 {
      var h, pos := w.next, TargetSlot(w, interval);
      assert h !in w.arena;
      assert forall p :: 0 <= p < |w.slots| ==> h !in w.slots[p];
      OccurrencesAbsent(w.slots, h);
      OccurrencesInsert(w.slots, pos, h);
      var r := TimerAdd(w, id, interval, callback);
      assert r.slots == w.slots[pos := w.slots[pos] + multiset{h}];
      forall k, g | 0 <= k < |r.fired| && g in r.fired[k]
        ensures g in r.arena && Occurrences(r.slots, g) == 0 && r.arena[g].valid
      {
        assert g in w.fired[k];
      }
      forall other | other in r.index
        ensures Live(r, r.index[other]) && r.arena[r.index[other]].id == other
      {
        if other != id {
          assert Live(w, w.index[other]);
        }
      }
    }
  }

  lemma RemoveTimerPreserves(w: Wheel, id: Id)
    requires WellFormed(w)
    ensures WellFormed(RemoveTimer(w, id))
  {
  }

  /** `refresh_timer` adds one strong reference to the task the id names, and to no other. */
  lemma RefreshTimerPreserves(w: Wheel, id: Id)
    requires WellFormed(w)
    ensures WellFormed(RefreshTimer(w, id))
    ensures forall g ::
      Occurrences(RefreshTimer(w, id).slots, g)
        == Occurrences(w.slots, g) + (if id in w.index && g == w.index[id] then 1 else 0)
  {
    if id in w.index {
      var r := RefreshTimer(w, id);
      var h := w.index[id];
      var pos := TargetSlot(w, w.arena[h].interval);
      OccurrencesInsert(w.slots, pos, h);
      assert r.slots == w.slots[pos := w.slots[pos] + multiset{h}];
      assert forall g :: Occurrences(w.slots, g) <= Occurrences(r.slots, g);
      forall k, g | 0 <= k < |r.fired| && g in r.fired[k]
        ensures Occurrences(r.slots, g) == 0
      {
        assert g in w.fired[k];
        assert g != h;
      }
    }
  }

  lemma CancelTimerPreserves(w: Wheel, id: Id)
    requires WellFormed(w)
    ensures WellFormed(CancelTimer(w, id))
  {
  }

  /** A tick removes the references the cleared slot held; a task loses its last one
      exactly when the slot released it. */
  lemma RunTimerTaskCounts(w: Wheel, r: Wheel)
    requires Shaped(w) && r == RunTimerTask(w)
    ensures forall h :: Occurrences(r.slots, h) == Occurrences(w.slots, h) - w.slots[r.tick][h]
    ensures forall h :: h in w.arena ==> (Live(r, h) <==> Live(w, h) && !Releases(w, r.tick, h))
  {
    OccurrencesClear(w.slots, r.tick);
    assert r.slots == w.slots[r.tick := multiset{}];
  }

  /** A tick destroys exactly the tasks whose last strong reference sat in the
      cleared slot: the valid ones among them run their callback, and teardown
      erases an id from the index exactly when a task carrying it was destroyed. */
  lemma RunTimerTaskDestroys(w: Wheel, r: Wheel)
    requires Shaped(w) && r == RunTimerTask(w)
    ensures forall h :: h in r.fired[|w.fired|] <==>
      h in w.arena && Live(w, h) && !Live(r, h) && w.arena[h].valid
    ensures forall id :: id in r.index ==> id in w.index && r.index[id] == w.index[id]
    ensures forall id :: id in w.index ==>
      (id !in r.index <==> exists h :: Live(w, h) && !Live(r, h) && w.arena[h].id == id)
  {
    RunTimerTaskCounts(w, r);
    RunTimerTaskReleases(w, r);
    forall h | Releases(w, r.tick, h)
      ensures Live(w, h)
    {
      OccurrencesBound(w.slots, r.tick, h);
    }
  }

  lemma RunTimerTaskPreserves(w: Wheel)
    requires WellFormed(w)
    ensures WellFormed(RunTimerTask(w))
  {
    RunTimerTaskCounts(w, RunTimerTask(w));
    RunTimerTaskReleases(w, RunTimerTask(w));
    RunTimerTaskKeepsLog(w, RunTimerTask(w));
  }

  lemma RunTimerTaskKeepsLog(w: Wheel, r: Wheel)
    requires WellFormed(w) && r == RunTimerTask(w)
    ensures forall k, h :: 0 <= k < |r.fired| && h in r.fired[k] ==>
      h in r.arena && Occurrences(r.slots, h) == 0 && r.arena[h].valid
    ensures forall i, j :: 0 <= i < j < |r.fired| ==> r.fired[i] !! r.fired[j]
  {
    var t := r.tick;
    RunTimerTaskCounts(w, r);
    RunTimerTaskReleases(w, r);
    forall k, h | 0 <= k < |r.fired| && h in r.fired[k]
      ensures h in r.arena && Occurrences(r.slots, h) == 0 && r.arena[h].valid
    {
      if k < |w.fired| {
        assert h in w.fired[k];
      }
    }
    forall i, j | 0 <= i < j < |r.fired|
      ensures r.fired[i] !! r.fired[j]
    {
      if j == |w.fired| {
        forall h | h in r.fired[i]
          ensures h !in r.fired[j]
        {
          assert h in w.fired[i];
        }
      } else {
        assert r.fired[i] == w.fired[i] && r.fired[j] == w.fired[j];
      }
    }
  }

  // ---------------------------------------------------------------------------
  // Sequences of operations

  /** One public call on the wheel; `Advance` is one `run_timer_task`. */
  datatype Op =
    | Schedule(id: Id, interval: nat, callback: Callback)
    | Refresh(id: Id)
    | Cancel(id: Id)
    | Remove(id: Id)
    | Advance

  function Step(w: Wheel, op: Op): (r: Wheel)
    requires Shaped(w)
    ensures Shaped(r)
    ensures |w.fired| <= |r.fired| && r.fired[..|w.fired|] == w.fired
    ensures w.arena.Keys <= r.arena.Keys
    // a task marked invalid never becomes valid again
    ensures forall h :: h in w.arena && !w.arena[h].valid ==> !r.arena[h].valid
  {
    match op
    case Schedule(id, interval, callback) => TimerAdd(w, id, interval, callback)
    case Refresh(id) => RefreshTimer(w, id)
    case Cancel(id) => CancelTimer(w, id)
    case Remove(id) => RemoveTimer(w, id)
    case Advance => RunTimerTask(w)
  }

  /** An indexed id names the newest task ever created with that id: every call
      either indexes a fresh task, whose handle exceeds all earlier ones, or leaves
      the surviving index entries and the tasks' ids as they were. */
  ghost predicate IndexNamesNewest(w: Wheel)
  {
    forall id, g :: id in w.index && g in w.arena && w.arena[g].id == id ==> g <= w.index[id]
  }

  lemma StepKeepsNewest(w: Wheel, op: Op)
    requires Shaped(w) && IndexNamesNewest(w)
    ensures IndexNamesNewest(Step(w, op))
  {
    match op
    case Schedule(id, interval, callback) =>
    case Refresh(id) =>
    case Cancel(id) =>
    case Remove(id) =>
    case Advance => RunTimerTaskReleases(w, RunTimerTask(w));
  }

  /** Every call sequence from a state whose index names the newest tasks keeps it so;
      the constructor's empty index does. */
  lemma {:induction false} RunKeepsNewest(w: Wheel, ops: seq<Op>)
    requires Shaped(w) && IndexNamesNewest(w)
    ensures IndexNamesNewest(Run(w, ops))
    decreases |ops|
  {
    if |ops| > 0 {
      StepKeepsNewest(w, ops[0]);
      RunKeepsNewest(Step(w, ops[0]), ops[1..]);
    }
  }

  lemma StepPreserves(w: Wheel, op: Op)
    requires WellFormed(w)
    ensures WellFormed(Step(w, op))
  {
    match op
    case Schedule(id, interval, callback) => TimerAddPreserves(w, id, interval, callback);
    case Refresh(id) => RefreshTimerPreserves(w, id);
    case Cancel(id) => CancelTimerPreserves(w, id);
    case Remove(id) => RemoveTimerPreserves(w, id);
    case Advance => RunTimerTaskPreserves(w);
  }

  /** The wheel after a sequence of calls; the log only grows. */
  function Run(w: Wheel, ops: seq<Op>): (r: Wheel)
    requires Shaped(w)
    ensures Shaped(r)
    ensures |w.fired| <= |r.fired| && r.fired[..|w.fired|] == w.fired
    ensures w.arena.Keys <= r.arena.Keys
    decreases |ops|
  {
    if |ops| == 0 then w else Run(Step(w, ops[0]), ops[1..])
  }

  /** Every reachable state is well formed; in particular no task appears twice in
      the log, so a callback runs at most once. */
  lemma {:induction false} RunPreserves(w: Wheel, ops: seq<Op>)
    requires WellFormed(w)
    ensures WellFormed(Run(w, ops))
    ensures forall i, j :: 0 <= i < j < |Run(w, ops).fired| ==>
      Run(w, ops).fired[i] !! Run(w, ops).fired[j]
    decreases |ops|
  {
    if |ops| > 0 {
      StepPreserves(w, ops[0]);
      RunPreserves(Step(w, ops[0]), ops[1..]);
    }
  }

  lemma {:induction false} RunAppend(w: Wheel, a: seq<Op>, b: seq<Op>)
    requires Shaped(w)
    ensures Run(w, a + b) == Run(Run(w, a), b)
    decreases |a|
  {
    if |a| > 0 {
      assert (a + b)[0] == a[0];
      assert (a + b)[1..] == a[1..] + b;
      RunAppend(Step(w, a[0]), a[1..], b);
    } else {
      assert a + b == b;
    }
  }

  /** A task marked invalid never fires, whatever calls follow. */
  lemma {:induction false} InvalidNeverFires(w: Wheel, ops: seq<Op>, h: Handle)
    requires WellFormed(w)
    requires h in w.arena && !w.arena[h].valid
    ensures h in Run(w, ops).arena && !Run(w, ops).arena[h].valid
    ensures forall k :: 0 <= k < |Run(w, ops).fired| ==> h !in Run(w, ops).fired[k]
    decreases |ops|
  {
    if |ops| > 0 {
      StepPreserves(w, ops[0]);
      InvalidNeverFires(Step(w, ops[0]), ops[1..], h);
    } else {
      assert Run(w, ops) == w;
    }
  }

  /** `cancel_timer` on an indexed id: the task it names never runs its callback. */
  lemma CancelSuppresses(w: Wheel, id: Id, ops: seq<Op>)
    requires WellFormed(w)
    requires id in w.index
    ensures forall k :: 0 <= k < |Run(w, [Cancel(id)] + ops).fired| ==>
      w.index[id] !in Run(w, [Cancel(id)] + ops).fired[k]
  {
    RunAppend(w, [Cancel(id)], ops);
    var c := Run(w, [Cancel(id)]);
    assert c == Run(CancelTimer(w, id), []);
    CancelTimerPreserves(w, id);
    InvalidNeverFires(c, ops, w.index[id]);
  }

  /** Cancelling twice is the same as cancelling once. */
  lemma CancelIdempotent(w: Wheel, id: Id)
    requires Shaped(w)
    ensures CancelTimer(CancelTimer(w, id), id) == CancelTimer(w, id)
  {
  }
}
