# A verified model of the muduo timing wheel, buffer and channel

This project models three pieces of a small reactor-style network library written
in C++, and proves properties of them in Dafny.

- **The timing wheel** (`muduo/test/timer/timewheel.cpp`, classes `TimerTask` and
  `TimerWheel`). A wheel of `capacity` slots and a cursor `tick` schedules
  callbacks by reference counting. Each slot holds `shared_ptr`s to tasks, and an
  id index holds `weak_ptr`s to them. When `run_timer_task` clears the slot under
  the advanced cursor, every task that has lost its last strong reference is
  destroyed. Its destructor runs the callback unless `cancel_timer` marked the task
  invalid. It then erases the task's id from the index. `refresh_timer` postpones
  a task by adding one more strong reference further ahead.
- **The buffer** (`muduo/src/buffer.hpp`, class `Buffer`). A byte vector with a
  read index and a write index. `ensure_writeable` makes room at the back by
  moving the readable bytes to the front, or by growing the vector.
- **The channel** (`muduo/src/channel.hpp`, class `Channel`). The epoll interest
  mask of one descriptor, the mask epoll reported, and the rule by which
  `handle_event` picks the callbacks to run.

## How the model is built

- `timer_wheel.dfy` (module `TimingWheel`) models the wheel's state and operations.
  - Shared ownership becomes an explicit arena. Every task ever created has a
    handle (drawn from a counter `next`) and an arena entry.
  - A task's strong reference count is the number of slot entries naming it
    (`Occurrences`). The slots hold the only owning pointers.
  - A task whose count drops to zero is destroyed, but its arena entry stays so
    that the log of fired callbacks keeps its meaning.
  - `fired` is that log: one set of handles per `run_timer_task`. Teardown order
    inside one cleared slot is unspecified, so the entry is a set.
  - `WellFormed` is the invariant of the states reachable from the constructor.
    Among its conditions, every indexed weak pointer can be locked.
  - `Shaped` is the weaker structural part that the operations need in order to
    be defined.
- `timer_firing.dfy` (module `TimerFiring`) covers when tasks fire.
  - `Ticks(w, n)` is `n` calls of `run_timer_task`.
  - `DueAt(w, h, d)` says the farthest slot referencing task `h` is `d` ticks away.
  - The lemmas show that a task due in `d` ticks fires on exactly the `d`-th tick,
    and only if it is still valid. They also show how `timer_add`, `refresh_timer`
    and `cancel_timer` set or keep due times.
- `timer_scenario.dfy` (module `TimerScenario`) replays the source's `main`. It
  starts from a default wheel, adds three timers, and ticks. Further scenarios
  cancel or refresh a timer.
- `buffer.dfy` (module `Buffers`) models the buffer. It is a value with the
  storage as `seq<char>` and the two indices. `begin_read` and `begin_write` are
  positions in that sequence.
- `channel.dfy` (module `Channels`) models the channel.
  - The masks are `bv32` words with the Linux `<sys/epoll.h>` bit values.
  - A callback is modelled only by whether it is set.
  - `HandleEvent` returns the sequence of callbacks `handle_event` runs.

### Teardown and re-used ids

A task's release function is `remove_timer(id)` (`timewheel.cpp:28`, `62`, `71-78`).
It erases the index entry for `id` whichever task that entry names at the time, not
only when the entry still names the dying task. The model follows the code, and
`TimerFiring.TeardownOrphansNewerTask` shows the consequence. If an id is added again
while its older task is still scheduled, and the older task is due first, the older
task's teardown removes the newer task from the index. The newer task stays
scheduled and will still fire, but `refresh_timer` and `cancel_timer` can no longer
reach it. If the newer task is due first, its own teardown erases the id, and the
older task's `remove_timer` later finds nothing to erase.

What the index does keep is that an indexed id always names the newest task created
with that id (`TimingWheel.RunKeepsNewest`).

## Model

| member | source | states |
|---|---|---|
| `TimingWheel.New` | muduo/test/timer/timewheel.cpp:51-52 | The constructor gives `capacity` empty slots, the cursor at `tick` reduced modulo the capacity, no task, an empty index and an empty log. The result satisfies the reachable-state invariant, and its empty index trivially names the newest tasks. |
| `TimingWheel.NewCursor` | muduo/test/timer/timewheel.cpp:51-52 | Reducing the tick at construction changes nothing the wheel does: every target slot and the first cursor move are those the unreduced tick gives. |
| `TimingWheel.TimerTask.SetInvalid` | muduo/test/timer/timewheel.cpp:38 | The task becomes invalid, and its id, interval and callback are unchanged. |
| `TimingWheel.TargetSlot` | muduo/test/timer/timewheel.cpp:65 | The slot chosen for an interval is a slot of the wheel. |
| `TimingWheel.TimerAdd` | muduo/test/timer/timewheel.cpp:54-69 | A zero interval changes nothing. Otherwise a fresh valid task with the given id, interval and callback gets exactly one entry, in slot `(tick + interval) mod capacity`. The index maps `id` to the new task, replacing any older entry. Every other slot, task and index entry is unchanged. |
| `TimingWheel.RemoveTimer` | muduo/test/timer/timewheel.cpp:71-78 | `id` leaves the index, and every other index entry and all wheel state are unchanged. An absent id is a no-op. |
| `TimingWheel.RefreshTimer` | muduo/test/timer/timewheel.cpp:80-91 | For an indexed id, one more entry of the same task goes into the slot `interval` ahead of the cursor. Existing entries, tasks and the index are unchanged. An unindexed id is ignored. |
| `TimingWheel.CancelTimer` | muduo/test/timer/timewheel.cpp:99-108 | For an indexed id, only the named task becomes invalid, and no slot or index entry changes. An unindexed id is ignored. |
| `TimingWheel.RunTimerTask` | muduo/test/timer/timewheel.cpp:93-97 | The cursor advances by one modulo the capacity and that slot is emptied. Every other slot and the arena are unchanged. Exactly one entry is appended to the log. |
| `TimingWheel.RunTimerTaskDestroys` | muduo/test/timer/timewheel.cpp:23-29 | In terms of reference counts: the new log entry holds exactly the valid tasks that were alive before the tick and are not alive after it. An id leaves the index exactly when a task carrying it was destroyed by this tick, and no other index entry changes. |
| `TimingWheel.RunTimerTaskCounts` | muduo/test/timer/timewheel.cpp:95-96 | Clearing the slot drops exactly the references it held. A task stops being alive exactly when the cleared slot held all its references. |
| `TimingWheel.TimerAddPreserves` | muduo/test/timer/timewheel.cpp:54-69 | `timer_add` keeps the invariant. The new task has exactly one strong reference, and every other task's count is unchanged. |
| `TimingWheel.RemoveTimerPreserves` | muduo/test/timer/timewheel.cpp:71-78 | `remove_timer` keeps the invariant. |
| `TimingWheel.RefreshTimerPreserves` | muduo/test/timer/timewheel.cpp:80-91 | `refresh_timer` keeps the invariant, and adds one strong reference to the indexed task and none to any other. |
| `TimingWheel.CancelTimerPreserves` | muduo/test/timer/timewheel.cpp:99-108 | `cancel_timer` keeps the invariant. |
| `TimingWheel.RunTimerTaskPreserves` | muduo/test/timer/timewheel.cpp:93-97 | `run_timer_task` keeps the invariant. In particular, every index entry can still be locked afterwards. |
| `TimingWheel.RunTimerTaskKeepsLog` | muduo/test/timer/timewheel.cpp:23-26 | After a tick, every logged task is destroyed and was valid. No task appears in two log entries. |
| `TimingWheel.Step` | muduo/test/timer/timewheel.cpp:54-108 | For any public call, the log only grows, no task leaves the arena, and an invalid task never becomes valid again. |
| `TimingWheel.StepKeepsNewest` | muduo/test/timer/timewheel.cpp:54-108 | Every public call keeps the property that an indexed id names the newest task ever created with that id. |
| `TimingWheel.RunKeepsNewest` | muduo/test/timer/timewheel.cpp:48-116 | Every sequence of calls keeps that property, so it holds in every state reachable from the constructor. |
| `TimingWheel.RunPreserves` | muduo/test/timer/timewheel.cpp:48-116 | Every state reachable by any sequence of calls is well formed. No task appears twice in the log, so each task's callback runs at most once. |
| `TimingWheel.InvalidNeverFires` | muduo/test/timer/timewheel.cpp:23-26 | A task marked invalid stays invalid and never appears in the log, whatever calls follow. |
| `TimingWheel.CancelSuppresses` | muduo/test/timer/timewheel.cpp:99-108 | After `cancel_timer` on an indexed id, the task it named never runs its callback, whatever calls follow. |
| `TimingWheel.CancelIdempotent` | muduo/test/timer/timewheel.cpp:106-107 | Cancelling twice is the same as cancelling once. |
| `TimerFiring.TicksCursor` | muduo/test/timer/timewheel.cpp:95 | After `n` ticks the cursor is `n` slots further, modulo the capacity. |
| `TimerFiring.TargetSlotReached` | muduo/test/timer/timewheel.cpp:65 | After `interval` ticks the cursor stands on the slot chosen for that interval, and that tick has just cleared it. |
| `TimerFiring.TicksUntilReaches` | muduo/test/timer/timewheel.cpp:95 | After `TicksUntil(tick, slot)` ticks the cursor is on `slot`, and it is there after no smaller positive number of ticks. |
| `TimerFiring.TicksUntilOffset` | muduo/test/timer/timewheel.cpp:65 | The slot chosen for an interval is reached after `((interval - 1) mod capacity) + 1` ticks. That is exactly `interval` ticks when the interval fits in the wheel. |
| `TimerFiring.Ticks` | muduo/test/timer/timewheel.cpp:130-135 | `n` ticks append exactly `n` log entries and keep the older ones. They create and change no task. |
| `TimerFiring.TickKeepsPending` | muduo/test/timer/timewheel.cpp:93-97 | A task due in more than one tick survives the next tick and is then due one tick sooner. It is not in the new log entry. |
| `TimerFiring.TickFires` | muduo/test/timer/timewheel.cpp:23-29 | A live task whose references are all in the next slot is destroyed by the next tick. It is logged exactly when it is still valid, and its id leaves the index. |
| `TimerFiring.TicksKeepPending` | muduo/test/timer/timewheel.cpp:93-97 | Before its due time a task stays alive, and each tick brings it one tick closer. |
| `TimerFiring.TicksKeepSilent` | muduo/test/timer/timewheel.cpp:93-97 | Before its due time a task appears in none of the new log entries. |
| `TimerFiring.TicksSkipInvalid` | muduo/test/timer/timewheel.cpp:25-26 | An invalid task appears in none of the log entries of any number of ticks. |
| `TimerFiring.FiresAt` | muduo/test/timer/timewheel.cpp:23-29 | A task due in `d` ticks is in the `d`-th tick's log entry exactly when it is valid. |
| `TimerFiring.SilentBefore` | muduo/test/timer/timewheel.cpp:93-97 | A task due in `d` ticks is in none of the first `d - 1` new log entries. |
| `TimerFiring.DestroyedAt` | muduo/test/timer/timewheel.cpp:23-29 | After its due time a task is destroyed and its id is gone from the index. |
| `TimerFiring.FiresExactlyOnce` | muduo/test/timer/timewheel.cpp:93-97 | In a reachable state, over any `n >= d` ticks, a task due in `d` ticks appears in a log entry exactly when that entry is the `d`-th tick's and the task is valid. |
| `TimerFiring.LogNamesTasks` | muduo/test/timer/timewheel.cpp:23-26 | The log only ever names tasks that existed before the ticks started; a direct corollary of the invariant `TicksPreserve` keeps. |
| `TimerFiring.TimerAddDue` | muduo/test/timer/timewheel.cpp:65-67 | `timer_add` with a positive interval creates a live task due after `((interval - 1) mod capacity) + 1` ticks. |
| `TimerFiring.TimerAddFiresOnce` | muduo/test/timer/timewheel.cpp:54-69 | With no other call in between, a task added with a positive interval runs on exactly the `((interval - 1) mod capacity) + 1`-th tick after `timer_add`, and on no other tick. |
| `TimerFiring.TimerAddKeepsDue` | muduo/test/timer/timewheel.cpp:54-69 | `timer_add` leaves every existing task and its due time unchanged. |
| `TimerFiring.RefreshTimerDue` | muduo/test/timer/timewheel.cpp:87-90 | After `refresh_timer`, the task is due at the later of its old due time and the slot just added. |
| `TimerFiring.RefreshTimerKeepsDue` | muduo/test/timer/timewheel.cpp:80-91 | `refresh_timer` leaves every other task's due time unchanged. |
| `TimerFiring.CancelTimerKeepsDue` | muduo/test/timer/timewheel.cpp:106-107 | `cancel_timer` moves no reference, so no due time changes. Only the named task loses its validity. |
| `TimerFiring.TicksNeverRevive` | muduo/test/timer/timewheel.cpp:93-97 | Ticks only destroy tasks: a task alive after any number of ticks was alive before them. |
| `TimerFiring.TickKeepsIndexed` | muduo/test/timer/timewheel.cpp:71-78 | An indexed task that is the only live task carrying its id stays indexed through a tick before its due time. Dead tasks with the same id, such as an earlier timer that already fired, do not matter. |
| `TimerFiring.TicksKeepIndexed` | muduo/test/timer/timewheel.cpp:71-78 | Such a task stays indexed until its due time. |
| `TimerFiring.TeardownOrphansNewerTask` | muduo/test/timer/timewheel.cpp:71-78 | Tearing down an older task erases its id even when the index names a newer task. The newer task stays scheduled, but `refresh_timer` and `cancel_timer` no longer reach it. |
| `TimerScenario.NewIsPristine` | muduo/test/timer/timewheel.cpp:121 | The default wheel has 60 slots, its cursor at 0, and no task. |
| `TimerScenario.MainAddsReady` | muduo/test/timer/timewheel.cpp:121-128 | After the default wheel of `main` and its three adds, the timers have handles 0, 1 and 2 and are due after 5, 2 and 15 ticks. |
| `TimerScenario.MainFiringOrder` | muduo/test/timer/timewheel.cpp:121-135 | Over the first 15 ticks, timer 2 runs on tick 2, timer 1 on tick 5 and timer 3 on tick 15. Each runs exactly once. |
| `TimerScenario.MainRunsNothingElse` | muduo/test/timer/timewheel.cpp:121-135 | Only the three timers' callbacks ever run. |
| `TimerScenario.MainCancelled` | muduo/test/timer/timewheel.cpp:99-108 | Cancelling timer 2 after the adds makes it invalid. Timer 1 stays valid, and neither due time moves. |
| `TimerScenario.MainCancel` | muduo/test/timer/timewheel.cpp:99-108 | After that cancel, over any number of ticks, timer 2 never runs, and timer 1 runs on tick 5 and on no other tick. |
| `TimerScenario.MainSoleCarrier` | muduo/test/timer/timewheel.cpp:121-128 | After the three adds, timer 2's task is indexed and is the only live task with id 2. |
| `TimerScenario.MainRefreshed` | muduo/test/timer/timewheel.cpp:80-91 | Refreshing timer 2 after one tick makes it due two ticks later. |
| `TimerScenario.MainRefresh` | muduo/test/timer/timewheel.cpp:80-91 | That refresh moves timer 2's run from the second tick to the third. |
| `Buffers.New` | muduo/src/buffer.hpp:13 | A new buffer has `initSize` zero bytes, both indices at 0, and nothing readable. |
| `Buffers.DefaultHasRoom` | muduo/src/buffer.hpp:7-13 | A default buffer has 1024 bytes of back free space. Making room for up to that many bytes changes nothing, and making room for more grows the storage to exactly the length asked for. |
| `Buffers.BeginRead` | muduo/src/buffer.hpp:17 | The readable data starts at the read position. |
| `Buffers.BeginWrite` | muduo/src/buffer.hpp:15 | The write position is where the readable data ends and where the back free space begins. |
| `Buffers.HeadFreeSize` | muduo/src/buffer.hpp:19 | The head free space, the readable data and the back free space together cover the storage. |
| `Buffers.BackFreeSize` | muduo/src/buffer.hpp:21 | The back free space runs from the write index to the end of the storage. |
| `Buffers.ReadableSize` | muduo/src/buffer.hpp:23 | The readable size is the length of the readable data. |
| `Buffers.WriteableSize` | muduo/src/buffer.hpp:25 | The writeable size is all the storage the readable data does not occupy. |
| `Buffers.MoveReadOff` | muduo/src/buffer.hpp:27-31 | Consuming `len <= readable` bytes keeps the invariant and the storage. The old readable data is the consumed `len` bytes followed by the new readable data. |
| `Buffers.MoveWriteOff` | muduo/src/buffer.hpp:33-37 | Committing `len <= back free` bytes keeps the invariant and the storage. The readable data grows by exactly the `len` bytes after the old write index. |
| `Buffers.Compact` | muduo/src/buffer.hpp:44-51 | Moving the data to the front keeps the readable data and the storage size. The read index becomes 0, and the back free space becomes the old writeable size. |
| `Buffers.Grow` | muduo/src/buffer.hpp:52-56 | Growing resizes the storage to `write + len` bytes. It keeps the old bytes and both indices, and so keeps the readable data. |
| `Buffers.EnsureWriteable` | muduo/src/buffer.hpp:39-57 | Afterwards there are at least `len` bytes of back free space, and the readable data and its size are unchanged. Nothing changes if the back space already suffices. The storage grows exactly when the free space at both ends together is short, and then to exactly `write + len` bytes with the indices kept. Otherwise it compacts to the front without growing. |
| `Buffers.EnsureWriteableIdempotent` | muduo/src/buffer.hpp:41-43 | A second `ensure_writeable` for the same length changes nothing. |
| `Buffers.MoveReadOffAdditive` | muduo/src/buffer.hpp:27-31 | Consuming `m` and then `n` bytes is consuming `m + n` bytes. |
| `Buffers.AppendKeepsOrder` | muduo/src/buffer.hpp:39-57 | Making room for `len` bytes and committing them keeps the old readable data first and adds exactly `len` bytes. |
| `Buffers.ReadAfterAppend` | muduo/src/buffer.hpp:27-37 | After that append, consuming the old readable bytes leaves exactly the `len` new bytes, which follow the old data: the buffer is first in, first out. |
| `Channels.New` | muduo/src/channel.hpp:10 | A new channel keeps its descriptor, watches nothing (no bit of its interest mask is set, so read and write are disabled), has no reported event, and has no callback set. |
| `Channels.SetRevents` | muduo/src/channel.hpp:13 | Recording the reported mask changes nothing else. |
| `Channels.SetCallback` | muduo/src/channel.hpp:15-19 | Setting a callback slot changes only that slot: it is set exactly when the function given is non-empty. |
| `Channels.ReadEnabled` | muduo/src/channel.hpp:21 | Reading is enabled exactly when the IN bit of the interest mask is set. |
| `Channels.WriteEnabled` | muduo/src/channel.hpp:22 | Writing is enabled exactly when the OUT bit of the interest mask is set. |
| `Channels.EnableRead` | muduo/src/channel.hpp:24 | Afterwards reading is enabled. Every other bit, including the write interest, is unchanged. |
| `Channels.EnableWrite` | muduo/src/channel.hpp:25 | Afterwards writing is enabled. Every other bit, including the read interest, is unchanged. |
| `Channels.DisableRead` | muduo/src/channel.hpp:27 | Afterwards reading is disabled. Every other bit, including the write interest, is unchanged. |
| `Channels.DisableWrite` | muduo/src/channel.hpp:28 | Afterwards writing is disabled. Every other bit, including the read interest, is unchanged. |
| `Channels.DisableAll` | muduo/src/channel.hpp:29 | Afterwards no bit of the interest mask is set, so reading and writing are both disabled. |
| `Channels.ReadingCalls` | muduo/src/channel.hpp:35-43 | On IN, RDHUP or PRI, the read callback runs if set, and before anything else. The any-event callback runs once when set, last. Nothing else runs in this branch, and without those bits nothing runs. |
| `Channels.ReportCalls` | muduo/src/channel.hpp:45-65 | OUT runs the write callback first and the any-event callback last, each once if set, and nothing else. Only without OUT does ERR run the error callback. Only without OUT and ERR does HUP run the close callback. No callback runs twice and unset callbacks are skipped. |
| `Channels.HandleEvent` | muduo/src/channel.hpp:32-66 | Each callback runs exactly under its condition: read on IN, RDHUP or PRI, and first; write on OUT; error on ERR without OUT; close on HUP without OUT or ERR. Unset callbacks never run, and at most four calls are made. |
| `Channels.HandleEventAny` | muduo/src/channel.hpp:40-53 | The any-event callback runs once for the reading branch and once for OUT. An error or a hang-up alone never runs it. Error and close never both run. |
| `Channels.HandleEventOnce` | muduo/src/channel.hpp:32-66 | Every callback except the any-event one runs at most once. |
| `Channels.HandleEventReadOrder` | muduo/src/channel.hpp:35-43 | In the reading branch the any-event callback comes directly after the read callback, or first when no read callback is set. |
| `Channels.HandleEventWriteOrder` | muduo/src/channel.hpp:45-54 | On OUT the any-event callback comes last, with the write callback directly before it. |
| `Channels.DisableReadUndoesEnable` | muduo/src/channel.hpp:24-27 | Disabling the read interest after enabling it gives the same channel as disabling it directly. |
| `Channels.DisableWriteUndoesEnable` | muduo/src/channel.hpp:25-28 | Disabling the write interest after enabling it gives the same channel as disabling it directly. |
| `Channels.EnableCommutes` | muduo/src/channel.hpp:24-25 | Enabling read and write in either order gives the same channel. |
| `Channels.HangUpShadowed` | muduo/src/channel.hpp:55-65 | A hang-up reported together with an error, or with writability, never reaches the close callback. |
| `Channels.QuietChannel` | muduo/src/channel.hpp:32-66 | With nothing reported, no callback runs. |

## Left out

- Logging, sockets, the kernel timer demo and the infinite `sleep(1)` loop of `main` are not modelled. Ticks are explicit `run_timer_task` steps (`Ticks`).
- Callbacks are opaque: a timer callback is a `string` token, and the model records which task's callback ran (the `fired` log), not what it does.
- Callbacks that re-enter the wheel during teardown are not modelled. The source would then dereference an unchecked `lock()` result at `refresh_timer` and `cancel_timer`. The model instead proves, as part of `WellFormed`, that every indexed weak pointer can be locked in every reachable state.
- The order in which tasks of one cleared slot are destroyed is unspecified in the source, so each log entry is a set of tasks.
- Integer widths: ids and intervals (`uint64_t`), the cursor and capacity (`int`), and the buffer's `size_t` indices are unbounded naturals. Overflow of `tick_ + interval` or `write_index_ + len` is not modelled. The channel masks are exact 32-bit words.
- `TimingWheel.New` requires `capacity > 0`, which the source does not check: with a zero capacity the slot expressions `(tick_ + interval) % capacity_` in `timer_add` and `refresh_timer` and `(tick_ + 1) % capacity_` in `run_timer_task` divide by zero. A negative capacity or tick cannot be expressed, since both are naturals. Any other tick is accepted and stored reduced modulo the capacity; the source stores it as given, but only ever reads it modulo the capacity (`NewCursor`).
- An empty task callback is not modelled. The destructor of a valid task calls `task_()` without checking it, and an empty `std::function` throws there, which ends the program inside a destructor.
- Destruction of the wheel itself is not modelled. The index is destroyed before the slots, so tasks still scheduled then run their callbacks if valid, and their release functions call `remove_timer` on an index that no longer exists.
- `Channels.HandleEvent` reads the callbacks and the reported mask once, on entry. The source tests `event_callback_` and `revents_` again after each callback, so a callback that changes its own channel can change which callbacks run next; that is not modelled.
- The wheel operations require `Shaped`, and the lemmas require `WellFormed`. Both hold of every state reachable from the constructor (`RunPreserves`).
- `TimerTask::set_release` and `TimerTask::interval` are not separate members. The release function is always `remove_timer(id)`, which the model applies directly at teardown. The interval is the arena entry's field.
- `Buffers.MoveReadOff` and `Buffers.MoveWriteOff` require the conditions the source only `assert`s. A release build without those checks would move an index out of range; that is not modelled.
- Pointer invalidation by `buffer_.resize` is not modelled: `begin_read` and `begin_write` are positions, not addresses.
- `Buffers.BeginWrite`, `Buffers.BeginRead` and `Buffers.EnsureWriteable` give a position for every valid buffer, including the end of the storage. The source takes `&buffer_[write_index_]` (and `&buffer_[read_index_]`), which indexes one past the last element when that index equals the size. The compaction branch of `ensure_writeable` does this whenever the back free space is zero. An unchecked standard library yields the end pointer, which agrees with the model; a bounds-checking build aborts there, and that outcome is not modelled.
- `write`, `read`, `write_string`, `read_string`, `find_crlf` and `clear` are exercised by the buffer test program but are not part of `buffer.hpp`, so they are not modelled.
- `Channel::fd` is a plain accessor and is kept as the `fd` field. Which callback object is installed is not modelled, only whether a slot is set.
