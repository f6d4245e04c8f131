# rtic — a verified model of the run-to-completion scheduler core

rtic is a tiny C scheduler for embedded systems. A *loop* (`rtic_loop`) owns
the head of a singly linked queue of caller-owned *tasks* (`rtic_task`),
linked through `task->next` and kept in due-time order. Three operations act
on it:

- `rtic_schedule` takes a task off the queue and stores a new due time,
  callback, context and flags. It then links the task in front of the first
  task due strictly after it.
- `rtic_cancel` takes a task off the queue.
- `rtic_step` makes one pass of the run loop at tick `now`. It reports the tick
  to sleep until, or it unlinks the head task and calls its callback.

Times are 32-bit tick counts that wrap. They are compared through
`rtic_tdiff`, the difference `y - x` read as a signed 32-bit value. A family
of macros converts between ticks and micro-, milli- and whole seconds at a
configurable `RTIC_TICKS_PER_SEC`, which must lie in [10000, 64516].

The project has five modules, one file each:

- `Ticks` (`ticks.dfy`): uint32/int32 arithmetic written out as integer
  functions with explicit wrap-around. It also holds `rtic_tdiff`,
  `rtic_after` and `rtic_before`. Its lemmas characterise the distance and
  the comparisons. It also covers `ticks_extend` of example.c, which widens
  a tick to 64 bits.
- `TickConversions` (`conversions.dfy`): every conversion macro as a
  function. The tick rate is a subset type that enforces the header's
  `#error` range. Lemmas prove what each macro computes (floor, ceiling,
  nearest), how the three roundings relate, and that round trips never
  overshoot.
- `QueueOrder` (`queue_order.dfy`): the queue's specification on plain
  sequences.
  - `Without(q, t)` is the queue with a task dropped.
  - `InsertAt(q, k, t)` links a task in at position k.
  - `InsertionIndex(dues, when)` is where `rtic_schedule` links a task due
    at `when`.
  - Sortedness is stated within a horizon: every due time lies in
    [base, base + 2^31) for a reference tick `base`. The wrapping comparison
    is not transitive over the whole circle, so the model claims no global
    order.
- `Scheduler` (`scheduler.dfy`): `Task` and `Loop` are classes with the C
  structs' fields.
  - A ghost sequence `Loop.Queue` lists the linked tasks from the head.
  - `Loop.Valid()` says that `queue` heads a null-terminated `next` chain
    visiting exactly those tasks, all bound to this loop.
  - The C functions are methods with loops and invariants. The
    pointer-to-pointer walk `rtic_task** pnext` is modelled by the task
    holding the link, `prev`, where `null` names the loop's own `queue`
    field.
  - Each method is proved against the sequence specification of
    `QueueOrder`.
- `Scenario` (`scenario.dfy`): the `scheduletask` regression test of test.c,
  replayed on the model one operation at a time. Every queue order and
  return value the test checks is a contract.

## Model

| member | source | states |
|---|---|---|
| Ticks.TickArithmeticIsModular | rtic.h:46 | The single-wrap forms of uint32 addition of an int32 offset, uint32 subtraction and the int32 reinterpretation are reduction modulo 2^32, i.e. C's conversions |
| Ticks.TDiff | rtic.h:46 | `rtic_tdiff(x, y)` is an int32 d with x + d == y in uint32 arithmetic: the time from x to y |
| Ticks.After | rtic.h:47 | `rtic_after(x, y)`: x is after y, i.e. the distance from x to y is negative. Trichotomy and BeforeAfterConverse relate it to Before and to equality |
| Ticks.Before | rtic.h:48 | `rtic_before(x, y)`: x is before y, i.e. the distance from x to y is positive |
| Ticks.TDiffOffset | rtic.h:46 | For every int32 offset d, the distance from x to x + d (wrapped) is d, so TDiff inverts the offset |
| Ticks.TDiffZeroIffEqual | rtic.h:46 | The distance is zero if and only if the two ticks are equal |
| Ticks.Trichotomy | rtic.h:46-48 | For any two ticks exactly one of `rtic_after(x, y)`, `rtic_before(x, y)` and x == y holds |
| Ticks.TDiffAntisymmetric | rtic.h:46 | Swapping the arguments negates the distance, except at distance -2^31, which maps to itself |
| Ticks.BeforeAfterConverse | rtic.h:46-48 | `before(x, y)` implies `after(y, x)`; the converse fails exactly at distance 2^31, where x and y are each after the other |
| Ticks.DistanceWithinHorizon | rtic.h:46-48 | When both ticks lie in [base, base + 2^31), their distance is the difference of their offsets from base, so before and after agree with the order of the offsets |
| Ticks.ExtendTicks | example.c:38-40 | `ticks_extend`: the reference plus the int32 distance from it to the tick, sign-extended and added modulo 2^64. ExtendTicksNearest states what the result is |
| Ticks.ExtendTicksNearest | example.c:38-40 | `ticks_extend` keeps the tick as the low 32 bits of its result. Away from the ends of the 64-bit range, the result lies at the int32 distance from the reference that `rtic_tdiff` gives |
| TickConversions.TicksPerSec | rtic.h:53-57 | The tick rate: any value in [10000, 64516], the range outside which the header stops compilation with `#error` |
| TickConversions.DEFAULT_TICKS_PER_SEC | rtic.h:53-54 | The rate when none is configured: 32768 ticks per second, inside the allowed range |
| TickConversions.UsToTicks | rtic.h:59 | `rtic_us2ticks`: us·tps/10^6 rounded down, cast to uint32. UsToTicksExact shows the cast never truncates |
| TickConversions.MsToTicks | rtic.h:60 | `rtic_ms2ticks`: ms·tps/1000 rounded down, truncated to uint32. MsToTicksExact states it is the floor when it fits |
| TickConversions.SecToTicks | rtic.h:61 | `rtic_sec2ticks`: sec·tps truncated to uint32. SecToTicksExact states when it is exact |
| TickConversions.UsToTicksCeil | rtic.h:63 | `rtic_us2ticksCeil`: (us·tps + 999999)/10^6, cast to uint32. UsToTicksExact shows it is the ceiling of us·tps/10^6 |
| TickConversions.MsToTicksCeil | rtic.h:64 | `rtic_ms2ticksCeil`: (ms·tps + 999)/1000, truncated to uint32. MsToTicksExact shows it is the ceiling when it fits |
| TickConversions.UsToTicksRound | rtic.h:66 | `rtic_us2ticksRound`: (us·tps + 500000)/10^6, cast to uint32. UsToTicksExact shows it is the nearest tick count, halves up |
| TickConversions.MsToTicksRound | rtic.h:67 | `rtic_ms2ticksRound`: (ms·tps + 500)/1000, truncated to uint32. MsToTicksExact shows it is the nearest when it fits |
| TickConversions.TicksToSec | rtic.h:69 | `rtic_ticks2sec`: ticks/tps rounded down. TicksToSecExact states it |
| TickConversions.TicksToMs | rtic.h:70 | `rtic_ticks2ms`: ticks·1000/tps rounded down. TicksToMsExact states it |
| TickConversions.TicksToUs | rtic.h:71 | `rtic_ticks2us`: ticks·10^6/tps rounded down, truncated to uint32. TicksToUsExact states it while the quotient fits |
| TickConversions.UsToTicksExact | rtic.h:59-66 | For every uint32 µs count (no truncation can occur), `rtic_us2ticks`, `rtic_us2ticksCeil` and `rtic_us2ticksRound` are the floor, ceiling and nearest (halves up) of us·tps/10^6 |
| TickConversions.MsToTicksExact | rtic.h:60-67 | When the quotient fits in 32 bits, `rtic_ms2ticks`, `rtic_ms2ticksCeil` and `rtic_ms2ticksRound` are the floor, ceiling and nearest of ms·tps/1000 |
| TickConversions.SecToTicksExact | rtic.h:61 | `rtic_sec2ticks` is sec·tps while that fits in 32 bits; beyond, it is smaller and congruent modulo 2^32 (the truncated product) |
| TickConversions.TicksToSecExact | rtic.h:69 | `rtic_ticks2sec` is the floor of ticks/tps |
| TickConversions.TicksToMsExact | rtic.h:70 | `rtic_ticks2ms` is the floor of ticks·1000/tps, never truncated at tps ≥ 10000 |
| TickConversions.TicksToUsExact | rtic.h:71 | `rtic_ticks2us` is the floor of ticks·10^6/tps whenever that quotient fits in 32 bits |
| TickConversions.UsFloorRoundCeil | rtic.h:59-66 | floor ≤ round ≤ ceil ≤ floor + 1 for the µs conversions |
| TickConversions.MsFloorRoundCeil | rtic.h:60-67 | floor ≤ round ≤ ceil ≤ floor + 1 for the ms conversions without truncation |
| TickConversions.UsCeilExactIffDivisible | rtic.h:59-63 | `rtic_us2ticksCeil(us) == rtic_us2ticks(us)` if and only if 10^6 divides us·tps |
| TickConversions.MsCeilExactIffDivisible | rtic.h:60-64 | For every uint32 ms, truncation included, `rtic_ms2ticksCeil(ms) == rtic_ms2ticks(ms)` if and only if 1000 divides ms·tps |
| TickConversions.MsRoundTripNoOvershoot | rtic.h:53-70 | For a tick rate in [10000, 64516] and every uint32 ms, truncation included, `rtic_ticks2ms(rtic_ms2ticks(ms)) <= ms` |
| TickConversions.MsCeilRoundTripNoUndershoot | rtic.h:64-70 | Rounding up on the way in makes the way back return at least ms |
| TickConversions.UsRoundTripNoOvershoot | rtic.h:59-71 | `rtic_ticks2us(rtic_us2ticks(us)) <= us` for every uint32 us, with no truncation on the way back |
| TickConversions.SecRoundTrip | rtic.h:61-69 | `rtic_ticks2sec(rtic_sec2ticks(sec)) == sec` while sec·tps fits in 32 bits |
| QueueOrder.Without | rtic.c:13-22 | The queue with the task taken out: the task no longer occurs and the queue does not grow. WithoutAbsent and WithoutAt say what else happens |
| QueueOrder.InsertAt | rtic.c:54-55 | The queue with the task linked in at position k. InsertAtElements states its contents |
| QueueOrder.InsertionIndex | rtic.c:48-53 | Where the walk of `rtic_schedule` stops: a position in the queue or its end. InsertionIndexSpec and InsertionIndexUnique characterise it |
| QueueOrder.WithoutAbsent | rtic.c:15-21 | Removing a task that is not queued leaves the queue unchanged |
| QueueOrder.WithoutAt | rtic.c:15-18 | In a queue without duplicates, removing the task at position i splices out exactly that position; front, middle and back alike |
| QueueOrder.WithoutDistinct | rtic.c:13-22 | Removal keeps the queue free of duplicates |
| QueueOrder.WithoutInsertAt | rtic.c:41-55 | Removing a task that was just linked in, and was not queued before, gives back the old queue: removal inverts insertion |
| QueueOrder.ReinsertKeepsOthers | rtic.c:41-55 | After the remove-then-insert of `rtic_schedule`, the task occurs exactly once, at the insertion position, and the other tasks keep their old relative order |
| QueueOrder.InsertionIndexSpec | rtic.c:48-53 | No task ahead of the insertion position is due strictly after `when` (`!rtic_before(when, e.when)`), and the task at the position, if any, is (`rtic_before(when, e.when)`) |
| QueueOrder.InsertionIndexUnique | rtic.c:48-53 | These two properties determine the insertion position |
| QueueOrder.InsertionIndexSplits | rtic.c:48-55 | Within a horizon, the tasks ahead of the new one are exactly those due no later than it, ties included (FIFO); those behind are exactly those due strictly later |
| QueueOrder.InsertKeepsSorted | rtic.c:48-55 | Inserting at the insertion position keeps a queue sorted within the horizon |
| QueueOrder.RemoveKeepsSorted | rtic.c:13-22 | Removing any one task keeps a sorted queue sorted |
| QueueOrder.HeadIsEarliest | rtic.c:70-72 | In a sorted queue no task is due before the head |
| QueueOrder.NothingDueBehindHead | rtic.c:70-72 | When the head of a queue sorted within a horizon is after a `now` inside that same horizon, every task is, so the step that reports the head's due time leaves nothing due |
| Scheduler.Task.constructor | rtic.h:29-36 | A task initialised as `{ .loop = &loop }`: bound to the loop, unlinked, every other field zero |
| Scheduler.Task.Set | rtic.c:43-46 | The task's due time, callback, context and flags are the given ones |
| Scheduler.Loop.Valid | rtic.h:24-31 | The queue invariant: `queue` heads a null-terminated `next` chain that visits exactly the tasks of `Queue`, once each, all bound to this loop |
| Scheduler.Loop.constructor | rtic.h:24-27 | A loop initialised as `{ .hal = hal }` has an empty, valid queue |
| Scheduler.DuesOfInsertAt | rtic.c:54-55 | Linking a task in at position k puts its due time at position k of the queue's due times |
| Scheduler.DuesOfSplice | rtic.c:17 | Unlinking the task at position i drops the due time at position i |
| Scheduler.ChainIsDistinct | rtic.c:15 | A null-terminated `next` chain visits no task twice, so the walks of `remove_unsafe` and `rtic_schedule` terminate and find a task at most once |
| Scheduler.RescheduleKeepsSorted | rtic.c:36-60 | When the queue is sorted within a horizon and the new due time lies in it, the queue `rtic_schedule` produces is still sorted |
| Scheduler.Unlink | rtic.c:17 | `*pnext = task->next` removes exactly position i from the queue and keeps the loop valid. The task's own `next` is unchanged |
| Scheduler.RemoveUnsafe | rtic.c:13-22 | Returns true if and only if the task was queued. The queue becomes the old queue without the task, the others in their old order, and stays valid. The task's own `next` is unchanged |
| Scheduler.Cancel | rtic.c:24-34 | `rtic_cancel`: the same result and queue as `remove_unsafe`; the queue stays valid and the task's `next` is unchanged |
| Scheduler.Link | rtic.c:54-55 | `task->next = *pnext; *pnext = task` inserts the task at position i and keeps the loop valid |
| Scheduler.FindSlot | rtic.c:48-53 | The walk stops at the insertion position of `when`: `prev` is the task the new one goes behind, or null (the loop's head link) when it goes first |
| Scheduler.Insert | rtic.c:48-55 | An unqueued task is linked in at the insertion position of its due time; the queue's due times gain that due time at that position |
| Scheduler.Enqueue | rtic.c:43-55 | The fields are stored, then the task is linked in at the insertion position of `when` |
| Scheduler.Schedule | rtic.c:36-60 | `rtic_schedule`. It returns true if and only if the task was queued before, and the task's fields equal the arguments. The new queue is the old one without the task, with the task inserted in front of the first task due strictly after `when`. The due times change accordingly, and the queue stays valid |
| Scheduler.Step | rtic.c:62-92 | `rtic_step`, in three cases. With an empty queue it returns now + 0x7fffffff (mod 2^32), calls nothing and changes nothing. When the head is after `now`, it returns the head's due time and changes nothing. Otherwise it removes exactly the head and hands back the head's callback and context, to be invoked with `now`; it returns `now` |
| Scenario.Start | test.c:53-58 | A fresh loop and four tasks bound to it; scheduling t1 at 10 gives [t1] |
| Scenario.AddSecond | test.c:60-62 | t2 at 30 gives [t1, t2] |
| Scenario.AddThird | test.c:64-66 | t3 at 20 gives [t1, t3, t2] |
| Scenario.AddFourth | test.c:68-70 | t4 at -10 gives [t4, t1, t3, t2] across the wrap |
| Scenario.CancelMiddle | test.c:72-74 | Cancelling t1 returns true and gives [t4, t3, t2] |
| Scenario.ReAddMiddle | test.c:76-77 | t1 at 10 again gives [t4, t1, t3, t2] |
| Scenario.CancelFront | test.c:79-81 | Cancelling t4 returns true and gives [t1, t3, t2] |
| Scenario.ReAddFront | test.c:83-84 | t4 at -10 again gives [t4, t1, t3, t2] |
| Scenario.CancelBack | test.c:86-88 | Cancelling t2 returns true and gives [t4, t1, t3] |
| Scenario.ReuseFront | test.c:90-92 | t2 at -20 gives [t2, t4, t1, t3] |
| Scenario.StepEarly | test.c:97-100 | A step at -50 returns -20, dispatches nothing and leaves the queue as it was |
| Scenario.StepOnTime | test.c:102-106 | A step at -20 dispatches t2 with func1 and &rc at -20, returns -20 and leaves [t4, t1, t3] |
| Scenario.StepLate | test.c:108-112 | A step at -5 dispatches t4 with func1 and &rc at -5, returns -5 and leaves [t1, t3] |
| Scenario.StepLateFirst | test.c:114-118 | A step at 50 dispatches t1 with func1 and &rc at 50, returns 50 and leaves [t3] |
| Scenario.StepLateSecond | test.c:119-122 | A step at 50 dispatches t3 with func1 and &rc at 50, returns 50 and leaves the queue empty |
| Scenario.ScheduleTaskReplay | test.c:50-128 | The whole test: the three cancels return true; the six steps return -20, -20, -5, 50, 50 and 100 + 0x7fffffff; and they dispatch nothing, t2, t4, t1, t3 and nothing, the task each time being the one `func1` expects in `rc.task` |

## Left out

- Critical sections: `rtic_hal_enter_critical`/`rtic_hal_exit_critical` (rtic.h:78-79, called at rtic.c:27, 31, 39, 57, 68, 85) guard against interrupts. The model is sequential, so they are no-ops and the loop's `hal` handle is only stored.
- `rtic_hal_now` (rtic.h:80) is a clock: `now` is a parameter of `Step`.
- The callback call `func(now, task, context)` (rtic.c:87-89) runs foreign code. `Step` returns it as an `Invocation` value instead of running it. What the callback does to the queue (for example, rescheduling its own task) is up to its caller.
- Function and context pointers are opaque natural numbers, with 0 for NULL. They are stored and handed back, never dereferenced.
- `flags` is stored by `rtic_schedule` and read nowhere in the core. The model stores it and proves nothing more about it.
- `rtic_ticks2secCeil` (rtic.h:73) adds `OSTICKS_PER_SEC - 1`, a name the header never defines, so any use of it fails to compile. It has no defined meaning to model.
- `ASSERT(task->loop)` (rtic.c:25, 37) aborts on a programming error. It is the precondition `task.loop != null` of `Cancel`, `RemoveUnsafe`, `Enqueue` and `Schedule`.
- Global sortedness of the queue is not claimed, because the wrapping comparison is not transitive over the whole circle. Sortedness is proved within a horizon of 2^31 ticks (`RescheduleKeepsSorted`, `InsertKeepsSorted`, `NothingDueBehindHead`). The local insertion-position properties (`InsertionIndexSpec`) hold with no horizon.
- example.c beyond `ticks_extend` (POSIX clocks, sleeping, printing, timespec conversions) is platform glue and is not modelled. The Criterion test framework is not modelled: the checks it makes in test.c, including `func1`'s check of the dispatched task, become the contracts of `Scenario`.
- The `next` field of a task that leaves the queue is not cleared by `remove_unsafe`. The model keeps it stale too, and `Valid()` constrains only the `next` fields of queued tasks.
- MsToTicksExact: characterises the ms conversions only when the quotient fits in 32 bits. For larger ms·tps, the C macros truncate the quotient to its low 32 bits, which the model computes (`Wrap`) but no lemma describes.
- TicksToUsExact: characterises `rtic_ticks2us` only when the quotient fits in 32 bits. Beyond that (ticks above about 2^32·tps/10^6), the macro truncates.
- The conversion macros take any integer expression and cast it to uint64_t. The model takes a uint32 argument (the callers in example.c pass a uint32 tick or the constant 1), so the 64-bit overflow of the product for wider arguments is not modelled.
- Enqueue, Insert, FindSlot, Link, Unlink and Task.Set are not C functions of their own. They are the named steps of `rtic_schedule` and `remove_unsafe`, split out so that each proof stays small.
