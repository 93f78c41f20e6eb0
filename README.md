# mcu-simple-scheduler core in Dafny

This project models three parts of the MCU simple scheduler (MSS) and proves properties about them.

- **The intrusive linked list library** (`llist.c`), in both builds.
  - The caller owns the objects. Each object embeds its own `next` link, plus `prev` in the doubly linked build.
  - A list header holds `first`, plus `last` in the doubly linked build.
  - Headers come from a fixed table.
  - Each list is modelled as a `class` whose link fields the methods rewrite in place.
  - The ghost sequence `Contents` is the list's abstract value. `Valid()` ties the links to it.
- **The MSP-EXP430FR5739 hardware layer of the scheduler** (`mss_hal.c`):
  - the priority selector over the ready-task bit mask;
  - the counter logic of the tick interrupt and of the tick-skipping sleep.
- **The bookkeeping of the LED boosterpack cascade demo** (`demo_app.c`). This covers the updates that the running-text task and the buzzer task make to their static variables:
  - the matrix-scan index;
  - the text offset and the row;
  - the speed that follows the microphone;
  - the button toggle and the tone index.

The model is split into these files:

- `stdint.dfy` (module `StdInt`): the fixed-width C integer types `int8_t`, `uint8_t` and `uint16_t`.
- `listseq.dfy` (module `ListSeq`): sequence notions the list proofs share. These are distinctness, position of an element, removal at a position and exchange of neighbours.
- `listnodes.dfy` (module `ListNodes`): the singly linked object and the specification of `llist_sort`:
  - adjacent order and full order;
  - stability with respect to the original order;
  - the inversion count that bounds the number of passes;
  - the per-step invariant of a pass.
- `llist.dfy` (module `LinkedList`): the singly linked build.
- `dlist.dfy` (module `DoublyLinkedList`): the doubly linked build, including the three defects found in it.
- `mss_hal.dfy` (module `MssHal`): the FR5739 hardware layer.
- `demo_app.dfy` (module `DemoApp`): the demo's two tasks.

Where source values are not available they become parameters:

- Comparator callbacks become functions from two payloads to `int8`. Check callbacks become functions to `bool`.
- `mss_timer_tick()` becomes a `bool` input of the interrupt.
- The debounced button level and the timer expiries become `bool` inputs of the demo steps.

## Model

| member | source | states |
|---|---|---|
| LinkedList.LList.Add | Sources/llist/llist.c:476-508 | Adding a new object to a consistent singly linked list keeps it consistent. The object ends up first when `first` is set or the list was empty, otherwise last. |
| LinkedList.LList.AddFirst | Sources/llist/llist.c:144-147 | The object becomes the head; the rest of the list follows it unchanged. |
| LinkedList.LList.AddLast | Sources/llist/llist.c:167-170 | The object becomes the tail; the list before it is unchanged. |
| LinkedList.LList.TouchFirst | Sources/llist/llist.c:185-191 | Returns null exactly when the list is empty, otherwise the head. The list is not changed. |
| LinkedList.LList.GetFirst | Sources/llist/llist.c:206-235 | Null exactly for an empty list, which stays as it is. Otherwise it returns the head and the list becomes its tail. |
| LinkedList.LList.Remove | Sources/llist/llist.c:250-288 | A member is unlinked at its position and the rest keep their order. A non-member leaves the list unchanged. Afterwards the object is not in the list. A member loses its one copy from the multiset of objects; for a non-member the multiset is unchanged. The object's own `next` is not changed. |
| LinkedList.LList.Unlink | Sources/llist/llist.c:273-281 | Bypassing the object at position `i` through its predecessor, or through `first` at the head, removes exactly that position. |
| LinkedList.LList.Sort | Sources/llist/llist.c:337-412 | For a comparator whose sign is antisymmetric, the loop ends. The result is a permutation of the list, every neighbour pair is in order, and equal objects keep their original order. The result is fully sorted when the comparator is also transitive. |
| LinkedList.LList.SortPass | Sources/llist/llist.c:353-411 | One pass permutes the list and keeps stability. A pass that swaps strictly lowers the inversion count. A pass that does not swap leaves the list unchanged and proves every neighbour pair ordered. |
| LinkedList.LList.PassStep | Sources/llist/llist.c:365-410 | Swaps exactly when the comparator answers greater than zero. Then moves the three walking pointers on to the next pair. |
| LinkedList.LList.SwapPair | Sources/llist/llist.c:368-387 | Relinking the predecessor (or `first`), `obj2` and `obj1` exchanges positions `k` and `k+1` and keeps the list consistent. |
| LinkedList.LList.Check | Sources/llist/llist.c:430-450 | The callback sees a prefix of the list, in order. Every object before the last one seen was accepted. The walk stops early only right after a rejection. |
| LinkedList.ListTable.Create | Sources/llist/llist.c:81-124 | Returns null exactly when the `uint8_t` counter stands at the table size. Otherwise it returns the header the counter names, emptied, and advances the counter modulo 256. With fewer than 256 headers the counter never wraps, so each header is handed out once, and null comes once all are in use. |
| LinkedList.ListTable.constructor | Sources/llist/llist.c:78-81 | The static table has `MAX_NUM_OF_LLIST` distinct headers, and `num_of_ll` starts at zero, so nothing has been handed out yet. |
| LinkedList.FifoOrder | Sources/llist/llist.c:144-235 | Adding any number of new objects at the tail one by one, then taking the head until the list is empty, returns the objects already there followed by the new ones, in the order they were added. |
| ListNodes.PassAdvance | Sources/llist/llist.c:365-410 | One step of the inner loop keeps the pass invariant. The list stays a permutation and stays stable. The pointers sit at the next pair. The pairs walked so far are ordered unless something was swapped. Each swap lowers the inversion count. |
| ListNodes.SwapInversions | Sources/llist/llist.c:365-387 | Exchanging a neighbour pair that the comparator says is out of order removes exactly one inversion. |
| ListNodes.SwapStable | Sources/llist/llist.c:365 | Only strictly greater pairs are swapped, so the relative order of equal objects is kept. |
| ListNodes.AdjacentSortedIsSorted | Sources/llist/llist.c:412 | When no pass swaps, every neighbour pair is ordered. Under a transitive comparator this makes every pair ordered. |
| DoublyLinkedList.DList.Add | Sources/llist/llist.c:513-551 | With both `next` and `prev` chains consistent, they stay consistent. The object becomes the only one, the head or the tail. |
| DoublyLinkedList.DList.AddFirst | Sources/llist/llist.c:144-147 | The object becomes the head of the doubly linked list. |
| DoublyLinkedList.DList.AddLast | Sources/llist/llist.c:167-170 | The object becomes the tail of the doubly linked list. |
| DoublyLinkedList.DList.GetFirstAsWritten | Sources/llist/llist.c:206-235 | As written, the forward chain and the contents are right. From two objects on, the new head's `prev` still names the object handed out, so the `prev` chain is broken. |
| DoublyLinkedList.DList.GetFirst | Sources/llist/llist.c:206-235 | With the new head's `prev` cleared, both chains stay consistent and the list becomes its tail. The sole object leaves `first` and `last` null. The returned object's own links are not changed. |
| DoublyLinkedList.DList.Remove | Sources/llist/llist.c:289-317 | The member's own links are joined around it, and `first` or `last` move at the ends. Both chains stay consistent and exactly its position is removed. |
| DoublyLinkedList.DList.EndsOfList | Sources/llist/llist.c:293-313 | In a consistent list an object has no successor exactly when it is `last`, and no predecessor exactly when it is `first`. |
| DoublyLinkedList.DList.RemoveChecksAsWrittenFailAtEnds | Sources/llist/llist.c:299-313 | As written, the two checks of `llist_remove` hold exactly when the object is neither the head nor the tail. |
| DoublyLinkedList.DList.RemoveChecksHold | Sources/llist/llist.c:299-313 | The checks as intended (the object is `last` or `first`) hold for every member. |
| DoublyLinkedList.DList.SwapPairAsWritten | Sources/llist/llist.c:365-396 | As written, the doubly linked swap leaves the predecessor pointing at `obj1` and the successor's `prev` at `obj2`. At the tail, `last` stays at `obj2`. |
| DoublyLinkedList.DList.SwapPair | Sources/llist/llist.c:365-396 | With the neighbours and `first`/`last` relinked too, the swap exchanges positions `k` and `k+1` and keeps both chains consistent. |
| DoublyLinkedList.DListTable.Create | Sources/llist/llist.c:81-124 | Returns null exactly when the `uint8_t` counter stands at the table size. Otherwise it returns the header the counter names, with `first` and `last` cleared, and advances the counter modulo 256. With fewer than 256 headers each header is handed out once. |
| DoublyLinkedList.DListTable.constructor | Sources/llist/llist.c:78-81 | The static table of the doubly linked build has `MAX_NUM_OF_LLIST` distinct headers, and `num_of_ll` starts at zero. |
| DoublyLinkedList.StaleHeadScenario | Sources/llist/llist.c:229-231 | Adding two objects and taking the head leaves the remaining object's `prev` at the taken one, and the list inconsistent. |
| DoublyLinkedList.ConsistentHeadScenario | Sources/llist/llist.c:206-235 | With the corrected head removal, the same calls leave a consistent list that empties after the second removal. |
| MssHal.GetHighestPrioTask | Sources/mss/target/MSP-EXP430FR5739/mss_hal.c:191-205 | Answers `INVALID_TASK_ID` exactly when no task is ready. Otherwise it answers the lowest-numbered ready task: that bit is set and every lower bit is clear. |
| MssHal.NoBitSetIsZero | Sources/mss/target/MSP-EXP430G2/mss_hal_int.h:76-82 | A mask in which none of the 16 table bits is set is zero. |
| MssHal.BitPosIsShift | Sources/mss/target/MSP-EXP430G2/mss_hal_int.h:76-82 | The bit table has one entry per mask bit, and entry `i` is `1 << i`. |
| MssHal.DelayAfterCountsDown | Sources/mss/target/MSP-EXP430FR5739/mss_hal.c:229-233 | After `k` interrupts the counter is `d - k`, or zero once `k >= d`. |
| MssHal.SleepCountdown | Sources/mss/target/MSP-EXP430FR5739/mss_hal.c:137-141 | After a sleep of `n > 0` ticks, the `k`-th following interrupt finds the counter at zero exactly when `k >= n`. So the first `n - 1` interrupts skip the scheduler tick and the `n`-th calls it. |
| MssHal.SleepThenTicks | Sources/mss/target/MSP-EXP430FR5739/mss_hal.c:134-246 | A `mss_hal_sleep` followed by a run of tick interrupts. With `d` the skip count the sleep leaves (the timeout, or the old counter for the no-timeout value), interrupt `i` calls `mss_timer_tick()` exactly when `i + 1 >= d`. The counter ends at its closed form after the run. |
| MssHal.TickHal.Sleep | Sources/mss/target/MSP-EXP430FR5739/mss_hal.c:134-152 | A timeout other than the no-timeout value becomes the skip counter. The no-timeout value leaves it unchanged. |
| MssHal.TickHal.TimerIsr | Sources/mss/target/MSP-EXP430FR5739/mss_hal.c:224-246 | Each interrupt:<br>- advances the tick counter with wrap-around;<br>- steps the skip counter down, stopping at zero;<br>- calls `mss_timer_tick()` exactly when the counter is then zero;<br>- leaves low-power mode exactly when that call answered true. |
| MssHal.TickHal.constructor | Sources/mss/target/MSP-EXP430FR5739/mss_hal.c:60 | `delay_timer_cnt` starts at its static zero, so no tick is skipped before the first sleep. The scheduler's tick counter starts at the given value. |
| DemoApp.AdjustedPeriod | Examples/Projects/Target/MSP-EXP430G2/LED_Boosterpack_Cascade_Demo/Source/demo_app.c:223-249 | From a period within range the result is within range. At least 30 loud samples never lengthen the period: it drops one step or rests at the minimum. Fewer never shorten it: it rises one step or rests at the maximum. |
| DemoApp.PeriodStaysInRange | Examples/Projects/Target/MSP-EXP430G2/LED_Boosterpack_Cascade_Demo/Source/demo_app.c:221-249 | Starting from a period within range, any run of sampling seconds keeps it within range. |
| DemoApp.LoudSecondsSpeedUp | Examples/Projects/Target/MSP-EXP430G2/LED_Boosterpack_Cascade_Demo/Source/demo_app.c:223-236 | `k` loud seconds shorten the period by `k` steps, or to the minimum if that comes first. |
| DemoApp.QuietSecondsSlowDown | Examples/Projects/Target/MSP-EXP430G2/LED_Boosterpack_Cascade_Demo/Source/demo_app.c:237-249 | `k` quiet seconds lengthen the period by `k` steps, or to the maximum if that comes first. |
| DemoApp.RunningTextTask.constructor | Examples/Projects/Target/MSP-EXP430G2/LED_Boosterpack_Cascade_Demo/Source/demo_app.c:74-155 | The period starts at the maximum and both counters at zero, as declared at lines 74-104. `first_idx` and `row`, the statics of `running_text_task` at lines 154-155, start at zero. |
| DemoApp.RowBytes | Examples/Projects/Target/MSP-EXP430G2/LED_Boosterpack_Cascade_Demo/Source/demo_app.c:182-195 | With a single subtraction before each use and `j += 8`, every index stays inside the table and the 16-bit `j` never wraps. Matrix `i` receives byte `(first_idx + row + 8 i) mod size`. |
| DemoApp.ScanStep | Examples/Projects/Target/MSP-EXP430G2/LED_Boosterpack_Cascade_Demo/Source/demo_app.c:185-194 | An index below `size + 8` needs at most one subtraction to fall inside the table. Stepping it by 8 keeps it in step with the next matrix's offset. |
| DemoApp.RunningTextTask.ScanMatrixes | Examples/Projects/Target/MSP-EXP430G2/LED_Boosterpack_Cascade_Demo/Source/demo_app.c:180-203 | The eleven matrixes get their bytes for the current row. The row then cycles through 0..7 and never reaches 8. |
| DemoApp.RunningTextTask.ShiftText | Examples/Projects/Target/MSP-EXP430G2/LED_Boosterpack_Cascade_Demo/Source/demo_app.c:205-217 | The starting index advances by one modulo the table size, so it stays inside the table. The timer restarts with the current period. |
| DemoApp.RunningTextTask.MicSampling | Examples/Projects/Target/MSP-EXP430G2/LED_Boosterpack_Cascade_Demo/Source/demo_app.c:221-253 | The period becomes the adjusted period and stays within range. Both sample counters are reset to zero. |
| DemoApp.BuzzerTask.HandleButton | Examples/Projects/Target/MSP-EXP430G2/LED_Boosterpack_Cascade_Demo/Source/demo_app.c:283-315 | A confirmed press toggles the buzzer. Turning it on plays tone 0, starts the timer with that tone's delay and sets the tone index to 1. Turning it off silences the buzzer and stops the timer. No press changes nothing. |
| DemoApp.BuzzerTask.PlayNextTone | Examples/Projects/Target/MSP-EXP430G2/LED_Boosterpack_Cascade_Demo/Source/demo_app.c:319-334 | While on, an expired timer plays the indexed tone and restarts the timer with its delay. The index then advances modulo the table size, so every lookup stays in bounds. |
| DemoApp.BuzzerTask.constructor | Examples/Projects/Target/MSP-EXP430G2/LED_Boosterpack_Cascade_Demo/Source/demo_app.c:275-276 | The buzzer starts off (`buzzer_on` is false) with `last_tone_idx` at zero. The model also starts it silent, with its timer stopped, as the hardware is before the first press. |
| DemoApp.PlaySong | Examples/Projects/Target/MSP-EXP430G2/LED_Boosterpack_Cascade_Demo/Source/demo_app.c:285-334 | After switching on and `k` expiries, the tones played are table entries `0, 1, …, k` modulo the table size, in order. |

## Left out

- The scheduler itself is not part of this model. That covers tasks, events, semaphores, message queues, timers and `mss_timer_tick()`. The demo's timers are a running flag with a timeout, and a timer start is taken to succeed, as `APP_ASSERT` demands.
- Preemption is left out: `SwInt_ISR`, `mss_hal_trigger_sw_int` and the re-enabling of interrupts inside `TimerA1_CCR0_ISR`. They concern interrupt re-entry, and the model runs one step at a time.
- Register I/O is left out: clock setup, low-power mode, interrupt enables, the LED, buzzer and SPI drivers, and the demo's ADC code (`measure_adc_mic_avg`, `ADC10_Isr`). So `adcCounter` only changes through the ADC interrupt, which this model does not include. `MicSampling` is proved for every counter value.
- `MSS_INVALID_TASK_ID` comes from a header that is not part of this model. It is taken as 0xFF; the selector's contract only depends on it not being a task index.
- The FR5739 target's own task-bit header is not part of this model. The 16-bit mask and its bit table are taken from the MSP-EXP430G2 header, which is in the same repository.
- The width of `mss_timer_tick_t` and the value of `MSS_SLEEP_NO_TIMEOUT` come from headers that are not part of this model. They are parameters of `MssHal.TickHal`: the tick modulus and the no-timeout value.
- `MAX_NUM_OF_LLIST` is the capacity parameter of the two table classes. `num_of_ll` is a `uint8_t` that wraps modulo 256. So `llist_create` keeps its promise only for a `MAX_NUM_OF_LLIST` of at most 255: each header is handed out once, and `LLIST_INVALID_HDL` comes once all are in use. With 256 or more, the 257th call hands out `ll_tbl[0]` again and clears a list that may still be in use. The configured value is in a header that is not part of this model.
- The table sizes are parameters:
  - The running text must have between 8 and 65528 bytes, so a 16-bit scan index cannot wrap; the configured table has 241 bytes: `RUNNING_TEXT_DATA` lists 125 items, and each `LED_MATRIX_*` item expands to one to eight bytes.
  - The tone table needs at least two entries, because switching on jumps to entry 1; the configured table has 54.
- `LLIST_ASSERT` checks on handles and callbacks are left out: a null handle or callback has no counterpart in the model.
- In the doubly linked build, `llist_touch_first` and `llist_check` are the same code as in the singly linked build. They are modelled once, in `LinkedList`.
- The outer loops of `llist_sort` in the doubly linked build are left out. They only differ from the singly linked build in the pair exchange, which is modelled both as written and corrected in `DoublyLinkedList`.
- LinkedList.LList.Sort: requires that `cmp(x, y) > 0` implies `cmp(y, x) < 0`, so that a swapped pair is never swapped back. Without that, the do-while loop need not end.
- LinkedList.LList.Add: requires that the object is not in the list already. Re-adding a member at the head builds a cycle. Re-adding any member other than the tail at the tail sets its `next` to null and cuts off the objects behind it. Re-adding the tail at the tail changes nothing. `DoublyLinkedList.DList.Add` has the same requirement.
- DoublyLinkedList.DList.Remove: requires that the object is in the list, because the doubly linked build trusts the object's links without searching. It does not restate the multiset of objects. That fact follows from `ListSeq.RemoveAtMultiset`, and stating it in the method costs more than the proof can afford.
- DoublyLinkedList.DList.Remove: passes the checks as intended (`RemoveChecksHold`), not as written. The as-written checks are the finding below.
- Payloads are immutable here. A comparator or check callback reads only the object's `data`, not its links.

## Findings

| source | as written | input that shows it | evidently intended | confidence | as-written member | corrected member |
|---|---|---|---|---|---|---|
| Sources/llist/llist.c:228-231 | The doubly linked `llist_get_first` moves `first` to the successor but leaves that object's `prev` pointing at the object handed out | Add `a` then `b` at the tail, then take the head. `b.prev` is still `a`, so a later doubly linked `llist_remove(b)` relinks through `a` | The new head's `prev` becomes null | high, not executed | DoublyLinkedList.DList.GetFirstAsWritten, DoublyLinkedList.StaleHeadScenario | DoublyLinkedList.DList.GetFirst |
| Sources/llist/llist.c:299-313 | `LLIST_ASSERT(next_obj == hdl->last)` runs only when `next_obj` is null, and so checks that `last` is null. The check at line 312 does the same for `first` | Removing the tail or the head of a non-empty doubly linked list fails the check | `object == hdl->last` and `object == hdl->first` | medium (depends on `LLIST_ASSERT` being enabled), not executed | DoublyLinkedList.DList.RemoveChecksAsWrittenFailAtEnds | DoublyLinkedList.DList.RemoveChecksHold |
| Sources/llist/llist.c:388-396 | The doubly linked swap in `llist_sort` exchanges only the two objects' own links and `first` | Sort `[p, a, b]` where `p` is not greater than `a` and `a` is greater than `b`. The pass swaps `a` and `b` at position 1. `p.next` stays `a` and `a.next` becomes null, so walking from `first` visits `p, a` and loses `b` | The predecessor's `next`, the successor's `prev` and `last` follow the exchange | high, not executed | DoublyLinkedList.DList.SwapPairAsWritten | DoublyLinkedList.DList.SwapPair |
