/** The scheduling helpers of the MSP-EXP430FR5739 port of the scheduler's
    hardware layer: the priority selector over the ready-task bit mask, and
    the tick interrupt together with the tick-skipping sleep. Register
    writes, low-power mode and interrupt enabling are left out; the
    scheduler's `mss_timer_tick()` is an input of the interrupt handler. */
module MssHal {
  import opened StdInt

  /** `mss_task_bits_t`: one bit per task, a `uint16_t`. */
  type TaskBits = bv16

  /** `sizeof(mss_task_bits_t) * 8`: the number of task bits. */
  const TASK_BITS: nat := 16

  /** `MSS_INVALID_TASK_ID`, the answer when no task is ready. Its header is
      not part of this model; any value that is not a task index behaves the
      same here. */
  const INVALID_TASK_ID: uint8 := 0xFF

  /** `MSS_TASK_BIT_POS` for a 16-bit task mask: entry `i` has only bit `i` set. */
  const BitPos: seq<TaskBits> := [
    0x0001, 0x0002, 0x0004, 0x0008,
    0x0010, 0x0020, 0x0040, 0x0080,
    0x0100, 0x0200, 0x0400, 0x0800,
    0x1000, 0x2000, 0x4000, 0x8000
  ]

  /** The table holds one entry per task bit, and entry `i` is `1 << i`. */
  lemma BitPosIsShift()
    ensures |BitPos| == TASK_BITS
    ensures forall i :: 0 <= i < TASK_BITS ==> BitPos[i] == 1 << i
  {
  }

  /** `ready_bits & mss_bitpos_to_bit[j]`: task `j` is ready in the mask. */
  predicate IsReady(b: TaskBits, j: nat)
    requires j < TASK_BITS
  {
    b & BitPos[j] != 0
  }

  /** A mask in which no task is ready is zero. */
  lemma NoBitSetIsZero(b: TaskBits)
    requires forall j :: 0 <= j < TASK_BITS ==> !IsReady(b, j)
    ensures b == 0
  {
    assert !IsReady(b, 0) && !IsReady(b, 1) && !IsReady(b, 2) && !IsReady(b, 3);
    assert !IsReady(b, 4) && !IsReady(b, 5) && !IsReady(b, 6) && !IsReady(b, 7);
    assert !IsReady(b, 8) && !IsReady(b, 9) && !IsReady(b, 10) && !IsReady(b, 11);
    assert !IsReady(b, 12) && !IsReady(b, 13) && !IsReady(b, 14) && !IsReady(b, 15);
  }

  /** `mss_get_highest_prio_task`: the index of the lowest set bit of the
      ready mask (bit 0 is the most urgent task), or `INVALID_TASK_ID` when
      no task is ready. */
  method GetHighestPrioTask(readyBits: TaskBits) returns (r: uint8)
    ensures r == INVALID_TASK_ID <==> readyBits == 0
    ensures r != INVALID_TASK_ID ==>
      (r as int) < TASK_BITS && IsReady(readyBits, r as nat) &&
      forall j :: 0 <= j < r as int ==> !IsReady(readyBits, j)
  {
    var i: uint8 := 0;
    while (i as int) < TASK_BITS
      invariant 0 <= i as int <= TASK_BITS
      invariant forall j :: 0 <= j < i as int ==> !IsReady(readyBits, j)
    {
      if IsReady(readyBits, i as nat) {
        return i;
      }
      i := i + 1;
    }
    NoBitSetIsZero(readyBits);
    return INVALID_TASK_ID;
  }

  /** One step of the tick-skip counter in the tick interrupt: decrement
      unless already zero, so the counter never wraps below zero. */
  function DelayStep(d: nat): nat
  {
    if d > 0 then d - 1 else 0
  }

  /** The tick-skip counter after `k` tick interrupts starting from `d`. */
  function DelayAfter(d: nat, k: nat): nat
  {
    if k == 0 then d else DelayAfter(DelayStep(d), k - 1)
  }

  /** The counter counts down one per interrupt and rests at zero. */
  lemma {:induction false} DelayAfterCountsDown(d: nat, k: nat)
    ensures DelayAfter(d, k) == if k <= d then d - k else 0
  {
    if k > 0 {
      DelayAfterCountsDown(DelayStep(d), k - 1);
    }
  }

  /** After `mss_hal_sleep(n)` with `n > 0`, the `k`-th following tick
      interrupt finds the counter at zero, and so calls `mss_timer_tick()`,
      exactly when `k >= n`: the first `n - 1` interrupts skip it and the
      `n`-th calls it. */
  lemma SleepCountdown(n: nat, k: nat)
    requires n > 0 && k > 0
    ensures DelayAfter(n, k) == 0 <==> k >= n
  {
    DelayAfterCountsDown(n, k);
  }

  /** The tick state of the hardware layer: the scheduler's global tick
      counter `mss_timer_tick_cnt` and the file's `delay_timer_cnt`, both of
      type `mss_timer_tick_t`. That type's width and `MSS_SLEEP_NO_TIMEOUT`
      are defined in headers that are not part of this model, so they are
      fixed when the state is built: `tickModulus` is 2 to the power of the
      width. */
  class TickHal {
    const tickModulus: nat
    const noTimeout: nat
    var tickCnt: nat
    var delayTimerCnt: nat

    /** Both counters are values of `mss_timer_tick_t`. */
    ghost predicate Valid()
      reads this
    {
      0 < tickModulus && noTimeout < tickModulus &&
      tickCnt < tickModulus && delayTimerCnt < tickModulus
    }

    /** Start-up: `delay_timer_cnt` is statically zero; the scheduler's tick
        counter starts at `tick`. */
    constructor (tickModulus: nat, noTimeout: nat, tick: nat)
      requires noTimeout < tickModulus && tick < tickModulus
      ensures Valid()
      ensures this.tickModulus == tickModulus && this.noTimeout == noTimeout
      ensures tickCnt == tick && delayTimerCnt == 0
    {
      this.tickModulus := tickModulus;
      this.noTimeout := noTimeout;
      tickCnt := tick;
      delayTimerCnt := 0;
    }

    /** The counter part of `mss_hal_sleep`: a timeout other than
        `MSS_SLEEP_NO_TIMEOUT` becomes the number of ticks to skip; the
        no-timeout value leaves the counter alone. */
    method Sleep(sleepTimeout: nat)
      requires Valid() && sleepTimeout < tickModulus
      modifies this
      ensures Valid()
      ensures delayTimerCnt == if sleepTimeout != noTimeout then sleepTimeout else old(delayTimerCnt)
      ensures tickCnt == old(tickCnt)
    {
      if sleepTimeout != noTimeout {
        delayTimerCnt := sleepTimeout;
      }
    }

    /** The counter logic of `TimerA1_CCR0_ISR`. `timerTick` is what
        `mss_timer_tick()` answers if it is called. `tickCalled` says whether
        it was called and `wake` whether the CPU is told to leave low-power
        mode. */
    method TimerIsr(timerTick: bool) returns (tickCalled: bool, wake: bool)
      requires Valid()
      modifies this
      ensures Valid()
      ensures tickCnt == (old(tickCnt) + 1) % tickModulus
      ensures delayTimerCnt == DelayStep(old(delayTimerCnt))
      ensures tickCalled <==> delayTimerCnt == 0
      ensures wake <==> tickCalled && timerTick
    {
      tickCnt := (tickCnt + 1) % tickModulus;
      if delayTimerCnt != 0 {
        delayTimerCnt := delayTimerCnt - 1;
      }
      tickCalled := false;
      wake := false;
      if delayTimerCnt == 0 {
        tickCalled := true;
        if timerTick {
          wake := true;
        }
      }
    }
  }

  /** `mss_hal_sleep(sleepTimeout)` followed by one tick interrupt per
      entry of `ticks`, entry `i` being what `mss_timer_tick()` answers at
      interrupt `i`. With `d` the number of ticks to skip that the sleep
      leaves, interrupt `i` calls `mss_timer_tick()` exactly when
      `i + 1 >= d`: the first `d - 1` interrupts skip it and every later
      one calls it. */
  method SleepThenTicks(h: TickHal, sleepTimeout: nat, ticks: seq<bool>) returns (called: seq<bool>)
    requires h.Valid() && sleepTimeout < h.tickModulus
    modifies h
    ensures h.Valid()
    ensures |called| == |ticks|
    ensures forall i :: 0 <= i < |ticks| ==>
      (called[i] <==> i + 1 >= if sleepTimeout != h.noTimeout then sleepTimeout else old(h.delayTimerCnt))
    ensures h.delayTimerCnt ==
      DelayAfter(if sleepTimeout != h.noTimeout then sleepTimeout else old(h.delayTimerCnt), |ticks|)
  {
    ghost var d := if sleepTimeout != h.noTimeout then sleepTimeout else h.delayTimerCnt;
    h.Sleep(sleepTimeout);
    called := [];
    for i := 0 to |ticks|
      invariant h.Valid() && |called| == i
      invariant h.delayTimerCnt == if i <= d then d - i else 0
      invariant forall j :: 0 <= j < i ==> (called[j] <==> j + 1 >= d)
    {
      var tickCalled, wake := h.TimerIsr(ticks[i]);
      called := called + [tickCalled];
    }
    DelayAfterCountsDown(d, |ticks|);
  }
}
