/** The bookkeeping of the LED boosterpack cascade demo: the running-text
    task (matrix scan, text shift, microphone-driven speed) and the buzzer
    task (on/off toggle and tone sequencing). Only the updates of the tasks'
    static variables are modelled; LED, buzzer and ADC drivers are reduced
    to the values handed to them, and the scheduler's timers to a running
    flag with its timeout. */
module DemoApp {
  import opened StdInt

  /** `RUNNING_TEXT_MOV_PERIOD_MAX_MS`, `_MIN_MS` and `_STEP_MS`. */
  const PERIOD_MAX_MS: nat := 300
  const PERIOD_MIN_MS: nat := 25
  const PERIOD_STEP_MS: nat := 25

  /** `NUM_OF_LED_MATRIXES`: the cascade has eleven 8x8 matrixes. */
  const NUM_OF_LED_MATRIXES: nat := 11

  /** `ADC_COUNTER_THRESHOLD`: this many loud samples per second speed the
      text up. */
  const ADC_COUNTER_THRESHOLD: uint16 := 30

  /** `PAUSE`: the frequency count that silences the buzzer. */
  const PAUSE: uint16 := 0

  ghost predicate InPeriodRange(p: nat)
  {
    PERIOD_MIN_MS <= p <= PERIOD_MAX_MS
  }

  /** The running-text period after one microphone-sampling second, as the
      task computes it: at least `ADC_COUNTER_THRESHOLD` loud samples make
      the text faster by one step, fewer make it slower by one step, and the
      result is held within the configured range. */
  function AdjustedPeriod(period: nat, adcCounter: uint16): (r: nat)
    ensures InPeriodRange(period) ==> InPeriodRange(r)
    ensures adcCounter >= ADC_COUNTER_THRESHOLD && InPeriodRange(period) ==>
      r <= period && (r + PERIOD_STEP_MS == period || r == PERIOD_MIN_MS)
    ensures adcCounter < ADC_COUNTER_THRESHOLD && InPeriodRange(period) ==>
      r >= period && (r == period + PERIOD_STEP_MS || r == PERIOD_MAX_MS)
  {
    if adcCounter >= ADC_COUNTER_THRESHOLD then
      if period > PERIOD_STEP_MS && period - PERIOD_STEP_MS >= PERIOD_MIN_MS then
        period - PERIOD_STEP_MS
      else
        PERIOD_MIN_MS
    else
      if period + PERIOD_STEP_MS <= PERIOD_MAX_MS then period + PERIOD_STEP_MS else PERIOD_MAX_MS
  }

  /** The period after a run of sampling seconds with the given counts. */
  function PeriodAfter(period: nat, counts: seq<uint16>): nat
    decreases counts
  {
    if counts == [] then period else PeriodAfter(AdjustedPeriod(period, counts[0]), counts[1..])
  }

  /** Loud seconds shorten the period one step each until it rests at the
      minimum. */
  lemma {:induction false} LoudSecondsSpeedUp(period: nat, counts: seq<uint16>)
    requires InPeriodRange(period)
    requires forall i :: 0 <= i < |counts| ==> counts[i] >= ADC_COUNTER_THRESHOLD
    ensures PeriodAfter(period, counts) ==
      if period >= PERIOD_MIN_MS + |counts| * PERIOD_STEP_MS then period - |counts| * PERIOD_STEP_MS
      else PERIOD_MIN_MS
    decreases counts
  {
    if counts != [] {
      LoudSecondsSpeedUp(AdjustedPeriod(period, counts[0]), counts[1..]);
    }
  }

  /** Quiet seconds lengthen the period one step each until it rests at the
      maximum. */
  lemma {:induction false} QuietSecondsSlowDown(period: nat, counts: seq<uint16>)
    requires InPeriodRange(period)
    requires forall i :: 0 <= i < |counts| ==> counts[i] < ADC_COUNTER_THRESHOLD
    ensures PeriodAfter(period, counts) ==
      if period + |counts| * PERIOD_STEP_MS <= PERIOD_MAX_MS then period + |counts| * PERIOD_STEP_MS
      else PERIOD_MAX_MS
    decreases counts
  {
    if counts != [] {
      QuietSecondsSlowDown(AdjustedPeriod(period, counts[0]), counts[1..]);
    }
  }

  /** Whatever the microphone hears, the period never leaves the range. */
  lemma {:induction false} PeriodStaysInRange(period: nat, counts: seq<uint16>)
    requires InPeriodRange(period)
    ensures InPeriodRange(PeriodAfter(period, counts))
    decreases counts
  {
    if counts != [] {
      PeriodStaysInRange(AdjustedPeriod(period, counts[0]), counts[1..]);
    }
  }

  /** The static state of `running_text_task` together with the globals it
      shares with the ADC interrupt. `text` is `running_text_data`. */
  class RunningTextTask {
    const text: seq<uint8>
    var firstIdx: uint16
    var row: uint8
    var period: nat
    var adcCounter: uint16
    var sampleCnt: uint16

    /** The table holds at least one byte per matrix row and leaves room in
        a `uint16_t` for the scan index; the indexes stay below their
        bounds and the period within its range. */
    ghost predicate Valid()
      reads this
    {
      8 <= |text| && |text| + 8 <= 0x1_0000 &&
      (firstIdx as int) < |text| && row < 8 && InPeriodRange(period)
    }

    /** The statics as the program starts: both indexes and both counters
        zero, the period at its maximum. */
    constructor (text: seq<uint8>)
      requires 8 <= |text| && |text| + 8 <= 0x1_0000
      ensures Valid() && this.text == text
      ensures firstIdx == 0 && row == 0 && period == PERIOD_MAX_MS
      ensures adcCounter == 0 && sampleCnt == 0
    {
      this.text := text;
      firstIdx := 0;
      row := 0;
      period := PERIOD_MAX_MS;
      adcCounter := 0;
      sampleCnt := 0;
    }

    /** The matrix-scan step: the eleven matrixes are sent their bytes for
        the current row, and then the row advances, wrapping after the
        eighth. `sentRow` is the row the bytes were sent for. */
    method ScanMatrixes() returns (sentRow: uint8, sent: seq<uint8>)
      requires Valid()
      modifies this
      ensures Valid()
      ensures sentRow == old(row)
      ensures |sent| == NUM_OF_LED_MATRIXES
      ensures forall i :: 0 <= i < NUM_OF_LED_MATRIXES ==>
        sent[i] == text[(old(firstIdx) as int + old(row) as int + 8 * i) % |text|]
      ensures row as int == (old(row) as int + 1) % 8
      ensures firstIdx == old(firstIdx) && period == old(period)
      ensures adcCounter == old(adcCounter) && sampleCnt == old(sampleCnt)
    {
      sentRow := row;
      sent := RowBytes(text, firstIdx, row);
      row := row + 1;
      if row >= 8 {
        row := 0;
      }
    }

    /** The text-shift step: the starting index advances by one and wraps
        at the end of the table. `timeout` is the period the shift timer is
        restarted with. */
    method ShiftText() returns (timeout: nat)
      requires Valid()
      modifies this
      ensures Valid()
      ensures firstIdx as int == (old(firstIdx) as int + 1) % |text|
      ensures timeout == period
      ensures row == old(row) && period == old(period)
      ensures adcCounter == old(adcCounter) && sampleCnt == old(sampleCnt)
    {
      firstIdx := firstIdx + 1;
      if firstIdx as int >= |text| {
        DivModUnique(firstIdx as int, |text|, 1, 0);
        firstIdx := 0;
      } else {
        DivModUnique(firstIdx as int, |text|, 0, firstIdx as int);
      }
      timeout := period;
    }

    /** The microphone-sampling step: the period is adjusted by the number
        of loud samples counted since the last step, and both sample
        counters start again from zero. */
    method MicSampling()
      requires Valid()
      modifies this
      ensures Valid()
      ensures period == AdjustedPeriod(old(period), old(adcCounter))
      ensures adcCounter == 0 && sampleCnt == 0
      ensures firstIdx == old(firstIdx) && row == old(row)
    {
      if adcCounter >= ADC_COUNTER_THRESHOLD {
        if period > PERIOD_STEP_MS && period - PERIOD_STEP_MS >= PERIOD_MIN_MS {
          period := period - PERIOD_STEP_MS;
        } else {
          period := PERIOD_MIN_MS;
        }
      } else {
        if period + PERIOD_STEP_MS <= PERIOD_MAX_MS {
          period := period + PERIOD_STEP_MS;
        } else {
          period := PERIOD_MAX_MS;
        }
      }
      adcCounter := 0;
      sampleCnt := 0;
    }
  }

  /** A positive multiple of `n` is at least `n`. */
  lemma {:induction false} MulAtLeast(d: nat, n: nat)
    requires d >= 1
    ensures d * n >= n
  {
    if d > 1 {
      MulAtLeast(d - 1, n);
      assert d * n == (d - 1) * n + n;
    }
  }

  /** Multiples of `n` grow by at least `n` with the factor. */
  lemma MulGrows(a: int, b: int, n: nat)
    ensures a > b ==> a * n >= b * n + n
  {
    if a > b {
      MulAtLeast(a - b, n);
      assert (a - b) * n == a * n - b * n;
    }
  }

  /** Quotient and remainder are unique: any `q * n + r` with `r` below
      the divisor has remainder `r`. */
  lemma DivModUnique(x: int, n: int, q: int, r: int)
    requires 0 < n && 0 <= r < n && x == q * n + r
    ensures x % n == r
  {
    assert x == (x / n) * n + x % n;
    MulGrows(q, x / n, n);
    MulGrows(x / n, q, n);
  }

  /** Subtracting the divisor once keeps the remainder. */
  lemma ModMinusDivisor(x: int, n: int)
    requires 0 < n <= x
    ensures (x - n) % n == x % n
  {
    DivModUnique(x - n, n, x / n - 1, x % n);
  }

  /** Adding `c` to a reduced value and to the unreduced one gives the same
      remainder. */
  lemma ModPlus(j: int, a: int, c: nat, n: int)
    requires 0 <= j < n && 0 <= a && j == a % n
    ensures (j + c) % n == (a + c) % n
  {
    DivModUnique(a + c, n, a / n + (j + c) / n, (j + c) % n);
  }

  /** The scan loop of the running-text task: matrix `i` of the cascade is
      sent byte `firstIdx + row + 8 * i` of the text, counted round the end
      of the table. The index is kept in a `uint16_t` and brought back into
      the table by a single subtraction before each use; the result lists
      the bytes in the order they are shifted out. */
  method RowBytes(text: seq<uint8>, firstIdx: uint16, row: uint8) returns (sent: seq<uint8>)
    requires 8 <= |text| && |text| + 8 <= 0x1_0000
    requires (firstIdx as int) < |text| && row < 8
    ensures |sent| == NUM_OF_LED_MATRIXES
    ensures forall i :: 0 <= i < NUM_OF_LED_MATRIXES ==>
      sent[i] == text[(firstIdx as int + row as int + 8 * i) % |text|]
  {
    ghost var start := firstIdx as int + row as int;
    ghost var n := |text|;
    var j: uint16 := firstIdx + row as uint16;
    var i := 0;
    ghost var offset := start;
    sent := [];
    while i < NUM_OF_LED_MATRIXES
      invariant 0 <= i <= NUM_OF_LED_MATRIXES && |sent| == i
      invariant offset == start + 8 * i
      invariant (j as int) < n + 8 && Reduce(j as nat, n) == Reduce(offset, n)
      invariant forall k :: 0 <= k < i ==> sent[k] == text[Reduce(start + 8 * k, n)]
    {
      ScanStep(j as nat, offset, n);
      if (j as int) >= |text| {
        j := j - |text| as uint16;
      }
      sent := sent + [text[j]];
      j := j + 8;
      i := i + 1;
      offset := offset + 8;
    }
    forall k | 0 <= k < NUM_OF_LED_MATRIXES
      ensures sent[k] == text[(start + 8 * k) % n]
    {
      ReduceIsMod(start + 8 * k, n);
    }
  }

  /** `x` reduced below `n` by repeated subtraction. */
  function Reduce(x: nat, n: nat): (r: nat)
    requires n > 0
    ensures r < n
  {
    if x < n then x else Reduce(x - n, n)
  }

  /** Reducing by subtraction gives the remainder. */
  lemma {:induction false} ReduceIsMod(x: nat, n: nat)
    requires n > 0
    ensures Reduce(x, n) == x % n
  {
    if x < n {
      DivModUnique(x, n, 0, x);
    } else {
      ReduceIsMod(x - n, n);
      ModMinusDivisor(x, n);
    }
  }

  /** One pass of the scan loop: a scan index below `n + 8` that reduces
      like the matrix's `offset` is brought below `n` by at most one
      subtraction, is then exactly the reduced offset, and stepped by 8 it
      reduces like the next matrix's offset. */
  lemma ScanStep(j: nat, offset: nat, n: nat)
    requires 8 <= n && j < n + 8 && Reduce(j, n) == Reduce(offset, n)
    ensures var j1 := if j >= n then j - n else j;
      j1 < n && j1 == Reduce(offset, n) &&
      Reduce(j1 + 8, n) == Reduce(offset + 8, n)
  {
    var j1 := if j >= n then j - n else j;
    ReduceIsMod(j, n);
    ReduceIsMod(j1, n);
    ReduceIsMod(j1 + 8, n);
    ReduceIsMod(offset, n);
    ReduceIsMod(offset + 8, n);
    if j >= n {
      ModMinusDivisor(j, n);
    }
    DivModUnique(j1, n, 0, j1);
    ModPlus(j1, offset, 8, n);
  }

  /** One entry of `buzzer_tone_data`. */
  datatype Tone = Tone(freqCnt: uint16, delay: uint16)

  /** The static state of `buzzer_task`. `tones` is `buzzer_tone_data`;
      `freqCnt` is the last value given to `buzzer_set_freq`; `timerRunning`
      and `timerDelay` stand for `buzzer_tmr`. */
  class BuzzerTask {
    const tones: seq<Tone>
    var buzzerOn: bool
    var lastToneIdx: nat
    var freqCnt: uint16
    var timerRunning: bool
    var timerDelay: nat

    /** The table has a second entry for the start to move to, and the next
        tone index is one of its entries. */
    ghost predicate Valid()
      reads this
    {
      2 <= |tones| && lastToneIdx < |tones|
    }

    /** The statics as the program starts: buzzer off, index zero. */
    constructor (tones: seq<Tone>)
      requires 2 <= |tones|
      ensures Valid() && this.tones == tones
      ensures !buzzerOn && lastToneIdx == 0 && freqCnt == PAUSE && !timerRunning
    {
      this.tones := tones;
      buzzerOn := false;
      lastToneIdx := 0;
      freqCnt := PAUSE;
      timerRunning := false;
      timerDelay := 0;
    }

    /** The debounced button step. `pressed` is whether the button still
        reads as pushed once the debouncing timer has expired. A press
        toggles the buzzer: turning it on plays the first tone, starts the
        tone timer with its delay and makes the second tone the next one;
        turning it off silences the buzzer and stops the timer. */
    method HandleButton(pressed: bool)
      requires Valid()
      modifies this
      ensures Valid()
      ensures !pressed ==>
        buzzerOn == old(buzzerOn) && lastToneIdx == old(lastToneIdx) && freqCnt == old(freqCnt) &&
        timerRunning == old(timerRunning) && timerDelay == old(timerDelay)
      ensures pressed ==> buzzerOn == !old(buzzerOn)
      ensures pressed && buzzerOn ==>
        freqCnt == tones[0].freqCnt && timerRunning && timerDelay == tones[0].delay as nat &&
        lastToneIdx == 1
      ensures pressed && !buzzerOn ==>
        freqCnt == PAUSE && !timerRunning && timerDelay == old(timerDelay) &&
        lastToneIdx == old(lastToneIdx)
    {
      if pressed {
        if buzzerOn == false {
          freqCnt := tones[0].freqCnt;
          timerRunning := true;
          timerDelay := tones[0].delay as nat;
          lastToneIdx := 1;
          buzzerOn := true;
        } else {
          freqCnt := PAUSE;
          timerRunning := false;
          buzzerOn := false;
        }
      }
    }

    /** The tone step. `expired` is whether the tone timer has run out.
        While the buzzer is on, an expired timer plays the next tone,
        restarts the timer with that tone's delay and advances the index,
        wrapping after the last tone. */
    method PlayNextTone(expired: bool)
      requires Valid()
      modifies this
      ensures Valid()
      ensures buzzerOn == old(buzzerOn)
      ensures buzzerOn && expired ==>
        freqCnt == tones[old(lastToneIdx)].freqCnt && timerRunning &&
        timerDelay == tones[old(lastToneIdx)].delay as nat &&
        lastToneIdx == (old(lastToneIdx) + 1) % |tones|
      ensures !(buzzerOn && expired) ==>
        lastToneIdx == old(lastToneIdx) && freqCnt == old(freqCnt) &&
        timerRunning == old(timerRunning) && timerDelay == old(timerDelay)
    {
      if buzzerOn == true {
        if expired {
          freqCnt := tones[lastToneIdx].freqCnt;
          timerRunning := true;
          timerDelay := tones[lastToneIdx].delay as nat;
          lastToneIdx := lastToneIdx + 1;
          if lastToneIdx >= |tones| {
            DivModUnique(lastToneIdx, |tones|, 1, 0);
            lastToneIdx := 0;
          } else {
            DivModUnique(lastToneIdx, |tones|, 0, lastToneIdx);
          }
        }
      }
    }
  }

  /** Switching the buzzer on and letting the tone timer expire `k` times
      plays the table in order from the start, round and round. */
  method PlaySong(b: BuzzerTask, k: nat) returns (played: seq<nat>)
    requires b.Valid() && !b.buzzerOn
    modifies b
    ensures b.Valid() && b.buzzerOn
    ensures |played| == k + 1
    ensures forall i :: 0 <= i <= k ==> played[i] == i % |b.tones|
    ensures b.freqCnt == b.tones[played[k]].freqCnt
  {
    b.HandleButton(true);
    DivModUnique(0, |b.tones|, 0, 0);
    DivModUnique(1, |b.tones|, 0, 1);
    played := [0];
    var i := 0;
    while i < k
      invariant 0 <= i <= k && |played| == i + 1
      invariant b.Valid() && b.buzzerOn
      invariant b.lastToneIdx == (i + 1) % |b.tones|
      invariant forall m :: 0 <= m <= i ==> played[m] == m % |b.tones|
      invariant b.freqCnt == b.tones[played[i]].freqCnt
    {
      var idx := b.lastToneIdx;
      ModPlus(idx, i + 1, 1, |b.tones|);
      b.PlayNextTone(true);
      played := played + [idx];
      i := i + 1;
    }
  }
}
