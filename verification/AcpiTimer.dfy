/** The delay loop on the 24-bit ACPI power-management timer and the conversions between ticks and time. */
module AcpiTimer {
  import opened Bytes

  const FREQUENCY: nat := 3579545
  const BIT22: nat := 0x40_0000
  const BIT23: nat := 0x80_0000
  const BIT24: nat := 0x100_0000

  /** The true tick count at each successive read of the timer; the register shows it modulo 2^24. */
  type Clock = nat -> nat

  ghost predicate Monotone(clock: Clock) {
    forall i: nat, j: nat :: i <= j ==> clock(i) <= clock(j)
  }

  /** Every read comes at least one tick and at most step ticks after the one before. */
  ghost predicate Advances(clock: Clock, step: nat) {
    forall i: nat, j: nat :: j == i + 1 ==> clock(i) + 1 <= clock(j) <= clock(i) + step
  }

  function ReadTimer(clock: Clock, i: nat): U32 { clock(i) % BIT24 }

  /** The loop's test: bit 23 of the 32-bit difference. */
  predicate TimedOut(target: U32, now: U32) {
    (target - now) % TWO_32 / BIT23 % 2 == 1
  }

  // ---------- the loops as functions of the clock ----------

  /** The first read from i on at which the wait for the target ends, if that is before read number limit. */
  function WaitFrom(clock: Clock, target: U32, i: nat, limit: nat): (j: nat)
    requires i <= limit
    ensures i <= j <= limit
    decreases limit - i
  {
    if i == limit || TimedOut(target, ReadTimer(clock, i)) then i else WaitFrom(clock, target, i + 1, limit)
  }

  /** How a call stands after limit reads: finished after some number of reads, or still waiting. */
  datatype Outcome = Finished(count: nat) | Waiting

  /** times + 1 rounds, the first of delay ticks and the others of 2^22, starting at read number i. */
  function Rounds(clock: Clock, times: nat, delay: nat, i: nat, limit: nat): Outcome
    requires i <= limit
    decreases times
  {
    if i == limit then Waiting else
    var target := (ReadTimer(clock, i) + delay) % TWO_32;
    var j := WaitFrom(clock, target, i + 1, limit);
    if j == limit then Waiting
    else if times == 0 then Finished(j + 1)
    else Rounds(clock, times - 1, BIT22, j + 1, limit)
  }

  /** InternalAcpiDelay as a function of the clock. */
  function Delay(clock: Clock, delay: U32, limit: nat): Outcome {
    Rounds(clock, delay / BIT22, delay % BIT22, 0, limit)
  }

  /** InternalAcpiDelay, watched for its first limit reads of the timer. */
  method InternalAcpiDelay(clock: Clock, delay: U32, limit: nat) returns (o: Outcome)
    ensures o == Delay(clock, delay, limit)
  {
    hide TimedOut, ReadTimer;
    var times: nat, d: nat := delay / BIT22, delay % BIT22;
    var i: nat := 0;
    while true
      invariant i <= limit && d <= BIT22
      invariant Delay(clock, delay, limit) == Rounds(clock, times, d, i, limit)
      decreases times
    {
      if i == limit { return Waiting; }
      var ticks := (ReadTimer(clock, i) + d) % TWO_32;
      i := i + 1;
      ghost var first := i;
      d := BIT22;
      while i < limit && !TimedOut(ticks, ReadTimer(clock, i))
        invariant first <= i <= limit
        invariant WaitFrom(clock, ticks, first, limit) == WaitFrom(clock, ticks, i, limit)
      {
        i := i + 1;
      }
      if i == limit { return Waiting; }
      i := i + 1;
      if times == 0 { return Finished(i); }
      times := times - 1;
    }
  }

  // ---------- one round ----------

  /** No wait ends before its target is passed, whatever the wraps, as long as the timer never runs backwards. */
  lemma NotBeforeTarget(start: nat, delay: nat, now: nat)
    requires delay <= BIT22 && start <= now
    requires TimedOut((start % BIT24 + delay) % TWO_32, now % BIT24)
    ensures now >= start + delay + 1
  {
    DifferenceBit(start, delay, now);
  }

  /** The test looks at the true difference modulo 2^24. */
  lemma DifferenceBit(start: nat, delay: nat, now: nat)
    ensures TimedOut((start % BIT24 + delay) % TWO_32, now % BIT24) <==> (start + delay - now) % BIT24 >= BIT23
  {
    var t, n := (start % BIT24 + delay) % TWO_32, now % BIT24;
    var x := (t - n) % TWO_32;
    assert x / BIT23 % 2 == 1 <==> x % BIT24 >= BIT23;
    SameModulo24(start, delay, now);
  }

  lemma SameModulo24(start: nat, delay: nat, now: nat)
    ensures ((start % BIT24 + delay) % TWO_32 - now % BIT24) % TWO_32 % BIT24 == (start + delay - now) % BIT24
  {
    var a, b := start / BIT24, now / BIT24;
    var t := start % BIT24 + delay;
    var q := t / TWO_32;
    var y := t % TWO_32 - now % BIT24;
    assert y == (start + delay - now) + BIT24 * (b - a - 256 * q);
    assert y % TWO_32 == if y >= 0 then y else y + TWO_32;
    ModuloShift(start + delay - now, b - a - 256 * q);
    ModuloShift(y, 256);
  }

  lemma ModuloShift(x: int, k: int)
    ensures (x + BIT24 * k) % BIT24 == x % BIT24
  {
  }

  /** A read that is past the target by no more than 2^23 ticks ends the wait. */
  lemma SeenOncePassed(start: nat, delay: nat, now: nat)
    requires start + delay < now <= start + delay + BIT23
    ensures TimedOut((start % BIT24 + delay) % TWO_32, now % BIT24)
  {
    DifferenceBit(start, delay, now);
  }

  function Target(clock: Clock, i: nat, delay: nat): U32 {
    (ReadTimer(clock, i) + delay) % TWO_32
  }

  lemma {:induction false} WaitStopsWhenTimedOut(clock: Clock, target: U32, i: nat, limit: nat)
    requires i <= limit && WaitFrom(clock, target, i, limit) < limit
    ensures TimedOut(target, ReadTimer(clock, WaitFrom(clock, target, i, limit)))
    decreases limit - i
  {
    hide TimedOut, ReadTimer;
    if i == limit || TimedOut(target, ReadTimer(clock, i)) {
    } else {
      WaitStopsWhenTimedOut(clock, target, i + 1, limit);
    }
  }

  lemma RoundNeverShort(clock: Clock, s: nat, delay: nat, limit: nat)
    requires Monotone(clock) && delay <= BIT22 && s < limit
    ensures var j := WaitFrom(clock, Target(clock, s, delay), s + 1, limit);
      j < limit ==> clock(j) >= clock(s) + delay + 1
  {
    hide TimedOut;
    var target := Target(clock, s, delay);
    var j := WaitFrom(clock, target, s + 1, limit);
    if j < limit {
      WaitStopsWhenTimedOut(clock, target, s + 1, limit);
      NotBeforeTarget(clock(s), delay, clock(j));
    }
  }

  lemma {:induction false} RoundsNeverShort(clock: Clock, times: nat, delay: nat, i: nat, limit: nat)
    requires Monotone(clock) && delay <= BIT22 && i <= limit
    ensures var o := Rounds(clock, times, delay, i, limit);
      o.Finished? ==> i < o.count <= limit && clock(o.count - 1) >= clock(i) + delay + times * (BIT22 + 1) + 1
    decreases times
  {
    hide WaitFrom;
    if i == limit {
    } else {
      RoundNeverShort(clock, i, delay, limit);
      var j := WaitFrom(clock, Target(clock, i, delay), i + 1, limit);
      if j < limit && times > 0 {
        RoundsNeverShort(clock, times - 1, BIT22, j + 1, limit);
        assert clock(j) <= clock(j + 1);
      }
    }
  }

  /** A call that returns has let at least D + D / 2^22 + 1 true ticks pass, on any clock that never runs back. */
  lemma DelayNeverShort(clock: Clock, delay: U32, limit: nat)
    requires Monotone(clock)
    ensures var o := Delay(clock, delay, limit);
      o.Finished? ==> 0 < o.count && clock(o.count - 1) - clock(0) >= delay + delay / 0x40_0000 + 1
  {
    RoundsNeverShort(clock, delay / BIT22, delay % BIT22, 0, limit);
  }

  // ---------- the other bound, and termination ----------

  lemma {:induction false} AdvancesBetween(clock: Clock, step: nat, i: nat, j: nat)
    requires Advances(clock, step) && i <= j
    ensures clock(i) + (j - i) <= clock(j)
    decreases j - i
  {
    if i == j {
    } else {
      AdvancesBetween(clock, step, i, j - 1);
      assert clock(j - 1) + 1 <= clock(j);
    }
  }

  /** A wait entered at or before its target ends within one step of it, and until then the target is not passed. */
  lemma {:induction false} WaitEndsSoon(clock: Clock, step: nat, s: nat, delay: nat, i: nat, limit: nat)
    requires Advances(clock, step) && step <= BIT23
    requires s < i <= limit && clock(i - 1) <= clock(s) + delay
    ensures var j := WaitFrom(clock, Target(clock, s, delay), i, limit);
      clock(j - 1) <= clock(s) + delay
    decreases limit - i
  {
    hide TimedOut;
    var target := Target(clock, s, delay);
    if i == limit || TimedOut(target, ReadTimer(clock, i)) {
    } else {
      assert clock(i - 1) + 1 <= clock(i) <= clock(i - 1) + step;
      AdvancesBetween(clock, step, s, i);
      if clock(i) > clock(s) + delay {
        SeenOncePassed(clock(s), delay, clock(i));
        assert false;
      }
      WaitEndsSoon(clock, step, s, delay, i + 1, limit);
    }
  }

  /** The reads one call needs at most. */
  function ReadsNeeded(times: nat, delay: nat, step: nat): nat {
    delay + 2 + times * (BIT22 + step + 1)
  }

  /** The ticks one call takes at most. */
  function TicksAllowed(times: nat, delay: nat, step: nat): nat {
    delay + times * BIT22 + (2 * times + 1) * step
  }

  lemma OneRoundMore(times: nat, delay: nat, step: nat)
    ensures TicksAllowed(0, delay, step) == delay + step && ReadsNeeded(0, delay, step) == delay + 2
    ensures times > 0 ==> TicksAllowed(times, delay, step) == delay + 2 * step + TicksAllowed(times - 1, BIT22, step)
    ensures times > 0 ==> ReadsNeeded(times, delay, step) == delay + step + 1 + ReadsNeeded(times - 1, BIT22, step)
    ensures ReadsNeeded(times, delay, step) >= delay + 2
  {
    if times > 0 {
      assert times * (BIT22 + step + 1) == (times - 1) * (BIT22 + step + 1) + BIT22 + step + 1;
      assert (2 * times + 1) * step == (2 * (times - 1) + 1) * step + 2 * step;
    }
  }

  lemma RoundBounded(clock: Clock, step: nat, s: nat, delay: nat, limit: nat)
    requires Advances(clock, step) && step <= BIT23 && s < limit
    ensures var j := WaitFrom(clock, Target(clock, s, delay), s + 1, limit);
      j - 1 <= s + delay && clock(j) <= clock(s) + delay + step
  {
    hide WaitFrom, TimedOut, ReadTimer;
    var j := WaitFrom(clock, Target(clock, s, delay), s + 1, limit);
    WaitEndsSoon(clock, step, s, delay, s + 1, limit);
    AdvancesBetween(clock, step, s, j - 1);
    assert clock(j - 1) + 1 <= clock(j) <= clock(j - 1) + step;
  }

  lemma {:induction false} RoundsBounded(clock: Clock, step: nat, times: nat, delay: nat, i: nat, limit: nat)
    requires Advances(clock, step) && step <= BIT23 && i <= limit
    ensures var o := Rounds(clock, times, delay, i, limit);
      && (o.Finished? ==> i < o.count && clock(o.count - 1) <= clock(i) + TicksAllowed(times, delay, step))
      && (o.Waiting? ==> limit < i + ReadsNeeded(times, delay, step))
    decreases times
  {
    hide WaitFrom, TicksAllowed, ReadsNeeded, TimedOut, ReadTimer;
    OneRoundMore(times, delay, step);
    if i == limit {
    } else {
      var j := WaitFrom(clock, Target(clock, i, delay), i + 1, limit);
      RoundBounded(clock, step, i, delay, limit);
      if j < limit && times > 0 {
        RoundsBounded(clock, step, times - 1, BIT22, j + 1, limit);
        assert clock(j + 1) <= clock(j) + step;
      }
    }
  }

  /** If the timer is read at least every 2^23 ticks, the call returns, and in time. */
  lemma DelayBounded(clock: Clock, step: nat, delay: U32, limit: nat)
    requires Advances(clock, step) && step <= BIT23
    ensures var o, q := Delay(clock, delay, limit), delay / BIT22;
      && (limit >= ReadsNeeded(q, delay % BIT22, step) ==> o.Finished?)
      && (o.Finished? ==> 0 < o.count && clock(o.count - 1) - clock(0) <= delay + (2 * q + 1) * step)
  {
    RoundsBounded(clock, step, delay / BIT22, delay % BIT22, 0, limit);
  }

  // ---------- how often the timer must be read ----------

  /** Some number of reads is enough for the call to return. */
  ghost predicate Returns(clock: Clock, delay: U32) {
    exists limit: nat :: Delay(clock, delay, limit).Finished?
  }

  /** The call returns on every clock whose reads are 1 to step ticks apart exactly when a step is at most 2^23:
      anything above lets the reads jump over the half turn in which bit 23 is set, time after time. */
  lemma ReturnsExactly(step: nat, delay: U32)
    ensures step <= 0x80_0000 <==> forall clock: Clock :: Advances(clock, step) ==> Returns(clock, delay)
  {
    hide Delay;
    if step <= BIT23 {
      forall clock: Clock | Advances(clock, step)
        ensures Returns(clock, delay)
      {
        var limit := ReadsNeeded(delay / BIT22, delay % BIT22, step);
        DelayBounded(clock, step, delay, limit);
        assert Delay(clock, delay, limit).Finished?;
      }
    } else {
      var d := delay % BIT22;
      SkippingAdvances(d, step);
      forall limit: nat
        ensures Delay(Skipping(d), delay, limit) == Waiting
      {
        SkippingNeverReturns(delay, limit);
      }
      assert !Returns(Skipping(d), delay);
    }
  }

  /** A clock that reaches the first target, and from there on takes steps of 2^23 + 1 and 2^23 - 1 in turn. */
  function Skipping(d: nat): Clock {
    (n: nat) => SkippingAt(d, n)
  }

  function SkippingAt(d: nat, n: nat): nat {
    if n == 0 then 0 else d + TwoSteps(if d == 0 then n else n - 1)
  }

  function TwoSteps(k: nat): nat {
    k / 2 * BIT24 + k % 2 * (BIT23 + 1)
  }

  lemma SkippingAdvances(d: nat, step: nat)
    requires d < BIT22 && step > BIT23
    ensures Advances(Skipping(d), step)
  {
    forall i: nat, j: nat | j == i + 1
      ensures Skipping(d)(i) + 1 <= Skipping(d)(j) <= Skipping(d)(i) + step
    {
      OneStep(if d == 0 || i == 0 then i else i - 1);
    }
  }

  lemma OneStep(k: nat)
    ensures TwoSteps(0) == 0
    ensures TwoSteps(k + 1) == TwoSteps(k) + if k % 2 == 0 then BIT23 + 1 else BIT23 - 1
  {
    assert k % 2 == 0 ==> (k + 1) / 2 == k / 2 && (k + 1) % 2 == 1;
    assert k % 2 == 1 ==> (k + 1) / 2 == k / 2 + 1 && (k + 1) % 2 == 0;
  }

  lemma SkippingIsNeverSeen(d: nat, n: nat)
    requires d < BIT22 && n > 0
    ensures !TimedOut(d, ReadTimer(Skipping(d), n))
  {
    hide TimedOut;
    var k := if d == 0 then n else n - 1;
    DifferenceBit(0, d, Skipping(d)(n));
    assert Skipping(d)(n) == d + TwoSteps(k);
    if k % 2 == 0 {
      ModuloShift(0, -(k / 2));
    } else {
      ModuloShift(-(BIT23 + 1), -(k / 2));
    }
  }

  lemma {:induction false} SkippingIsWaitedFor(d: nat, i: nat, limit: nat)
    requires d < BIT22 && 0 < i <= limit
    ensures WaitFrom(Skipping(d), d, i, limit) == limit
    decreases limit - i
  {
    hide TimedOut, ReadTimer;
    if i == limit {
    } else {
      SkippingIsNeverSeen(d, i);
      SkippingIsWaitedFor(d, i + 1, limit);
    }
  }

  lemma SkippingNeverReturns(delay: U32, limit: nat)
    ensures Delay(Skipping(delay % BIT22), delay, limit) == Waiting
  {
    hide WaitFrom;
    if limit > 0 {
      SkippingIsWaitedFor(delay % BIT22, 1, limit);
    }
  }

  // ---------- delays in micro- and nanoseconds ----------

  const MICRO: nat := 1000000
  const NANO: nat := 1000000000

  /** The ticks asked for: a 64-bit product, a division by the parts of a second, and a cast to 32 bits. */
  function TicksFor(time: U64, parts: nat): U32
    requires parts > 0
  {
    time * FREQUENCY % TWO_64 / parts % TWO_32
  }

  /** If the call has returned, more than the time has gone by. */
  ghost predicate LongEnough(clock: Clock, o: Outcome, time: U64, parts: nat) {
    o.Finished? ==> 0 < o.count && (clock(o.count - 1) - clock(0)) * parts > time * 3579545
  }

  /** Microseconds, and the least that goes by before the call returns. */
  method MicroSecondDelay(clock: Clock, us: U64, limit: nat) returns (o: Outcome, r: U64)
    ensures o == Delay(clock, TicksFor(us, MICRO), limit) && r == us
    ensures Monotone(clock) && us * FREQUENCY < TWO_32 * MICRO ==> LongEnough(clock, o, us, MICRO)
  {
    o := InternalAcpiDelay(clock, TicksFor(us, MICRO), limit);
    r := us;
    if us * FREQUENCY < TWO_32 * MICRO { DelayKept(clock, us, MICRO, limit); }
  }

  /** The same in nanoseconds. */
  method NanoSecondDelay(clock: Clock, ns: U64, limit: nat) returns (o: Outcome, r: U64)
    ensures o == Delay(clock, TicksFor(ns, NANO), limit) && r == ns
    ensures Monotone(clock) && ns * FREQUENCY < TWO_32 * NANO ==> LongEnough(clock, o, ns, NANO)
  {
    o := InternalAcpiDelay(clock, TicksFor(ns, NANO), limit);
    r := ns;
    if ns * FREQUENCY < TWO_32 * NANO { DelayKept(clock, ns, NANO, limit); }
  }

  /** A call that returns took longer than it was asked to, although the conversion rounds down. */
  lemma DelayKept(clock: Clock, time: U64, parts: nat, limit: nat)
    requires parts == MICRO || parts == NANO
    requires time * FREQUENCY < TWO_32 * parts
    ensures Monotone(clock) ==> LongEnough(clock, Delay(clock, TicksFor(time, parts), limit), time, parts)
  {
    hide Delay, TicksFor;
    if Monotone(clock) {
      DelayNeverShort(clock, TicksFor(time, parts), limit);
      TicksFit(time, parts);
    }
  }

  lemma TicksFit(time: U64, parts: nat)
    requires parts == MICRO || parts == NANO
    requires time * FREQUENCY < TWO_32 * parts
    ensures TicksFor(time, parts) == time * FREQUENCY / parts
    ensures (TicksFor(time, parts) + 1) * parts > time * FREQUENCY
  {
    assert time * FREQUENCY % TWO_64 == time * FREQUENCY;
  }

  /** The least a call can take: a clock that jumps just past every target and stands still between rounds. */
  function JustPast(first: nat, k: nat): nat {
    if k == 0 then 0 else first + 1 + (k - 1) * (BIT22 + 1)
  }

  function FastClock(first: nat): Clock {
    (n: nat) => JustPast(first, (n + 1) / 2)
  }

  lemma FastClockIsMonotone(first: nat)
    ensures Monotone(FastClock(first))
  {
    forall i: nat, j: nat | i <= j
      ensures FastClock(first)(i) <= FastClock(first)(j)
    {
      assert (i + 1) / 2 <= (j + 1) / 2;
    }
  }

  lemma {:induction false} FastRounds(first: nat, times: nat, k: nat, limit: nat)
    requires first <= BIT22 && limit > 2 * (k + times) + 2
    ensures Rounds(FastClock(first), times, if k == 0 then first else BIT22, 2 * k, limit) == Finished(2 * (k + times) + 2)
    decreases times
  {
    hide TimedOut, ReadTimer, WaitFrom;
    FastRound(first, k, limit);
    if times == 0 {
    } else {
      FastRounds(first, times - 1, k + 1, limit);
    }
  }

  lemma FastRound(first: nat, k: nat, limit: nat)
    requires first <= BIT22 && limit > 2 * k + 2
    ensures var clock, delay := FastClock(first), if k == 0 then first else BIT22;
      WaitFrom(clock, Target(clock, 2 * k, delay), 2 * k + 1, limit) == 2 * k + 1
  {
    hide TimedOut, JustPast;
    var clock, delay := FastClock(first), if k == 0 then first else BIT22;
    FastClockAt(first, k);
    SeenOncePassed(clock(2 * k), delay, clock(2 * k + 1));
  }

  lemma FastClockAt(first: nat, k: nat)
    ensures var clock, delay := FastClock(first), if k == 0 then first else BIT22;
      clock(2 * k + 1) == clock(2 * k) + delay + 1
  {
    assert (2 * k + 1) / 2 == k && (2 * k + 2) / 2 == k + 1;
  }

  /** The delays keep their promise on every clock exactly when the tick count fits its 32 bits. */
  lemma DelayKeptExactly(time: U64, parts: nat)
    requires parts == 1000000 || parts == 1000000000
    ensures time * 3579545 < 0x1_0000_0000 * parts
       <==> forall clock: Clock, limit: nat ::
              Monotone(clock) ==> LongEnough(clock, Delay(clock, TicksFor(time, parts), limit), time, parts)
  {
    hide TicksFor, Delay;
    if time * FREQUENCY < TWO_32 * parts {
      forall clock: Clock, limit: nat
        ensures Monotone(clock) ==> LongEnough(clock, Delay(clock, TicksFor(time, parts), limit), time, parts)
      {
        DelayKept(clock, time, parts, limit);
      }
    } else {
      var d := TicksFor(time, parts);
      var clock, limit := FastClock(d % BIT22), 2 * (d / BIT22) + 3;
      FastClockIsMonotone(d % BIT22);
      FastDelay(d);
      OverflowIsShort(time, parts);
      assert !LongEnough(clock, Delay(clock, d, limit), time, parts);
    }
  }

  lemma FastDelay(d: U32)
    ensures var q, clock := d / BIT22, FastClock(d % BIT22);
      Delay(clock, d, 2 * q + 3) == Finished(2 * q + 2) && clock(2 * q + 1) - clock(0) == d + q + 1
  {
    hide Rounds;
    FastRounds(d % BIT22, d / BIT22, 0, 2 * (d / BIT22) + 3);
  }

  lemma OverflowIsShort(time: U64, parts: nat)
    requires parts == MICRO || parts == NANO
    requires time * FREQUENCY >= TWO_32 * parts
    ensures (TicksFor(time, parts) + TicksFor(time, parts) / BIT22 + 1) * parts <= time * FREQUENCY
  {
    var d := TicksFor(time, parts);
    assert d / BIT22 <= 1023;
    if time * FREQUENCY < (TWO_32 + 1024) * parts {
      assert time * FREQUENCY % TWO_64 == time * FREQUENCY;
      assert time * FREQUENCY / parts - TWO_32 < 1024;
      assert d == time * FREQUENCY / parts - TWO_32;
    }
  }

  // ---------- ticks and nanoseconds ----------

  /** GetTimeInNanoSecond: whole seconds and remainder apart, in 64-bit arithmetic. */
  function GetTimeInNanoSecond(ticks: U64): U64 {
    (ticks / FREQUENCY * 1000000000 % TWO_64 + ticks % FREQUENCY * 1000000000 % TWO_64 / FREQUENCY) % TWO_64
  }

  /** The conversion is the exact quotient rounded down, in 64 bits. Its remainder term cannot overflow, and its
      whole-seconds term does not if the result fits. */
  lemma TimeIsExact(ticks: U64)
    ensures ticks % 3579545 * 1000000000 < TWO_64
    ensures GetTimeInNanoSecond(ticks) == ticks * 1000000000 / 3579545 % TWO_64
    ensures GetTimeInNanoSecond(ticks) == ticks * 1000000000 / 3579545 <==> ticks * 1000000000 / 3579545 < TWO_64
    ensures ticks * 1000000000 / 3579545 < TWO_64 ==> ticks / 3579545 * 1000000000 < TWO_64
  {
    var q, r := ticks / FREQUENCY, ticks % FREQUENCY;
    var s, x := q * 1000000000, r * 1000000000;
    assert ticks * 1000000000 == FREQUENCY * s + x;
    WholeSeconds(s, x);
    var t := s + x / FREQUENCY;
    assert ticks * 1000000000 / FREQUENCY == t;
    AddInTwo(s, x / FREQUENCY, 0);
    assert x % TWO_64 == x;
    assert GetTimeInNanoSecond(ticks) == t % TWO_64;
  }

  lemma WholeSeconds(s: nat, x: nat)
    ensures (FREQUENCY * s + x) / FREQUENCY == s + x / FREQUENCY
  {
  }

  lemma TimeIsMonotone(t1: U64, t2: U64)
    requires t1 <= t2 && t2 * 1000000000 / FREQUENCY < TWO_64
    ensures GetTimeInNanoSecond(t1) <= GetTimeInNanoSecond(t2)
  {
    TimeIsExact(t1);
    TimeIsExact(t2);
    assert t1 * 1000000000 <= t2 * 1000000000;
  }

  /** Converting nanoseconds to ticks and back loses less than one tick, which is under 280 ns, exactly when the
      ticks fit their 32 bits. */
  lemma NanoRoundTrip(ns: U64)
    ensures ns * FREQUENCY < TWO_32 * NANO <==> ns - 280 <= GetTimeInNanoSecond(TicksFor(ns, NANO)) <= ns
  {
    hide GetTimeInNanoSecond;
    var d := TicksFor(ns, NANO);
    assert d * 1000000000 / FREQUENCY < TWO_64;
    TimeIsExact(d);
    if ns * FREQUENCY < TWO_32 * NANO {
      TicksFit(ns, NANO);
      assert d * 1000000000 <= ns * FREQUENCY < (d + 1) * 1000000000;
    } else {
      LostTicks(ns);
      assert ns - 280 > d * 1000000000 / FREQUENCY;
    }
  }

  /** Ticks that did not fit are lost by the full turn. */
  lemma LostTicks(ns: U64)
    requires ns * FREQUENCY >= TWO_32 * NANO
    ensures (TicksFor(ns, NANO) + 2) * NANO <= ns * FREQUENCY
  {
    if ns * FREQUENCY < 2 * TWO_32 * NANO {
      assert TicksFor(ns, NANO) == ns * FREQUENCY / NANO - TWO_32;
    }
  }
}
