/** The scheduler's delay test: a 16-bit tick counter, and delays measured across its wraps. */
module Scheduler {

  const MAX_DELAYCTR_COUNT: nat := 0xFFFF
  const TASK_MAX_DELAY: nat := MAX_DELAYCTR_COUNT - 1
  const WRAP: nat := 0x1_0000

  type ticks = t: int | 0 <= t < WRAP

  /** The time between two readings of the counter, as the test works it out. */
  function Measured(current: ticks, since: ticks): (d: nat)
  {
    if current >= since then current - since else (MAX_DELAYCTR_COUNT - since) + current
  }

  /** Measured against an unbounded clock: a wrap costs one tick. */
  lemma MeasuredTime(since: nat, now: nat)
    requires since <= now < since + WRAP
    ensures Measured(now % WRAP, since % WRAP) == now - since - (now / WRAP - since / WRAP)
    ensures now / WRAP - since / WRAP == if since % WRAP + (now - since) >= WRAP then 1 else 0
  {
    var d := now - since;
    assert now == since / WRAP * WRAP + (since % WRAP + d);
    if since % WRAP + d < WRAP {
      Quotient(now, since / WRAP, since % WRAP + d);
    } else {
      Quotient(now, since / WRAP + 1, since % WRAP + d - WRAP);
    }
  }

  lemma Quotient(a: nat, q: nat, r: nat)
    requires a == q * WRAP + r && r < WRAP
    ensures a / WRAP == q && a % WRAP == r
  {
  }

  /** How long after time `since` the test first succeeds. */
  function FiresAfter(delay: ticks, since: nat): nat {
    if since % WRAP + delay < WRAP then delay else delay + 1
  }

  class DelayCounter {
    var value: ticks
    /** The time `value` was taken from the counter. */
    ghost var since: nat

    ghost predicate Valid()
      reads this
    {
      value == since % WRAP
    }

    /** Scheduler_ResetDelay */
    constructor (s: TickCounter)
      requires s.Valid()
      ensures Valid() && since == s.clock
    {
      value, since := s.tickCounter, s.clock;
    }
  }

  class TickCounter {
    var tickCounter: ticks
    /** How many ticks there have been. */
    ghost var clock: nat

    ghost predicate Valid()
      reads this
    {
      tickCounter == clock % WRAP
    }

    constructor ()
      ensures Valid() && clock == 0
    {
      tickCounter, clock := 0, 0;
    }

    /** One tick. */
    method Tick()
      requires Valid()
      modifies this
      ensures Valid() && clock == old(clock) + 1
    {
      tickCounter := (tickCounter + 1) % WRAP;
      clock := clock + 1;
    }

    /** HasDelayElapsed: within a wrap of the counter never early, and at most one tick late. */
    method HasDelayElapsed(delay: ticks, counter: DelayCounter) returns (elapsed: bool)
      requires Valid() && counter.Valid() && counter.since <= clock
      modifies counter
      ensures elapsed <==> Measured(tickCounter, old(counter.value)) >= delay
      ensures clock < old(counter.since) + WRAP ==>
                (elapsed <==> clock - old(counter.since) >= FiresAfter(delay, old(counter.since)))
      ensures counter.Valid() && counter.since == if elapsed then clock else old(counter.since)
    {
      if clock < counter.since + WRAP {
        MeasuredTime(counter.since, clock);
      }
      var current := tickCounter;
      var since := counter.value;
      if current >= since {
        if current - since >= delay {
          counter.value := current;
          counter.since := clock;
          return true;
        }
      } else {
        if (MAX_DELAYCTR_COUNT - since) + current >= delay {
          counter.value := current;
          counter.since := clock;
          return true;
        }
      }
      return false;
    }

    /** The test, polled once after every tick, until it has succeeded `n` times. */
    method Poll(delay: ticks, counter: DelayCounter, n: nat)
      requires Valid() && counter.Valid() && counter.since == clock && 0 < delay <= TASK_MAX_DELAY
      modifies this, counter
      ensures Valid() && counter.Valid() && counter.since == clock == FiringTime(delay, old(clock), n)
    {
      for i := 0 to n
        invariant Valid() && counter.Valid() && counter.since == clock == FiringTime(delay, old(clock), i)
      {
        ghost var last := clock;
        var elapsed := false;
        while !elapsed
          invariant Valid() && counter.Valid()
          invariant if elapsed then counter.since == clock == last + FiresAfter(delay, last)
                    else counter.since == last <= clock < last + FiresAfter(delay, last)
          decreases !elapsed, last + FiresAfter(delay, last) - clock
        {
          Tick();
          elapsed := HasDelayElapsed(delay, counter);
        }
      }
    }
  }

  // ---- Many delays in a row ----

  /** When the test succeeds for the `n`-th time. */
  function FiringTime(delay: ticks, start: nat, n: nat): (t: nat)
    ensures t >= start
  {
    if n == 0 then start
    else FiringTime(delay, start, n - 1) + FiresAfter(delay, FiringTime(delay, start, n - 1))
  }

  lemma OneDelay(delay: ticks, since: nat)
    requires delay <= TASK_MAX_DELAY
    ensures var next := since + FiresAfter(delay, since);
            FiresAfter(delay, since) == delay + (next / WRAP - since / WRAP)
  {
    MeasuredTime(since, since + FiresAfter(delay, since));
  }

  /** The delays take their own time, and one tick more for every wrap of the counter. */
  lemma {:induction false} ManyDelays(delay: ticks, start: nat, n: nat)
    requires delay <= TASK_MAX_DELAY
    ensures var t := FiringTime(delay, start, n);
            && t - start == n * delay + (t / WRAP - start / WRAP)
            && n * delay <= t - start <= n * (delay + 1)
    decreases n
  {
    if n > 0 {
      ManyDelays(delay, start, n - 1);
      OneDelay(delay, FiringTime(delay, start, n - 1));
      assert n * delay == (n - 1) * delay + delay && n * (delay + 1) == (n - 1) * (delay + 1) + delay + 1;
    }
  }

  /** A delay of MAX_DELAYCTR_COUNT is one too many: it fires only if the counter stood at zero, and then never again.
      */
  lemma LongestDelay(since: nat)
    ensures (exists now: nat :: now >= since && Measured(now % WRAP, since % WRAP) >= MAX_DELAYCTR_COUNT) <==>
            since % WRAP == 0
    ensures since % WRAP == 0 ==> (since + FiresAfter(MAX_DELAYCTR_COUNT, since)) % WRAP != 0
  {
    if since % WRAP == 0 {
      var now := since + MAX_DELAYCTR_COUNT;
      MeasuredTime(since, now);
      Quotient(now, since / WRAP, MAX_DELAYCTR_COUNT);
      assert now >= since && Measured(now % WRAP, since % WRAP) >= MAX_DELAYCTR_COUNT;
    }
  }
}
