/** Scheduler_HasDelayElapsed: a delay test on a 16-bit tick counter that wraps around. */
module Scheduler {
  const MAX_DELAYCTR_COUNT := 0xFFFF
  const TASK_MAX_DELAY := MAX_DELAYCTR_COUNT - 1
  const TICKS := 0x1_0000

  class DelayCounter {
    var value: nat

    constructor (value: nat)
      ensures this.value == value
    {
      this.value := value;
    }
  }

  /** Ticks from the counter's value to the current one, modulo the counter's range. */
  function Elapsed(tick: nat, counter: nat): nat
    requires tick < TICKS && counter < TICKS
  {
    (tick - counter) % TICKS
  }

  /** The test: the delay has passed, or one tick more when the tick counter has wrapped past the stored value. */
  predicate Due(tick: nat, counter: nat, delay: nat)
    requires tick < TICKS && counter < TICKS
  {
    Elapsed(tick, counter) >= delay + (if tick < counter then 1 else 0)
  }

  class Clock {
    var tickCounter: nat

    constructor (tick: nat)
      ensures tickCounter == tick
    {
      tickCounter := tick;
    }

    /** Scheduler_HasDelayElapsed. */
    method HasDelayElapsed(delay: nat, delayCounter: DelayCounter) returns (elapsed: bool)
      requires delay < TICKS && tickCounter < TICKS && delayCounter.value < TICKS
      modifies delayCounter
      ensures elapsed <==> Due(tickCounter, old(delayCounter.value), delay)
      ensures delayCounter.value == if elapsed then tickCounter else old(delayCounter.value)
    {
      var currentTick := tickCounter;
      var counter := delayCounter.value;
      if currentTick >= counter {
        if currentTick - counter >= delay {
          delayCounter.value := currentTick;
          return true;
        }
      } else {
        if (MAX_DELAYCTR_COUNT - counter) + currentTick >= delay {
          delayCounter.value := currentTick;
          return true;
        }
      }
      return false;
    }

    /** A task polled once every tick: the absolute times at which the test fires within `polls` ticks. */
    method PollEveryTick(delay: nat, start: nat, polls: nat) returns (firings: seq<nat>)
      requires 1 <= delay <= TASK_MAX_DELAY && tickCounter == start % TICKS
      modifies this
      ensures FiringTimes(delay, start, firings) && forall i :: 0 <= i < |firings| ==> firings[i] <= start + polls
      ensures Firing(delay, start, |firings| + 1) > start + polls
    {
      NextIsLater(delay, start);
      assert Firing(delay, start, 0) == start && FiringTimes(delay, start, []);
      hide NextFiring, Due, Firing, FiringTimes;
      var counter := new DelayCounter(start % TICKS);
      firings := [];
      ghost var last: nat := start;
      for n: nat := 0 to polls
        invariant fresh(counter) && counter.value == last % TICKS && tickCounter == (start + n) % TICKS
        invariant FiredSoFar(delay, start, firings, last, start + n)
      {
        var elapsed := Poll(delay, counter, start + n, last);
        if elapsed {
          OneMoreFiring(delay, start, firings, last, start + n);
          firings := firings + [start + n + 1];
          last := start + n + 1;
        }
      }
      FiringStep(delay, start, |firings|);
    }

    /** The tick interrupt, and one poll after it. */
    method Poll(delay: nat, counter: DelayCounter, ghost now: nat, ghost last: nat) returns (elapsed: bool)
      requires 1 <= delay <= TASK_MAX_DELAY && last <= now < NextFiring(delay, last)
      requires tickCounter == now % TICKS && counter.value == last % TICKS
      modifies this, counter
      ensures tickCounter == (now + 1) % TICKS && (elapsed <==> now + 1 == NextFiring(delay, last))
      ensures counter.value == if elapsed then (now + 1) % TICKS else last % TICKS
    {
      TickStep(now);
      FiresWhenDue(delay, last, now + 1);
      hide NextFiring, Due;
      tickCounter := if tickCounter == MAX_DELAYCTR_COUNT then 0 else tickCounter + 1;
      elapsed := HasDelayElapsed(delay, counter);
    }
  }

  /** The first tick after `last` at which the test fires when polled every tick. */
  function NextFiring(delay: nat, last: nat): nat {
    last + delay + (if (last + delay) / TICKS == last / TICKS then 0 else 1)
  }

  /** The n-th firing after `start`. */
  function Firing(delay: nat, start: nat, n: nat): nat {
    if n == 0 then start else NextFiring(delay, Firing(delay, start, n - 1))
  }

  /** The list of the first firings, in order. */
  ghost predicate FiringTimes(delay: nat, start: nat, firings: seq<nat>) {
    forall i :: 0 <= i < |firings| ==> firings[i] == Firing(delay, start, i + 1)
  }

  /** What the polls up to `now` have fired. */
  ghost predicate FiredSoFar(delay: nat, start: nat, firings: seq<nat>, last: nat, now: nat) {
    && last == Firing(delay, start, |firings|) && last <= now < NextFiring(delay, last)
    && FiringTimes(delay, start, firings) && forall i :: 0 <= i < |firings| ==> firings[i] <= now
  }

  lemma OneMoreFiring(delay: nat, start: nat, firings: seq<nat>, last: nat, now: nat)
    requires 1 <= delay && FiredSoFar(delay, start, firings, last, now) && now + 1 == NextFiring(delay, last)
    ensures FiredSoFar(delay, start, firings + [now + 1], now + 1, now + 1)
  {
    NextIsLater(delay, now + 1);
  }

  lemma FiringStep(delay: nat, start: nat, n: nat)
    ensures Firing(delay, start, n + 1) == NextFiring(delay, Firing(delay, start, n))
  {
  }

  lemma NextIsLater(delay: nat, last: nat)
    requires 1 <= delay
    ensures last < NextFiring(delay, last)
  {
  }

  lemma TickStep(now: nat)
    ensures (now + 1) % TICKS == if now % TICKS == MAX_DELAYCTR_COUNT then 0 else now % TICKS + 1
  {
  }

  /** Until the counter has gone all the way round, the test is true exactly from NextFiring on, however seldom it is made. */
  lemma DueIff(delay: nat, last: nat, now: nat)
    requires delay < TICKS && last <= now < last + TICKS
    ensures Due(now % TICKS, last % TICKS, delay) <==> NextFiring(delay, last) <= now
  {
    var wraps := now / TICKS - last / TICKS;
    assert now % TICKS - last % TICKS == now - last - TICKS * wraps;
    assert 0 <= wraps <= 1;
    assert Elapsed(now % TICKS, last % TICKS) == now - last;
  }

  /** Polled every tick, the test is false before NextFiring and true at it. */
  lemma FiresWhenDue(delay: nat, last: nat, now: nat)
    requires 1 <= delay <= TASK_MAX_DELAY && last < now <= NextFiring(delay, last)
    ensures Due(now % TICKS, last % TICKS, delay) <==> now == NextFiring(delay, last)
  {
    DueIff(delay, last, now);
    hide Due;
  }

  /**
   * Never early, and late by at most one tick per firing; in fact by at most one tick for each time the
   * 16-bit counter wraps.
   */
  lemma {:induction false} FiringBounds(delay: nat, start: nat, n: nat)
    requires 1 <= delay <= TASK_MAX_DELAY
    ensures start + n * delay <= Firing(delay, start, n) <= start + n * (delay + 1)
    ensures Firing(delay, start, n) - (start + n * delay) <= Firing(delay, start, n) / TICKS - start / TICKS
  {
    if n > 0 {
      FiringBounds(delay, start, n - 1);
      var last := Firing(delay, start, n - 1);
      assert n * delay == (n - 1) * delay + delay;
      assert n * (delay + 1) == (n - 1) * (delay + 1) + delay + 1;
      assert NextFiring(delay, last) / TICKS >= (last + delay) / TICKS >= last / TICKS;
    }
  }

  /** There is a tick at which a delay is due exactly when it is at most TASK_MAX_DELAY, or the counter is zero. */
  lemma DelayHonouredIff(delay: nat, counter: nat)
    requires delay < TICKS && counter < TICKS
    ensures (exists tick: nat :: tick < TICKS && Due(tick, counter, delay)) <==> delay <= TASK_MAX_DELAY || counter == 0
  {
    if counter == 0 {
      assert Due(MAX_DELAYCTR_COUNT, 0, delay);
    } else if delay <= TASK_MAX_DELAY {
      assert Due(counter - 1, counter, delay);
    }
  }

  /** So the longest 16-bit delay never fires from any counter but zero. */
  lemma MaxDelayNeverFires(tick: nat, counter: nat)
    requires tick < TICKS && 0 < counter < TICKS
    ensures !Due(tick, counter, MAX_DELAYCTR_COUNT)
  {
    DelayHonouredIff(MAX_DELAYCTR_COUNT, counter);
  }
}
