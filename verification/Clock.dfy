/** The bootloader's clock, which counts how often it is asked, and the delay built on it. */
module Clock {
  import opened Words

  /** LOOPS_PER_MS. */
  const LOOPS: nat := 1000

  /** The statics of `mmosal_get_time_ticks`. */
  datatype Counter = Counter(tick: nat, microtick: nat)

  /** One call; the 32-bit tick wraps around. */
  function Next(c: Counter): Counter {
    if c.microtick == LOOPS then Counter(if c.tick + 1 == U32 then 0 else c.tick + 1, 0)
    else Counter(c.tick, c.microtick + 1)
  }

  function After(calls: nat): Counter {
    if calls == 0 then Counter(0, 0) else Next(After(calls - 1))
  }

  /** A tick takes one call more than LOOPS. */
  lemma {:induction false} TickIsCallsOver1001(calls: nat)
    ensures After(calls) == Counter(calls / (LOOPS + 1) % U32, calls % (LOOPS + 1))
    ensures After(calls).tick == calls / 1001 % 0x1_0000_0000
    decreases calls
  {
    if calls > 0 {
      TickIsCallsOver1001(calls - 1);
      var q := (calls - 1) / (LOOPS + 1);
      if calls % (LOOPS + 1) == 0 {
        assert calls / (LOOPS + 1) == q + 1;
        NextModulo(q);
      } else {
        assert calls / (LOOPS + 1) == q;
      }
    }
  }

  lemma NextModulo(q: nat)
    ensures (q + 1) % U32 == if q % U32 + 1 == U32 then 0 else q % U32 + 1
  {
  }

  /** Up to the next multiple of 1001 calls the tick stays the same, and there it changes. */
  lemma {:induction false} SameTick(sampled: nat, calls: nat)
    requires sampled < calls <= (LOOPS + 1) * (sampled / (LOOPS + 1) + 1)
    ensures After(sampled).tick == After(calls).tick <==> calls < (LOOPS + 1) * (sampled / (LOOPS + 1) + 1)
  {
    hide After;
    TickIsCallsOver1001(sampled);
    TickIsCallsOver1001(calls);
    var q := sampled / (LOOPS + 1);
    NextModulo(q);
    if calls < (LOOPS + 1) * (q + 1) {
      assert calls / (LOOPS + 1) == q;
    } else {
      assert calls / (LOOPS + 1) == q + 1;
    }
  }

  lemma RoundsTake(calls: nat, k: nat)
    ensures var total := (LOOPS + 1) * ((calls + 1) / (LOOPS + 1) + k);
            total / (LOOPS + 1) - calls / (LOOPS + 1) == k + if After(calls).microtick == LOOPS then 1 else 0
  {
    hide After;
    TickIsCallsOver1001(calls);
  }

  /** A round that starts on a rollover ends on the next. */
  lemma NextRound(q: nat)
    ensures ((LOOPS + 1) * q + 1) / (LOOPS + 1) == q
  {
  }

  class System {
    var tick: nat
    var microtick: nat
    ghost var calls: nat

    ghost predicate Valid()
      reads this
    {
      Counter(tick, microtick) == After(calls)
    }

    constructor ()
      ensures Valid() && calls == 0
    {
      tick, microtick, calls := 0, 0, 0;
    }

    /** `mmosal_get_time_ticks`. */
    method GetTimeTicks() returns (t: nat)
      requires Valid()
      modifies this
      ensures Valid() && calls == old(calls) + 1 && t == tick
    {
      var rolls := microtick == LOOPS;
      microtick := microtick + 1;
      if rolls {
        tick := if tick + 1 == U32 then 0 else tick + 1;
        microtick := 0;
      }
      calls := calls + 1;
      return tick;
    }

    /**
     * `delay_ms`: ends on the k-th rollover after its first sample, so the clock advances by
     * k ticks, or by k + 1 if that sample itself rolled over.
     */
    method DelayMs(k: nat)
      requires Valid()
      modifies this
      ensures Valid()
      ensures k == 0 ==> calls == old(calls)
      ensures k > 0 ==> calls == (LOOPS + 1) * ((old(calls) + 1) / (LOOPS + 1) + k)
      ensures k > 0 ==> calls / (LOOPS + 1) - old(calls) / (LOOPS + 1)
                        == k + if old(microtick) == LOOPS then 1 else 0
    {
      hide After;
      RoundsTake(calls, k);
      var i := 0;
      while i < k
        invariant 0 <= i <= k && Valid()
        invariant i == 0 ==> calls == old(calls)
        invariant i > 0 ==> calls == (LOOPS + 1) * ((old(calls) + 1) / (LOOPS + 1) + i)
      {
        NextRound((old(calls) + 1) / (LOOPS + 1) + i);
        WaitForTick();
        i := i + 1;
      }
    }

    /** One round of `delay_ms`. */
    method WaitForTick()
      requires Valid()
      modifies this
      ensures Valid() && calls == (LOOPS + 1) * ((old(calls) + 1) / (LOOPS + 1) + 1)
    {
      hide After;
      var t := GetTimeTicks();
      ghost var sampled := calls;
      var now := GetTimeTicks();
      SameTick(sampled, calls);
      while t == now
        invariant Valid() && calls > sampled
        invariant calls <= (LOOPS + 1) * (sampled / (LOOPS + 1) + 1)
        invariant t == After(sampled).tick && now == After(calls).tick
        invariant t == now <==> calls < (LOOPS + 1) * (sampled / (LOOPS + 1) + 1)
        decreases (LOOPS + 1) * (sampled / (LOOPS + 1) + 1) - calls
      {
        now := GetTimeTicks();
        SameTick(sampled, calls);
      }
    }
  }
}
