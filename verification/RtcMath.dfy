/** The arithmetic of driverlib/prcm.c's calendar clock: its macros as the source writes
    them, what they compute, and the laws of a 42-bit clock read off a wrapping counter. */
module RtcMath {
  import opened Bits

  /** One RTC unit is 1/1024 s and 32 slow-clock ticks; the calendar wraps after 2^42 units. */
  const UNITS: nat := 0x400_0000_0000

  /** The calendar time a pair of seconds and fraction names, in units. */
  function Units(secs: nat, msec: nat): nat {
    secs * 1024 + msec % 1024
  }

  // RTC_U64MSEC_MK
  method MkMsec(secs: nat, msec: nat) returns (x: nat)
    requires secs < TWO32
    ensures x == Units(secs, msec) < UNITS
  {
    AndMask10(msec);
    assert secs * 1024 % TWO64 == secs * 1024;
    assert Or(secs * 1024, msec % 1024) == secs * 1024 + msec % 1024 by {
      Pow2At10();
      OrDisjoint(secs, msec % 1024, 10);
    }
    x := Or(secs * 1024 % TWO64, And(msec, 0x3FF));
  }

  // RTC_SECS_IN_U64MSEC and RTC_MSEC_IN_U64MSEC: exactly the value modulo 2^42 is kept
  method SplitMsec(x: nat) returns (secs: nat, msec: nat)
    ensures secs < TWO32 && msec < 1024 && Units(secs, msec) == x % UNITS
  {
    SplitValue(x);
    secs := x / 1024 % TWO32;
    AndMask10(x);
    msec := And(x, 0x3FF) % TWO16;
  }

  lemma SplitValue(x: nat)
    ensures Units(x / 1024 % TWO32, x % 1024) == x % UNITS
    ensures x % 1024 % TWO16 == x % 1024
  {
    assert x % UNITS == x / 1024 % TWO32 * 1024 + x % 1024;
  }

  // SELECT_SCC_U42BITS
  method Select42(x: nat) returns (r: nat)
    ensures r == x % UNITS
  {
    Pow2At42();
    AndMask(x, 42);
    r := And(x, 0x3ff_ffff_ffff);
  }

  /** Two register halves put together by shift and OR. */
  method Join(msw: nat, lsw: nat) returns (x: nat)
    requires msw < TWO32 && lsw < TWO32
    ensures x == msw * TWO32 + lsw
  {
    var high := msw * TWO32 % TWO64;
    assert high == msw * TWO32;
    Pow2At32();
    OrDisjoint(msw, lsw, 32);
    x := Or(high, lsw);
  }

  /** 64-bit addition and subtraction. */
  function Add64(x: int, y: int): nat {
    (x + y) % TWO64
  }

  function Sub64(x: int, y: int): nat {
    (x - y) % TWO64
  }

  // ----- a wrapping counter

  /** The counter wraps after some multiple of 2^47 ticks: 2^48 by the register layout of
      inc/hw_hib3p3.h, 2^64 by the comments of driverlib/prcm.c. */
  predicate Period(period: nat) {
    0 < period <= TWO64 && period % (32 * UNITS) == 0
  }

  function Counter(ticks: nat, period: nat): nat
    requires period > 0
    decreases ticks
  {
    if ticks < period then ticks else Counter(ticks - period, period)
  }

  /** The calendar time at a tick, for a given reference. */
  function Clock(ref: int, ticks: nat): nat {
    (ref + ticks / 32) % UNITS
  }

  /** The counter lags the tick count by whole calendar cycles. */
  lemma {:induction false} CounterSplit(ticks: nat, period: nat) returns (cycles: nat)
    requires Period(period)
    ensures ticks == Counter(ticks, period) + 32 * UNITS * cycles
    ensures Counter(ticks, period) < period
    decreases ticks
  {
    if ticks < period {
      cycles := 0;
    } else {
      var before := CounterSplit(ticks - period, period);
      cycles := before + period / (32 * UNITS);
    }
  }

  lemma {:induction false} CounterIsMod(ticks: nat, period: nat)
    requires period > 0
    ensures Counter(ticks, period) == ticks % period
    decreases ticks
  {
    if ticks < period {
      ModUnique(ticks, period, 0, ticks);
    } else {
      CounterIsMod(ticks - period, period);
      ModUnique(ticks, period, (ticks - period) / period + 1, (ticks - period) % period);
    }
  }

  /** Until it wraps, the counter advances tick by tick. */
  lemma {:induction false} CounterAdvances(ticks: nat, more: nat, period: nat)
    requires period > 0 && Counter(ticks, period) + more < period
    ensures Counter(ticks + more, period) == Counter(ticks, period) + more
    decreases ticks
  {
    if ticks >= period { CounterAdvances(ticks - period, more, period); }
  }

  /** Wrap-around of the counter does not disturb the calendar. */
  lemma CounterKeepsClock(ref: int, ticks: nat, period: nat)
    requires Period(period)
    ensures Counter(ticks, period) < TWO64
    ensures (ref + Counter(ticks, period) / 32) % UNITS == Clock(ref, ticks)
  {
    var cycles := CounterSplit(ticks, period);
    var c := Counter(ticks, period);
    assert ticks / 32 == c / 32 + UNITS * cycles;
    ModShift(ref + c / 32, cycles);
  }

  lemma ModShift(x: int, k: int)
    ensures (x + UNITS * k) % UNITS == x % UNITS
  {
    ModUnique(x + UNITS * k, UNITS, x / UNITS + k, x % UNITS);
  }

  // ----- the alarm

  /** The counter value PRCMRTCMatchSet programs for a calendar time. */
  function AlarmMatch(ref: int, target: int): nat {
    (target - ref) % UNITS * 32
  }

  /** The programmed value is the least counter reading at which the clock shows the target. */
  lemma MatchIsLeast(ref: int, target: nat, counter: nat)
    requires target < UNITS
    ensures Clock(ref, AlarmMatch(ref, target)) == target
    ensures Clock(ref, counter) == target ==> AlarmMatch(ref, target) <= counter
  {
    var d := (target - ref) % UNITS;
    assert target - ref == UNITS * ((target - ref) / UNITS) + d;
    ModUnique(ref + d, UNITS, -((target - ref) / UNITS), target);
    var n := counter / 32;
    if Clock(ref, counter) == target {
      var k := (ref + n) / UNITS;
      assert target - ref == n - UNITS * k;
      ModShift(n, -k);
      assert d == n % UNITS <= n;
    }
  }

  /** How far ahead of the clock a target lies, modulo the calendar's wrap-around. */
  function Lead(ref: int, target: int, now: nat): nat {
    (target - Clock(ref, now)) % UNITS
  }

  lemma LeadFromCounter(ref: int, target: int, counter: nat)
    ensures (counter / 32 + Lead(ref, target, counter)) % UNITS == (target - ref) % UNITS
  {
    var n := counter / 32;
    var k := (ref + n) / UNITS;
    var j := (target - Clock(ref, counter)) / UNITS;
    assert n + Lead(ref, target, counter) == target - ref + UNITS * (k - j);
    ModShift(target - ref, k - j);
  }

  /** The match value is ahead of the counter exactly when the target is not the present unit and
      the counter gets there while it stays below 2^47. */
  lemma AlarmAhead(ref: int, target: nat, now: nat, period: nat)
    requires Period(period) && target < UNITS
    ensures AlarmMatch(ref, target) > Counter(now, period) <==>
              0 < Lead(ref, target, now) && Counter(now, period) / 32 + Lead(ref, target, now) < UNITS
  {
    var c := Counter(now, period);
    CounterKeepsClock(ref, now, period);
    assert Lead(ref, target, now) == Lead(ref, target, c);
    LeadFromCounter(ref, target, c);
    AheadOfCounter(c, Lead(ref, target, c), (target - ref) % UNITS);
  }

  lemma AheadOfCounter(c: nat, lead: nat, d: nat)
    requires lead < UNITS && d == (c / 32 + lead) % UNITS
    ensures d * 32 > c <==> 0 < lead && c / 32 + lead < UNITS
  {
    var sum := c / 32 + lead;
    if sum < UNITS {
      assert d == sum;
    } else {
      assert d <= sum - UNITS by { ModShift(sum - UNITS, 1); }
    }
  }

  /** The tick at which an alarm that is ahead fires. */
  function FireTick(ref: int, target: int, now: nat, period: nat): nat
    requires period > 0 && AlarmMatch(ref, target) > Counter(now, period)
  {
    now + AlarmMatch(ref, target) - Counter(now, period)
  }

  /** An alarm that is ahead fires at the first tick at which the clock shows its target. */
  lemma AlarmFiresFirst(ref: int, target: nat, now: nat, period: nat)
    requires Period(period) && target < UNITS
    requires AlarmMatch(ref, target) > Counter(now, period)
    ensures Counter(FireTick(ref, target, now, period), period) == AlarmMatch(ref, target)
    ensures Clock(ref, FireTick(ref, target, now, period)) == target
    ensures forall t: nat :: now <= t < FireTick(ref, target, now, period) ==>
              Counter(t, period) != AlarmMatch(ref, target) && Clock(ref, t) != target
  {
    var c, goal := Counter(now, period), AlarmMatch(ref, target);
    forall t: nat | now <= t <= now + goal - c
      ensures Counter(t, period) == c + (t - now)
      ensures Clock(ref, t) == Clock(ref, c + (t - now))
    {
      CounterAdvances(now, t - now, period);
      CounterKeepsClock(ref, t, period);
    }
    MatchIsLeast(ref, target, goal);
    forall t: nat | now <= t < now + goal - c
      ensures Clock(ref, t) != target
    {
      MatchIsLeast(ref, target, c + (t - now));
    }
  }

  /** The clock shows the target throughout the unit in which the alarm fires. */
  lemma FireUnit(ref: int, target: nat, now: nat, at: nat, period: nat)
    requires Period(period) && target < UNITS
    requires AlarmMatch(ref, target) > Counter(now, period)
    requires FireTick(ref, target, now, period) <= at < FireTick(ref, target, now, period) + 32
    ensures Clock(ref, at) == target
  {
    AlarmFiresFirst(ref, target, now, period);
    var fire := FireTick(ref, target, now, period);
    FireStartsUnit(fire, period);
    SameUnit(fire, at);
  }

  lemma FireStartsUnit(fire: nat, period: nat)
    requires Period(period) && Counter(fire, period) % 32 == 0
    ensures fire % 32 == 0
  {
    var cycles := CounterSplit(fire, period);
    MultipleOf32(fire, Counter(fire, period), cycles);
  }

  lemma SameUnit(fire: nat, at: nat)
    requires fire % 32 == 0 && fire <= at < fire + 32
    ensures at / 32 == fire / 32
  {
  }

  lemma MultipleOf32(t: nat, c: nat, cycles: nat)
    requires t == c + 32 * UNITS * cycles && c % 32 == 0
    ensures t % 32 == 0
  {
  }
}
