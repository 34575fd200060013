/** The hibernate block's slow-clock counter and retention registers, the calendar clock that
    driverlib/prcm.c builds on them, and the laws every run of its functions obeys. */
module Prcm {
  import opened Bits
  import opened RtcMath

  // RTC_U16MSEC_REG is the upper half of REG2, an address of its own to the driver
  datatype Reg = TimerRead | TimerLsw | TimerMsw | IrqLsw | IrqMsw | WakeLsw | WakeMsw | Reg2 | Reg3

  datatype Regs = Regs(timerRead: Word, timerLsw: Word, timerMsw: Word, irqLsw: Word, irqMsw: Word,
                       wakeLsw: Word, wakeMsw: Word, reg2High: Half, reg2Low: Half, reg3: Word)
  {
    function Read(r: Reg): Word {
      match r
      case TimerRead => timerRead
      case TimerLsw => timerLsw
      case TimerMsw => timerMsw
      case IrqLsw => irqLsw
      case IrqMsw => irqMsw
      case WakeLsw => wakeLsw
      case WakeMsw => wakeMsw
      case Reg2 => reg2High * TWO16 + reg2Low
      case Reg3 => reg3
    }

    /** A write landing while the counter reads `counter`: writing 1 to TimerRead latches it. */
    function Write(r: Reg, v: Word, counter: nat): Regs {
      match r
      case TimerRead =>
        if v % 2 == 1 then this.(timerLsw := counter % TWO32, timerMsw := counter / TWO32 % TWO32) else this
      case TimerLsw => this.(timerLsw := v)
      case TimerMsw => this.(timerMsw := v)
      case IrqLsw => this.(irqLsw := v)
      case IrqMsw => this.(irqMsw := v)
      case WakeLsw => this.(wakeLsw := v)
      case WakeMsw => this.(wakeMsw := v)
      case Reg2 => this.(reg2High := v / TWO16, reg2Low := v % TWO16)
      case Reg3 => this.(reg3 := v)
    }

    // what the registers mean to the calendar clock

    predicate InUse() {
      reg2High >= 0x8000
    }

    /** The 42-bit reference: seconds in REG3, fraction in bits 25..16 of REG2. */
    function Ref(): nat {
      Units(reg3, reg2High)
    }

    function Match(): nat {
      irqMsw * TWO32 + irqLsw
    }

    function Wake(): nat {
      wakeMsw * TWO32 + wakeLsw
    }

    /** REG2 without its fraction field: bits 31..26 and 15..0. */
    function Flags(): (nat, nat) {
      (reg2High / 1024, reg2Low)
    }

    /** The same registers apart from the latched counter. */
    predicate SameButLatch(new_: Regs) {
      new_ == this.(timerLsw := new_.timerLsw, timerMsw := new_.timerMsw)
    }
  }

  // ----- one call of the library, seen from outside

  datatype Event =
    | Idle
    | InUseSet
    | InUseGet(used: bool)
    | RtcSet(secs: nat, msec: nat, at: nat)
    | RtcGet(secs: nat, msec: nat, at: nat)
    | RtcMatchSet(secs: nat, msec: nat)
    | RtcMatchGet(secs: nat, msec: nat)
    | CtrGet(value: nat, at: nat)
    | CtrMatchSet(value: nat)
    | CtrMatchGet(value: nat)
    | IntervalSet(interval: nat, at: nat)
    | OcrWrite(index: nat, word: Word)

  datatype Snap = Snap(ticks: nat, regs: Regs)

  /** What each call does, for a counter of the given period. Every latch instant `at` lies within the call. */
  ghost predicate Step(period: nat, s: Snap, e: Event, s': Snap)
    requires Period(period)
  {
    var old_, new_ := s.regs, s'.regs;
    && s.ticks <= s'.ticks
    && match e
       case Idle => new_ == old_
       case InUseSet =>
         && new_.InUse() && new_.reg2High % 0x8000 == old_.reg2High % 0x8000
         && new_ == old_.(reg2High := new_.reg2High)
       case InUseGet(used) => new_ == old_ && (used <==> old_.InUse())
       case RtcSet(secs, msec, at) =>
         if old_.InUse() then
           && s.ticks <= at <= s'.ticks
           && Clock(new_.Ref(), at) == Units(secs, msec)
           && new_.Flags() == old_.Flags()
           && old_.(reg2High := new_.reg2High, reg3 := new_.reg3).SameButLatch(new_)
         else new_ == old_
       case RtcGet(secs, msec, at) =>
         && secs < TWO32 && msec < 1024
         && if old_.InUse() then
              && s.ticks <= at <= s'.ticks
              && Units(secs, msec) == Clock(old_.Ref(), at)
              && old_.SameButLatch(new_)
            else secs == 0 && msec == 0 && new_ == old_
       case RtcMatchSet(secs, msec) =>
         if old_.InUse() then
           && new_.Match() == AlarmMatch(old_.Ref(), Units(secs, msec))
           && new_ == old_.(irqLsw := new_.irqLsw, irqMsw := new_.irqMsw)
         else new_ == old_
       case RtcMatchGet(secs, msec) =>
         && secs < TWO32 && msec < 1024 && new_ == old_
         && (if old_.InUse() then Units(secs, msec) == Clock(old_.Ref(), old_.Match())
             else secs == 0 && msec == 0)
       case CtrGet(value, at) =>
         && s.ticks <= at <= s'.ticks && value == Counter(at, period) && old_.SameButLatch(new_)
       case CtrMatchSet(value) =>
         && new_.Match() == value % TWO64
         && new_ == old_.(irqLsw := new_.irqLsw, irqMsw := new_.irqMsw)
       case CtrMatchGet(value) => new_ == old_ && value == old_.Match()
       case IntervalSet(interval, at) =>
         && s.ticks <= at <= s'.ticks
         && new_.Wake() == (Counter(at, period) + interval) % TWO64
         && old_.(wakeLsw := new_.wakeLsw, wakeMsw := new_.wakeMsw).SameButLatch(new_)
       case OcrWrite(index, word) =>
         new_ == if index == 0 then old_.(reg2High := word / TWO16, reg2Low := word % TWO16)
                 else old_.(reg3 := word)
  }

  // ----- the driver

  class Hib {
    const period: nat
    var ticks: nat
    var regs: Regs

    ghost predicate Valid() reads this {
      Period(period)
    }

    ghost function Now(): Snap reads this {
      Snap(ticks, regs)
    }

    /** The counter runs on by itself. */
    method Elapse()
      modifies `ticks
      ensures old(ticks) <= ticks
    {
      var more: nat :| more >= 0;
      ticks := ticks + more;
    }

    method PRCMHIBRegRead(r: Reg) returns (v: Word)
      requires Valid()
      modifies `ticks
      ensures old(ticks) <= ticks && v == regs.Read(r)
    {
      v := regs.Read(r);
      Elapse();
    }

    method PRCMHIBRegWrite(r: Reg, v: Word) returns (ghost at: nat)
      requires Valid()
      modifies this
      ensures old(ticks) <= at <= ticks
      ensures regs == old(regs).Write(r, v, Counter(at, period))
    {
      Elapse();
      at := ticks;
      regs := regs.Write(r, v, Counter(ticks, period));
      Elapse();
    }

    // RTC_U16MSEC_REG, the upper half-word of REG2
    method HalfRead() returns (h: Half)
      modifies `ticks
      ensures old(ticks) <= ticks && h == regs.reg2High
    {
      h := regs.reg2High;
      Elapse();
    }

    method HalfWrite(h: Half)
      modifies this
      ensures old(ticks) <= ticks && regs == old(regs).(reg2High := h)
    {
      regs := regs.(reg2High := h);
      Elapse();
    }

    method RTCUseSet()
      requires Valid()
      modifies this
      ensures Valid() && Step(period, old(Now()), InUseSet, Now())
      ensures regs.reg2High >= 0x8000 && regs.reg2High % 0x8000 == old(regs).reg2High % 0x8000
      ensures regs == old(regs).(reg2High := regs.reg2High)
    {
      var h := HalfRead();
      var v := Or(h, 0x8000);
      assert v < TWO16 && v >= 0x8000 && v % 0x8000 == h % 0x8000 by { SetBit15(h); }
      HalfWrite(v);
    }

    method IsRTCUsed() returns (used: bool)
      requires Valid()
      modifies `ticks
      ensures old(ticks) <= ticks && (used <==> regs.InUse()) && (used <==> regs.reg2High >= 0x8000)
    {
      var h := HalfRead();
      TestBit15(h);
      used := And(h, 0x8000) != 0;
    }

    method RTCU16MSecRegRead() returns (ms: nat)
      requires Valid()
      modifies `ticks
      ensures old(ticks) <= ticks && ms == regs.reg2High % 1024
    {
      var h := HalfRead();
      AndMask10(h);
      ms := And(h, 0x3FF);
    }

    method RTCU16MSecRegWrite(ms: nat)
      requires Valid() && ms < 1024
      modifies this
      ensures Valid() && old(ticks) <= ticks
      ensures regs.reg2High % 1024 == ms && regs.reg2High / 1024 == old(regs).reg2High / 1024
      ensures regs == old(regs).(reg2High := regs.reg2High)
    {
      var h := HalfRead();
      var v := Or(AndNot(h, 0x3FF), ms);
      assert v == h / 1024 * 1024 + ms by { ReplaceLow10(h, ms); }
      HalfFields(h, ms);
      HalfWrite(v);
    }

    /** The latch-and-read steps with which PRCMSlowClkCtrGet and PRCMHibernateIntervalSet begin. The
        counter is read through a latch, so ticks between the two half reads do not tear it. */
    method LatchedCounter() returns (value: nat, ghost at: nat)
      requires Valid()
      modifies this
      ensures Valid() && Step(period, old(Now()), CtrGet(value, at), Now())
      ensures old(ticks) <= at <= ticks && value == Counter(at, period)
      ensures regs == old(regs).(timerLsw := regs.timerLsw, timerMsw := regs.timerMsw)
      ensures regs.timerLsw == value % 0x1_0000_0000 && regs.timerMsw == value / 0x1_0000_0000
    {
      at := PRCMHIBRegWrite(TimerRead, 1);
      var msw := PRCMHIBRegRead(TimerMsw);
      var lsw := PRCMHIBRegRead(TimerLsw);
      ghost var _ := CounterSplit(at, period);
      SplitHalves(Counter(at, period));
      value := Join(msw, lsw);
    }

    method PRCMSlowClkCtrGet() returns (value: nat, ghost at: nat)
      requires Valid()
      modifies this
      ensures Valid() && Step(period, old(Now()), CtrGet(value, at), Now())
      ensures old(ticks) <= at <= ticks && value == Counter(at, period)
      ensures regs == old(regs).(timerLsw := regs.timerLsw, timerMsw := regs.timerMsw)
      ensures regs.timerLsw == value % 0x1_0000_0000 && regs.timerMsw == value / 0x1_0000_0000
    {
      value, at := LatchedCounter();
    }

    method PRCMSlowClkCtrMatchSet(value: nat)
      requires Valid()
      modifies this
      ensures Valid() && Step(period, old(Now()), CtrMatchSet(value), Now())
      ensures regs == old(regs).(irqLsw := value % 0x1_0000_0000, irqMsw := value / 0x1_0000_0000 % 0x1_0000_0000)
    {
      ghost var _ := PRCMHIBRegWrite(IrqLsw, value % TWO32);
      ghost var _ := PRCMHIBRegWrite(IrqMsw, value / TWO32 % TWO32);
      SplitHalves(value);
    }

    method PRCMSlowClkCtrMatchGet() returns (value: nat)
      requires Valid()
      modifies `ticks
      ensures Step(period, old(Now()), CtrMatchGet(value), Now())
      ensures value == regs.irqMsw * 0x1_0000_0000 + regs.irqLsw
    {
      var msw := PRCMHIBRegRead(IrqMsw);
      var lsw := PRCMHIBRegRead(IrqLsw);
      value := Join(msw, lsw);
    }

    method PRCMHibernateIntervalSet(interval: nat) returns (ghost at: nat)
      requires Valid() && interval < TWO64
      modifies this
      ensures Valid() && Step(period, old(Now()), IntervalSet(interval, at), Now())
      ensures old(ticks) <= at <= ticks
      ensures var wake := Counter(at, period) + interval;
              && regs.wakeLsw == wake % 0x1_0000_0000 && regs.wakeMsw == wake / 0x1_0000_0000 % 0x1_0000_0000
              && regs == old(regs).(wakeLsw := regs.wakeLsw, wakeMsw := regs.wakeMsw,
                                    timerLsw := regs.timerLsw, timerMsw := regs.timerMsw)
    {
      var now;
      now, at := LatchedCounter();
      HalvesMod64(now + interval);
      WakeWrite(Add64(now, interval));
    }

    /** The two register writes with which PRCMHibernateIntervalSet ends. */
    method WakeWrite(value: nat)
      requires Valid() && value < TWO64
      modifies this
      ensures Valid() && old(ticks) <= ticks
      ensures regs.Wake() == value
      ensures regs == old(regs).(wakeLsw := value % 0x1_0000_0000, wakeMsw := value / 0x1_0000_0000)
    {
      ghost var _ := PRCMHIBRegWrite(WakeLsw, value % TWO32);
      ghost var _ := PRCMHIBRegWrite(WakeMsw, value / TWO32 % TWO32);
      SplitHalves(value);
    }

    method PRCMOCRRegisterWrite(index: nat, word: Word)
      requires Valid() && index <= 1
      modifies this
      ensures Valid() && Step(period, old(Now()), OcrWrite(index, word), Now())
      ensures if index == 0 then regs == old(regs).(reg2High := word / 0x1_0000, reg2Low := word % 0x1_0000)
              else regs == old(regs).(reg3 := word)
    {
      ghost var _ := PRCMHIBRegWrite(if index == 0 then Reg2 else Reg3, word);
    }

    method PRCMRTCInUseGet() returns (used: bool)
      requires Valid()
      modifies `ticks
      ensures Step(period, old(Now()), InUseGet(used), Now()) && (used <==> regs.reg2High >= 0x8000)
    {
      used := IsRTCUsed();
    }

    /** The two register writes with which PRCMRTCSet stores its reference. */
    method RefWrite(secs: nat, msec: nat)
      requires Valid() && secs < TWO32 && msec < 1024
      modifies this
      ensures Valid() && old(ticks) <= ticks
      ensures regs.Ref() == Units(secs, msec) && regs.Flags() == old(regs).Flags()
      ensures regs == old(regs).(reg2High := regs.reg2High, reg3 := regs.reg3)
    {
      ghost var _ := PRCMHIBRegWrite(Reg3, secs);
      RTCU16MSecRegWrite(msec);
    }

    method PRCMRTCSet(secs: nat, msec: nat) returns (ghost at: nat)
      requires Valid() && secs < TWO32 && msec < TWO16
      modifies this
      ensures Valid() && Step(period, old(Now()), RtcSet(secs, msec, at), Now())
    {
      at := ticks;
      var used := IsRTCUsed();
      if used {
        var ctr;
        ctr, at := PRCMSlowClkCtrGet();
        var x := MkMsec(secs, msec);
        x := Sub64(x, ctr / 32);
        var s, m := SplitMsec(x);
        SetPutsClock(Units(secs, msec), at, period);
        RefWrite(s, m);
      }
    }

    method PRCMRTCGet() returns (secs: nat, msec: nat, ghost at: nat)
      requires Valid()
      modifies this
      ensures Valid() && Step(period, old(Now()), RtcGet(secs, msec, at), Now())
    {
      at := ticks;
      var x := 0;
      var used := IsRTCUsed();
      if used {
        x := RefRead();
        var ctr;
        ctr, at := PRCMSlowClkCtrGet();
        x := Add64(x, ctr / 32);
        GetReadsClock(old(regs).Ref(), at, period);
      }
      secs, msec := SplitMsec(x);
    }

    method PRCMRTCMatchSet(secs: nat, msec: nat)
      requires Valid() && secs < TWO32 && msec < TWO16
      modifies this
      ensures Valid() && Step(period, old(Now()), RtcMatchSet(secs, msec), Now())
      ensures old(regs).reg2High < 0x8000 ==> regs == old(regs)
      ensures old(regs).reg2High >= 0x8000 ==>
                var ref := regs.reg3 * 1024 + regs.reg2High % 1024;
                var alarm := (secs * 1024 + msec % 1024 - ref) % 0x400_0000_0000 * 32;
                regs == old(regs).(irqLsw := alarm % 0x1_0000_0000, irqMsw := alarm / 0x1_0000_0000)
    {
      var used := IsRTCUsed();
      if used {
        var x := MkMsec(secs, msec);
        var ref := RefRead();
        x := Sub64(x, ref);
        Mod42Of64(Units(secs, msec) - ref);
        x := Select42(x);
        SccMatchSet(x);
      }
    }

    // RTC_U64MSEC_MK of the two reference registers
    method RefRead() returns (ref: nat)
      requires Valid()
      modifies `ticks
      ensures old(ticks) <= ticks && ref == regs.Ref() < UNITS
    {
      var s := PRCMHIBRegRead(Reg3);
      var m := RTCU16MSecRegRead();
      ref := MkMsec(s, m);
    }

    // SCC_U64MSEC_MATCH_SET
    method SccMatchSet(units: nat)
      requires Valid() && units < UNITS
      modifies this
      ensures Valid() && old(ticks) <= ticks
      ensures regs.Match() == units * 32
      ensures regs == old(regs).(irqLsw := units * 32 % 0x1_0000_0000, irqMsw := units * 32 / 0x1_0000_0000)
    {
      assert units * 32 % TWO64 == units * 32;
      assert units * 32 / 0x1_0000_0000 % 0x1_0000_0000 == units * 32 / 0x1_0000_0000;
      PRCMSlowClkCtrMatchSet(units * 32 % TWO64);
    }

    method PRCMRTCMatchGet() returns (secs: nat, msec: nat)
      requires Valid()
      modifies `ticks
      ensures Step(period, old(Now()), RtcMatchGet(secs, msec), Now())
    {
      var x := 0;
      var used := IsRTCUsed();
      if used {
        var value := PRCMSlowClkCtrMatchGet();
        x := value / 32;
        var ref := RefRead();
        x := Add64(x, ref);
        GetReadsMatch(ref, value);
      }
      secs, msec := SplitMsec(x);
    }
  }

  // ----- the calls of the calendar clock, in the fields of the registers

  /** PRCMRTCSet stores the reference with which the clock shows the given time at the latch, and keeps the rest. */
  lemma SetInFields(period: nat, s: Snap, secs: nat, msec: nat, at: nat, s': Snap)
    requires Period(period) && Step(period, s, RtcSet(secs, msec, at), s')
    ensures s.regs.reg2High < 0x8000 ==> s'.regs == s.regs
    ensures s.regs.reg2High >= 0x8000 ==>
              && s.ticks <= at <= s'.ticks
              && (s'.regs.reg3 * 1024 + s'.regs.reg2High % 1024 + at / 32) % 0x400_0000_0000
                   == secs * 1024 + msec % 1024
              && s'.regs.reg2High / 1024 == s.regs.reg2High / 1024
              && s'.regs == s.regs.(reg3 := s'.regs.reg3, reg2High := s'.regs.reg2High,
                                    timerLsw := s'.regs.timerLsw, timerMsw := s'.regs.timerMsw)
  {
    if s.regs.InUse() { ClockInFields(s'.regs, at); }
  }

  /** PRCMRTCGet adds the reference and the counter at the latch. */
  lemma GetInFields(period: nat, s: Snap, secs: nat, msec: nat, at: nat, s': Snap)
    requires Period(period) && Step(period, s, RtcGet(secs, msec, at), s')
    ensures s'.regs == s.regs.(timerLsw := s'.regs.timerLsw, timerMsw := s'.regs.timerMsw)
    ensures secs < 0x1_0000_0000 && msec < 1024
    ensures s.regs.reg2High < 0x8000 ==> secs == msec == 0
    ensures s.regs.reg2High >= 0x8000 ==>
              && s.ticks <= at <= s'.ticks
              && secs * 1024 + msec == (s.regs.reg3 * 1024 + s.regs.reg2High % 1024 + at / 32) % 0x400_0000_0000
  {
    if s.regs.InUse() { ClockInFields(s.regs, at); }
  }

  /** PRCMRTCMatchGet adds the reference and the match value. */
  lemma MatchGetInFields(period: nat, s: Snap, secs: nat, msec: nat, s': Snap)
    requires Period(period) && Step(period, s, RtcMatchGet(secs, msec), s')
    ensures s'.regs == s.regs && secs < 0x1_0000_0000 && msec < 1024
    ensures s.regs.reg2High < 0x8000 ==> secs == msec == 0
    ensures s.regs.reg2High >= 0x8000 ==>
              secs * 1024 + msec ==
              (s.regs.reg3 * 1024 + s.regs.reg2High % 1024 + (s.regs.irqMsw * 0x1_0000_0000 + s.regs.irqLsw) / 32)
                % 0x400_0000_0000
  {
    if s.regs.InUse() { ClockInFields(s.regs, s.regs.Match()); }
  }

  // ----- whole runs

  /** A sequence of calls, each starting where the one before it ended. */
  ghost predicate Run(period: nat, states: seq<Snap>, events: seq<Event>)
    requires Period(period)
  {
    && |states| == |events| + 1
    && forall i :: 0 <= i < |events| ==> Step(period, states[i], events[i], states[i + 1])
  }

  /** The calls that move the calendar's reference. */
  predicate MovesRef(e: Event) {
    e.RtcSet? || e.OcrWrite?
  }

  predicate MovesMatch(e: Event) {
    e.RtcMatchSet? || e.CtrMatchSet? || e.OcrWrite?
  }

  lemma StepKeepsUse(period: nat, s: Snap, e: Event, s': Snap)
    requires Period(period) && Step(period, s, e, s') && !e.OcrWrite? && s.regs.InUse()
    ensures s'.regs.InUse() && s'.regs.Flags() == s.regs.Flags()
    ensures !MovesRef(e) ==> s'.regs.Ref() == s.regs.Ref()
    ensures !MovesMatch(e) ==> s'.regs.Match() == s.regs.Match()
  {
    if e.InUseSet? {
      SameHalf(s.regs.reg2High, s'.regs.reg2High);
    }
  }

  lemma SameHalf(h: Half, h': Half)
    requires h >= 0x8000 && h' >= 0x8000 && h % 0x8000 == h' % 0x8000
    ensures h == h'
  {
  }

  /** Once in use, the clock stays in use, and bits 31..26 and 15..0 of REG2 never change. */
  lemma {:induction false} UseLaw(period: nat, states: seq<Snap>, events: seq<Event>, i: nat, j: nat)
    requires Period(period) && Run(period, states, events) && i <= j <= |events|
    requires states[i].regs.InUse()
    requires forall k :: i <= k < j ==> !events[k].OcrWrite?
    ensures states[j].regs.InUse() && states[j].regs.reg2High >= 0x8000
    ensures states[j].regs.reg2High / 1024 == states[i].regs.reg2High / 1024
    ensures states[j].regs.reg2Low == states[i].regs.reg2Low
    ensures states[i].ticks <= states[j].ticks
    ensures (forall k :: i <= k < j ==> !MovesRef(events[k])) ==> states[j].regs.Ref() == states[i].regs.Ref()
    ensures (forall k :: i <= k < j ==> !MovesMatch(events[k])) ==> states[j].regs.Match() == states[i].regs.Match()
    decreases j
  {
    if i < j {
      UseLaw(period, states, events, i, j - 1);
      assert Step(period, states[j - 1], events[j - 1], states[j]);
      StepKeepsUse(period, states[j - 1], events[j - 1], states[j]);
    }
  }

  /** PRCMRTCGet returns the last time set plus the time elapsed since, modulo 2^42 units: for every
      counter period, every wrap-around of the counter and every ticking between the calls' steps. */
  lemma ClockLaw(period: nat, states: seq<Snap>, events: seq<Event>, i: nat, j: nat)
    requires Period(period) && Run(period, states, events) && i < j < |events|
    requires events[i].RtcSet? && states[i].regs.InUse() && events[j].RtcGet?
    requires forall k :: i < k < j ==> !MovesRef(events[k])
    ensures events[i].at <= events[j].at
    ensures events[j].secs * 1024 + events[j].msec ==
            (events[i].secs * 1024 + events[i].msec % 1024 + events[j].at / 32 - events[i].at / 32) % 0x400_0000_0000
  {
    assert Step(period, states[i], events[i], states[i + 1]);
    StepKeepsUse(period, states[i], events[i], states[i + 1]);
    UseLaw(period, states, events, i + 1, j);
    assert Step(period, states[j], events[j], states[j + 1]);
    ClockAdvances(states[j].regs.Ref(), events[i].at, events[j].at);
    LaterUnits(events[i].secs, events[i].msec, events[i].at / 32, events[j].secs, events[j].msec, events[j].at / 32);
  }

  lemma ClockAdvances(ref: int, from: nat, to: nat)
    ensures Clock(ref, to) == (Clock(ref, from) + to / 32 - from / 32) % UNITS
  {
    var k := (ref + from / 32) / UNITS;
    assert Clock(ref, from) + to / 32 - from / 32 == ref + to / 32 + UNITS * -k;
    ModShift(ref + to / 32, -k);
  }

  /** PRCMRTCMatchGet returns the alarm last set, moved by exactly the change of reference made since. */
  lemma AlarmLaw(period: nat, states: seq<Snap>, events: seq<Event>, i: nat, j: nat)
    requires Period(period) && Run(period, states, events) && i < j < |events|
    requires events[i].RtcMatchSet? && states[i].regs.InUse() && events[j].RtcMatchGet?
    requires forall k :: i < k < j ==> !MovesMatch(events[k])
    ensures Units(events[j].secs, events[j].msec) ==
            (Units(events[i].secs, events[i].msec) + states[j].regs.Ref() - states[i].regs.Ref()) % UNITS
  {
    assert Step(period, states[i], events[i], states[i + 1]);
    StepKeepsUse(period, states[i], events[i], states[i + 1]);
    UseLaw(period, states, events, i + 1, j);
    assert Step(period, states[j], events[j], states[j + 1]);
    MatchReadBack(Units(events[i].secs, events[i].msec), states[i].regs.Ref(), states[j].regs.Ref());
  }

  /** With no time set in between, PRCMRTCMatchGet returns the alarm as it was set. */
  lemma AlarmReadBack(period: nat, states: seq<Snap>, events: seq<Event>, i: nat, j: nat)
    requires Period(period) && Run(period, states, events) && i < j < |events|
    requires events[i].RtcMatchSet? && states[i].regs.InUse() && events[j].RtcMatchGet?
    requires events[i].secs < TWO32
    requires forall k :: i < k < j ==> !MovesMatch(events[k]) && !MovesRef(events[k])
    ensures events[j].secs == events[i].secs && events[j].msec == events[i].msec % 1024
  {
    AlarmLaw(period, states, events, i, j);
    assert Step(period, states[i], events[i], states[i + 1]);
    StepKeepsUse(period, states[i], events[i], states[i + 1]);
    UseLaw(period, states, events, i + 1, j);
    assert Step(period, states[j], events[j], states[j + 1]);
    SameTime(events[i].secs, events[i].msec, events[j].secs, events[j].msec);
  }

  lemma MatchReadBack(target: nat, ref: nat, ref': nat)
    ensures Clock(ref', AlarmMatch(ref, target)) == (target + ref' - ref) % UNITS
  {
    var k := (target - ref) / UNITS;
    assert ref' + AlarmMatch(ref, target) / 32 == target + ref' - ref + UNITS * -k;
    ModShift(target + ref' - ref, -k);
  }

  /** In a run, an alarm that is ahead when set fires before no reading of its target and with the first one. */
  lemma AlarmInRun(period: nat, states: seq<Snap>, events: seq<Event>, i: nat, j: nat)
    requires Period(period) && Run(period, states, events) && i < j < |events|
    requires events[i].RtcMatchSet? && states[i].regs.InUse() && events[j].RtcGet?
    requires events[i].secs < TWO32
    requires forall k :: i < k < j ==> !MovesRef(events[k])
    requires AlarmMatch(states[i].regs.Ref(), Units(events[i].secs, events[i].msec))
           > Counter(states[i + 1].ticks, period)
    ensures var target := Units(events[i].secs, events[i].msec);
            var fire := FireTick(states[i].regs.Ref(), target, states[i + 1].ticks, period);
            && states[i + 1].regs.irqLsw == Counter(fire, period) % 0x1_0000_0000
            && states[i + 1].regs.irqMsw == Counter(fire, period) / 0x1_0000_0000
            && states[i + 1].ticks <= fire
            && (forall t: nat :: states[i + 1].ticks <= t < fire ==>
                  Counter(t, period) != states[i + 1].regs.irqMsw * 0x1_0000_0000 + states[i + 1].regs.irqLsw)
            && (Units(events[j].secs, events[j].msec) == target ==> fire <= events[j].at)
            && (fire <= events[j].at < fire + 32 ==> Units(events[j].secs, events[j].msec) == target)
  {
    assert Step(period, states[i], events[i], states[i + 1]);
    StepKeepsUse(period, states[i], events[i], states[i + 1]);
    UseLaw(period, states, events, i + 1, j);
    assert Step(period, states[j], events[j], states[j + 1]);
    var ref, target := states[i].regs.Ref(), Units(events[i].secs, events[i].msec);
    var now, at := states[i + 1].ticks, events[j].at;
    UnitsBound(events[i].secs, events[i].msec);
    AlarmFiresFirst(ref, target, now, period);
    MatchHalves(states[i + 1].regs);
    var fire := FireTick(ref, target, now, period);
    if fire <= at < fire + 32 { FireUnit(ref, target, now, at, period); }
  }

  lemma UnitsBound(secs: nat, msec: nat)
    requires secs < TWO32
    ensures Units(secs, msec) < UNITS
  {
  }

  lemma SameTime(secs: nat, msec: nat, secs': nat, msec': nat)
    requires secs < TWO32 && msec' < 1024
    requires Units(secs', msec') == Units(secs, msec) % UNITS
    ensures secs' == secs && msec' == msec % 1024
  {
    UnitsBound(secs, msec);
  }

  /** Writing an on-chip retention register keeps the time exactly when it rewrites the stored field:
      register 0 holds the fraction and the in-use bit, register 1 the seconds. */
  lemma OcrWriteKeepsTime(period: nat, s: Snap, e: Event, s': Snap)
    requires Period(period) && e.OcrWrite? && e.index <= 1 && Step(period, s, e, s')
    ensures s'.regs.Ref() == s.regs.Ref() <==>
              if e.index == 0 then e.word / TWO16 % 1024 == s.regs.reg2High % 1024
              else e.word == s.regs.reg3
    ensures s'.regs.InUse() <==> if e.index == 0 then e.word >= 0x8000_0000 else s.regs.InUse()
  {
  }

  // ----- lemmas the methods call

  lemma HighBit(h: nat)
    requires h < TWO16
    ensures Bit(h, 15) <==> h >= 0x8000
  {
    Pow2At15();
    BitIsDiv(h, 15);
  }

  lemma TestBit15(h: nat)
    requires h < TWO16
    ensures And(h, 0x8000) != 0 <==> h >= 0x8000
  {
    Pow2At15();
    AndPow2(h, 15);
    HighBit(h);
  }

  lemma SetBit15(h: nat)
    requires h < TWO16
    ensures 0x8000 <= Or(h, 0x8000) < TWO16 && Or(h, 0x8000) % 0x8000 == h % 0x8000
  {
    Pow2At15();
    OrPow2(h, 15);
    HighBit(h);
  }

  lemma ReplaceLow10(h: nat, ms: nat)
    requires ms < 1024
    ensures Or(AndNot(h, 0x3FF), ms) == h / 1024 * 1024 + ms
  {
    Pow2At10();
    AndNotMask(h, 10);
    OrDisjoint(h / 1024, ms, 10);
  }

  lemma HalfFields(h: nat, ms: nat)
    requires h < TWO16 && ms < 1024
    ensures var v := h / 1024 * 1024 + ms; v < TWO16 && v % 1024 == ms && v / 1024 == h / 1024
  {
  }

  lemma SplitHalves(value: nat)
    ensures value / TWO32 % TWO32 * TWO32 + value % TWO32 == value % TWO64
  {
  }

  lemma HalvesMod64(x: nat)
    ensures x % TWO64 % 0x1_0000_0000 == x % 0x1_0000_0000
    ensures x % TWO64 / 0x1_0000_0000 == x / 0x1_0000_0000 % 0x1_0000_0000
  {
  }

  /** A match value is split into its low and high 32 bits. */
  lemma MatchHalves(r: Regs)
    ensures r.irqLsw == r.Match() % 0x1_0000_0000 && r.irqMsw == r.Match() / 0x1_0000_0000
  {
    ModUnique(r.Match(), 0x1_0000_0000, r.irqMsw, r.irqLsw);
  }

  lemma Mod42Of64(x: int)
    ensures x % TWO64 % UNITS == x % UNITS
  {
  }

  lemma SetPutsClock(target: nat, at: nat, period: nat)
    requires Period(period) && target < UNITS
    ensures Clock(Sub64(target, Counter(at, period) / 32) % UNITS, at) == target
  {
    var n := Counter(at, period) / 32;
    Mod42Of64(target - n);
    CounterKeepsClock((target - n) % UNITS, at, period);
    RefBack(target, n);
  }

  lemma RefBack(target: nat, n: nat)
    requires target < UNITS
    ensures ((target - n) % UNITS + n) % UNITS == target
  {
    var k := (target - n) / UNITS;
    assert (target - n) % UNITS + n == target + UNITS * -k;
    ModShift(target, -k);
  }

  /** The calendar time the registers show, in their own fields. */
  lemma ClockInFields(r: Regs, at: nat)
    ensures Clock(r.Ref(), at) == (r.reg3 * 1024 + r.reg2High % 1024 + at / 32) % 0x400_0000_0000
  {
  }

  lemma LaterUnits(secs: nat, msec: nat, from: nat, secs': nat, msec': nat, to: nat)
    requires msec' < 1024 && Units(secs', msec') == (Units(secs, msec) + to - from) % UNITS
    ensures secs' * 1024 + msec' == (secs * 1024 + msec % 1024 + to - from) % 0x400_0000_0000
  {
    assert Units(secs', msec') == secs' * 1024 + msec';
  }

  lemma GetReadsClock(ref: nat, at: nat, period: nat)
    requires Period(period)
    ensures Add64(ref, Counter(at, period) / 32) % UNITS == Clock(ref, at)
  {
    Mod42Of64(ref + Counter(at, period) / 32);
    CounterKeepsClock(ref, at, period);
  }

  lemma GetReadsMatch(ref: nat, value: nat)
    ensures Add64(value / 32, ref) % UNITS == Clock(ref, value)
  {
    Mod42Of64(ref + value / 32);
  }
}
