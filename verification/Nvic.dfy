/** driverlib/interrupt.c against the registers: banks of enable and pend bits, priority byte lanes, and the vector
    table. */
module Nvic {
  import opened Bits
  import opened NvicRuns

  const FAULT_NMI := 2
  const FAULT_MPU := 4
  const FAULT_BUS := 5
  const FAULT_USAGE := 6
  const FAULT_PENDSV := 14
  const FAULT_SYSTICK := 15

  const INT_AES := 167
  const INT_SSPI := 191
  const INT_GSPI := 192
  const INT_LSPI := 193

  // ----- banks of 32 one-bit flags for the interrupts from 16 on

  function Bank(n: nat): nat requires n >= 16 { (n - 16) / 32 }

  function BitAt(n: nat): nat requires n >= 16 { (n - 16) % 32 }

  predicate InBanks(words: seq<nat>, n: nat)
    requires |words| == 6
  {
    16 <= n < NUM_INTERRUPTS && Bit(words[Bank(n)], BitAt(n))
  }

  /** No two interrupts share a bit. */
  lemma OwnBit(m: nat, n: nat)
    requires 16 <= m && 16 <= n && Bank(m) == Bank(n) && BitAt(m) == BitAt(n)
    ensures m == n
  {
  }

  lemma BankSet(words: seq<nat>, n: nat, m: nat)
    requires |words| == 6 && 16 <= n < NUM_INTERRUPTS
    ensures InBanks(words[Bank(n) := Or(words[Bank(n)], Pow2(BitAt(n)))], m)
            <==> InBanks(words, m) || m == n
  {
    if 16 <= m < NUM_INTERRUPTS && Bank(m) == Bank(n) {
      BitOfOr(words[Bank(n)], Pow2(BitAt(n)), BitAt(m));
      BitOfPow2(BitAt(n), BitAt(m));
      if BitAt(m) == BitAt(n) { OwnBit(m, n); }
    }
  }

  lemma BankClear(words: seq<nat>, n: nat, m: nat)
    requires |words| == 6 && 16 <= n < NUM_INTERRUPTS
    ensures InBanks(words[Bank(n) := AndNot(words[Bank(n)], Pow2(BitAt(n)))], m)
            <==> InBanks(words, m) && m != n
  {
    if 16 <= m < NUM_INTERRUPTS && Bank(m) == Bank(n) {
      BitOfAndNot(words[Bank(n)], Pow2(BitAt(n)), BitAt(m));
      BitOfPow2(BitAt(n), BitAt(m));
      if BitAt(m) == BitAt(n) { OwnBit(m, n); }
    }
  }

  /** The table index and the mask the C code writes for interrupt n. */
  method BankBit(n: nat) returns (bank: nat, mask: nat)
    requires 16 <= n < NUM_INTERRUPTS
    ensures bank == Bank(n) && mask == Pow2(BitAt(n))
  {
    assert Pow2(5) == 32;
    AndMask(n - 16, 5);
    bank, mask := (n - 16) / 32, Pow2(And(n - 16, 31));
  }

  // ----- enable bits of the system handlers

  /** Bits of the system handler control register: memory, bus and usage fault. */
  function FaultBit(n: nat): nat
    requires 4 <= n <= 6
  {
    n + 12
  }

  predicate Enabled(sysHndCtrl: nat, stCtrl: nat, en: seq<nat>, n: nat)
    requires |en| == 6
  {
    if 4 <= n <= 6 then Bit(sysHndCtrl, FaultBit(n))
    else if n == 15 then Bit(stCtrl, 1)
    else InBanks(en, n)
  }

  /** The interrupts IntEnable and IntDisable act on. */
  predicate HasEnable(n: nat) {
    4 <= n <= 6 || 15 <= n < NUM_INTERRUPTS
  }

  lemma SetFault(r: nat, n: nat, m: nat)
    requires 4 <= n <= 6 && 4 <= m <= 6
    ensures Bit(Or(r, Pow2(FaultBit(n))), FaultBit(m)) <==> Bit(r, FaultBit(m)) || m == n
    ensures Bit(AndNot(r, Pow2(FaultBit(n))), FaultBit(m)) <==> Bit(r, FaultBit(m)) && m != n
  {
    BitOfOr(r, Pow2(FaultBit(n)), FaultBit(m));
    BitOfAndNot(r, Pow2(FaultBit(n)), FaultBit(m));
    BitOfPow2(FaultBit(n), FaultBit(m));
  }

  lemma SetTick(r: nat)
    ensures Bit(Or(r, Pow2(1)), 1) && !Bit(AndNot(r, Pow2(1)), 1)
  {
    BitOfOr(r, Pow2(1), 1);
    BitOfAndNot(r, Pow2(1), 1);
    BitOfPow2(1, 1);
  }

  lemma FaultMasks()
    ensures Pow2(16) == 0x1_0000 && Pow2(17) == 0x2_0000 && Pow2(18) == 0x4_0000 && Pow2(1) == 2
  {
    Pow2Sum(8, 8);
    Pow2At8();
  }

  // ----- priorities, four byte lanes to a register

  function Shl(x: nat, k: nat): nat {
    if k == 0 then x else 2 * Shl(x, k - 1)
  }

  function Shr(x: nat, k: nat): nat {
    if k == 0 then x else Shr(x / 2, k - 1)
  }

  function Lane(word: nat, k: nat): nat {
    Shr(word, 8 * k) % 256
  }

  /** Clearing lane k of a register and filling it, as the C code does. */
  function Filled(word: nat, k: nat, b: Byte): nat {
    Or(AndNot(word, Shl(0xFF, 8 * k)), Shl(b, 8 * k))
  }

  lemma {:induction false} AndNotShl(x: nat, y: nat, k: nat)
    ensures AndNot(x, Shl(y, k)) == Low(x, k) + Shl(AndNot(Shr(x, k), y), k)
    decreases k
  {
    if k > 0 {
      AndNotShl(x / 2, y, k - 1);
      AndNotEven(x, Shl(y, k - 1));
    }
  }

  lemma AndNotEven(x: nat, z: nat)
    ensures AndNot(x, 2 * z) == x % 2 + 2 * AndNot(x / 2, z)
  {
    if z == 0 { assert AndNot(x, 0) == x && AndNot(x / 2, 0) == x / 2; }
  }

  lemma OrEven(x: nat, z: nat)
    ensures Or(x, 2 * z) == x % 2 + 2 * Or(x / 2, z)
  {
    if z == 0 { assert Or(x, 0) == x && Or(x / 2, 0) == x / 2; }
  }

  lemma {:induction false} OrShl(x: nat, y: nat, k: nat)
    ensures Or(x, Shl(y, k)) == Low(x, k) + Shl(Or(Shr(x, k), y), k)
    decreases k
  {
    if k > 0 {
      OrShl(x / 2, y, k - 1);
      OrEven(x, Shl(y, k - 1));
    }
  }

  /** A number put together from k low bits and the rest comes apart into them. */
  lemma {:induction false} JoinParts(x: nat, hi: nat, k: nat)
    ensures var w := Low(x, k) + Shl(hi, k); Low(w, k) == Low(x, k) && Shr(w, k) == hi
    decreases k
  {
    if k > 0 {
      JoinParts(x / 2, hi, k - 1);
      var w := Low(x, k) + Shl(hi, k);
      assert w % 2 == x % 2 && w / 2 == Low(x / 2, k - 1) + Shl(hi, k - 1);
    }
  }

  lemma {:induction false} ShrSum(x: nat, a: nat, b: nat)
    ensures Shr(x, a + b) == Shr(Shr(x, a), b)
    decreases a
  {
    if a > 0 { ShrSum(x / 2, a - 1, b); }
  }

  lemma {:induction false} LowShr(x: nat, a: nat, c: nat)
    ensures Shr(Low(x, a + c), a) == Low(Shr(x, a), c)
    decreases a
  {
    if a > 0 {
      LowShr(x / 2, a - 1, c);
      assert Low(x, a + c) / 2 == Low(x / 2, a - 1 + c);
    }
  }

  lemma {:induction false} LowLow(x: nat, c: nat, d: nat)
    requires d <= c
    ensures Low(Low(x, c), d) == Low(x, d)
    decreases d
  {
    if d > 0 {
      LowLow(x / 2, c - 1, d - 1);
      assert Low(x, c) / 2 == Low(x / 2, c - 1);
    }
  }

  /** Below bit 8k nothing changes, and from there on only the byte. */
  lemma FilledParts(word: nat, k: nat, b: Byte)
    ensures Low(Filled(word, k, b), 8 * k) == Low(word, 8 * k)
    ensures Shr(Filled(word, k, b), 8 * k) == Shr(word, 8 * k) / 256 * 256 + b
  {
    var n := 8 * k;
    var cleared := AndNot(word, Shl(0xFF, n));
    ClearedParts(word, n);
    OrShl(cleared, b, n);
    JoinParts(cleared, Or(Shr(cleared, n), b), n);
    FillByte(Shr(word, n) / 256, b);
  }

  lemma ClearedParts(word: nat, n: nat)
    ensures var cleared := AndNot(word, Shl(0xFF, n));
            Low(cleared, n) == Low(word, n) && Shr(cleared, n) == Shr(word, n) / 256 * 256
  {
    AndNotShl(word, 0xFF, n);
    JoinParts(word, AndNot(Shr(word, n), 0xFF), n);
    ClearByte(Shr(word, n));
  }

  lemma ClearByte(h: nat)
    ensures AndNot(h, 0xFF) == h / 256 * 256
  {
    Pow2At8();
    AndNotMask(h, 8);
  }

  lemma FillByte(q: nat, b: Byte)
    ensures Or(q * 256, b) == q * 256 + b
  {
    Pow2At8();
    OrDisjoint(q, b, 8);
  }

  lemma ByteOnTop(h: nat, b: Byte)
    ensures Shr(h / 256 * 256 + b, 8) == Shr(h, 8)
  {
    ShrEight(h);
    ShrEight(h / 256 * 256 + b);
  }

  lemma ShrEight(x: nat)
    ensures Shr(x, 8) == x / 256
  {
    ShrTwo(x);
    ShrTwo(x / 4);
    ShrTwo(x / 16);
    ShrTwo(x / 64);
    ShrSum(x, 2, 6);
    ShrSum(x / 4, 2, 4);
    ShrSum(x / 16, 2, 2);
  }

  lemma ShrTwo(x: nat)
    ensures Shr(x, 2) == x / 4
  {
    assert Shr(x, 2) == Shr(x / 2, 1) == Shr(x / 2 / 2, 0);
  }

  /** The lane takes the byte and the other lanes keep theirs. */
  lemma FilledLane(word: nat, k: nat, b: Byte, j: nat)
    ensures Lane(Filled(word, k, b), j) == if j == k then b else Lane(word, j)
  {
    var w := Filled(word, k, b);
    FilledParts(word, k, b);
    if j > k {
      var up := 8 * (j - k - 1);
      ByteOnTop(Shr(word, 8 * k), b);
      ShrSum(w, 8 * k, 8);
      ShrSum(word, 8 * k, 8);
      ShrSum(w, 8 * k + 8, up);
      ShrSum(word, 8 * k + 8, up);
      assert 8 * k + 8 + up == 8 * j;
    } else if j < k {
      LaneFromLow(w, j, k);
      LaneFromLow(word, j, k);
    }
  }

  lemma LaneFromLow(x: nat, j: nat, k: nat)
    requires j < k
    ensures Lane(x, j) == Low(Shr(Low(x, 8 * k), 8 * j), 8)
  {
    var c := 8 * k - 8 * j;
    LowShr(x, 8 * j, c);
    assert 8 * j + c == 8 * k;
    LowLow(Shr(x, 8 * j), c, 8);
    Pow2At8();
    LowIsMod(Shr(x, 8 * j), 8);
  }

  // ----- priority grouping

  const VECTKEY: nat := 0x05FA_0000
  const VECTKEYSTAT: nat := 0xFA05_0000

  /** The APINT code for each number of preemption bits. */
  const PRIORITY_GROUPS: seq<nat> := [0x700, 0x600, 0x500, 0x400, 0x300, 0x200, 0x100, 0x000]

  /** The grouping field of APINT. */
  function Group(apint: nat): nat {
    And(apint, 0x700)
  }

  lemma {:induction false} AndShl(x: nat, y: nat, k: nat)
    ensures And(x, Shl(y, k)) == Shl(And(Shr(x, k), y), k)
    decreases k
  {
    if k > 0 {
      AndShl(x / 2, y, k - 1);
      AndEven(x, Shl(y, k - 1));
    }
  }

  lemma AndEven(x: nat, z: nat)
    ensures And(x, 2 * z) == 2 * And(x / 2, z)
  {
    var y := 2 * z;
    assert y % 2 == 0 && y / 2 == z;
    if x == 0 || z == 0 {
      assert And(x, y) == 0 && And(x / 2, z) == 0;
    } else {
      assert And(x, y) == 0 + 2 * And(x / 2, y / 2);
    }
  }

  lemma ShlEight(x: nat)
    ensures Shl(x, 8) == 256 * x
  {
    assert Shl(x, 2) == 2 * Shl(x, 1) == 2 * (2 * Shl(x, 0)) == 4 * x;
    assert Shl(x, 4) == 2 * Shl(x, 3) == 2 * (2 * Shl(x, 2));
    assert Shl(x, 6) == 2 * Shl(x, 5) == 2 * (2 * Shl(x, 4));
    assert Shl(x, 8) == 2 * Shl(x, 7) == 2 * (2 * Shl(x, 6));
  }

  lemma GroupField(w: nat)
    ensures Group(w) == 256 * (w / 256 % 8)
  {
    ShlEight(7);
    AndShl(w, 7, 8);
    ShrEight(w);
    assert Pow2(3) == 8;
    AndMask(w / 256, 3);
    ShlEight(w / 256 % 8);
  }

  /** Whatever is in its upper half, APINT holds the group that was ORed in. */
  lemma GroupOfWrite(key: nat, bits: nat)
    requires bits < 8
    ensures Group(Or(key * TWO16, PRIORITY_GROUPS[bits])) == PRIORITY_GROUPS[bits]
  {
    var g := 7 - bits;
    var w := Or(key * TWO16, PRIORITY_GROUPS[bits]);
    assert PRIORITY_GROUPS[bits] == 256 * g;
    assert w == key * TWO16 + 256 * g by {
      Pow2Sum(8, 8);
      Pow2At8();
      OrDisjoint(key, 256 * g, 16);
    }
    GroupField(w);
    GroupDigits(key, g, w);
  }

  lemma GroupDigits(key: nat, g: nat, w: nat)
    requires g < 8 && w == key * TWO16 + 256 * g
    ensures w / 256 % 8 == g
  {
    assert w / 256 == key * 256 + g;
  }

  // ----- the interrupt controller

  /** The exceptions INT_CTRL has a pend bit for: NMI, PendSV and SysTick. */
  const SYSTEM_PENDS: set<nat> := {2, 14, 15}

  /** The interrupts IntPendSet acts on. */
  predicate HasPend(n: nat) {
    n in SYSTEM_PENDS || 16 <= n < NUM_INTERRUPTS
  }

  datatype SpiBase = Sspi | Gspi | Lspi

  function SPIIntNumberGet(base: SpiBase): (n: nat)
    ensures (base.Sspi? ==> n == 191) && (base.Gspi? ==> n == 192) && (base.Lspi? ==> n == 193)
  {
    match base
    case Sspi => INT_SSPI
    case Gspi => INT_GSPI
    case Lspi => INT_LSPI
  }

  class Controller {
    var sysHndCtrl: nat
    var stCtrl: nat
    var en: seq<nat>
    var pend: seq<nat>
    /** The priority registers, by index in the driver's table; entry 0 is not a register. */
    var pri: seq<nat>
    var apint: nat
    var vectors: seq<Handler>
    /** The pend bits of INT_CTRL, as they read. */
    var sysPends: set<nat>

    constructor ()
      ensures Valid() && Now() == Snap({}, {}, seq(NUM_INTERRUPTS, i => Default))
    {
      sysHndCtrl, stCtrl, en, pend := 0, 0, [0, 0, 0, 0, 0, 0], [0, 0, 0, 0, 0, 0];
      pri, apint, vectors, sysPends := seq(53, i => 0), VECTKEYSTAT, seq(NUM_INTERRUPTS, i => Default), {};
      new;
      forall n: nat ensures !Enabled(sysHndCtrl, stCtrl, en, n) && !InBanks(pend, n) {
        if 16 <= n < NUM_INTERRUPTS { ZeroHasNoBit(BitAt(n)); }
        if 4 <= n <= 6 { ZeroHasNoBit(FaultBit(n)); }
        ZeroHasNoBit(1);
      }
    }

    ghost predicate Valid() reads this {
      |en| == 6 && |pend| == 6 && |pri| == 53 && |vectors| == NUM_INTERRUPTS && sysPends <= SYSTEM_PENDS
    }

    /** What the registers mean. */
    ghost function Now(): (s: Snap)
      requires Valid()
      reads this
      ensures s.Valid()
    {
      var enabled := set n: nat | n < NUM_INTERRUPTS && Enabled(sysHndCtrl, stCtrl, en, n);
      var pending := set n: nat | n < NUM_INTERRUPTS && (n in sysPends || InBanks(pend, n));
      Snap(enabled, pending, vectors)
    }

    // writing ones to an enable or pend register sets, to a disable or unpend register clears

    method WriteEn(bank: nat, mask: nat)
      requires Valid() && bank < 6
      modifies `en
      ensures en == old(en)[bank := Or(old(en)[bank], mask)]
    {
      en := en[bank := Or(en[bank], mask)];
    }

    method WriteDis(bank: nat, mask: nat)
      requires Valid() && bank < 6
      modifies `en
      ensures en == old(en)[bank := AndNot(old(en)[bank], mask)]
    {
      en := en[bank := AndNot(en[bank], mask)];
    }

    method WritePend(bank: nat, mask: nat)
      requires Valid() && bank < 6
      modifies `pend
      ensures pend == old(pend)[bank := Or(old(pend)[bank], mask)]
    {
      pend := pend[bank := Or(pend[bank], mask)];
    }

    method WriteUnpend(bank: nat, mask: nat)
      requires Valid() && bank < 6
      modifies `pend
      ensures pend == old(pend)[bank := AndNot(old(pend)[bank], mask)]
    {
      pend := pend[bank := AndNot(pend[bank], mask)];
    }

    /** A write to INT_CTRL: pend bits set, unpend bits clear; what both for one exception do is left open. */
    method WriteIntCtrl(sets: set<nat>, clears: set<nat>)
      requires Valid() && sets <= SYSTEM_PENDS && clears <= {14, 15}
      modifies `sysPends
      ensures Valid()
      ensures forall n :: n !in sets * clears ==> (n in sysPends <==> n in old(sysPends) + sets - clears)
    {
      var either: set<nat> :| either <= sets * clears;
      sysPends := sysPends + sets - clears + either;
    }

    method IntRegister(n: nat, handler: nat)
      requires Valid() && n < NUM_INTERRUPTS
      modifies `vectors
      ensures Valid() && Step(old(Now()), Register(n, handler), Now()) && vectors == old(vectors)[n := Fn(handler)]
    {
      vectors := vectors[n := Fn(handler)];
    }

    method IntUnregister(n: nat)
      requires Valid() && n < NUM_INTERRUPTS
      modifies `vectors
      ensures Valid() && Step(old(Now()), Unregister(n), Now()) && vectors == old(vectors)[n := Default]
    {
      vectors := vectors[n := Default];
    }

    /** Interrupts without an enable bit, such as SVCall, are left alone. */
    method IntEnable(n: nat)
      requires Valid() && n < NUM_INTERRUPTS
      modifies `sysHndCtrl, `stCtrl, `en
      ensures Valid()
      ensures if HasEnable(n) then Step(old(Now()), Enable(n), Now()) else unchanged(this)
      ensures sysHndCtrl == if n == 4 then Or(old(sysHndCtrl), 0x1_0000)
                            else if n == 5 then Or(old(sysHndCtrl), 0x2_0000)
                            else if n == 6 then Or(old(sysHndCtrl), 0x4_0000) else old(sysHndCtrl)
      ensures stCtrl == if n == 15 then Or(old(stCtrl), 2) else old(stCtrl)
      ensures en == if n < 16 then old(en)
                    else old(en)[(n - 16) / 32 := Or(old(en)[(n - 16) / 32], Pow2((n - 16) % 32))]
    {
      ghost var was := Now();
      if n == FAULT_MPU {
        sysHndCtrl := Or(sysHndCtrl, 0x1_0000);
      } else if n == FAULT_BUS {
        sysHndCtrl := Or(sysHndCtrl, 0x2_0000);
      } else if n == FAULT_USAGE {
        sysHndCtrl := Or(sysHndCtrl, 0x4_0000);
      } else if n == FAULT_SYSTICK {
        stCtrl := Or(stCtrl, 2);
      } else if n >= 16 {
        var bank, mask := BankBit(n);
        WriteEn(bank, mask);
      }
      if HasEnable(n) {
        forall m: nat | m < NUM_INTERRUPTS
          ensures Enabled(sysHndCtrl, stCtrl, en, m) <==> m in was.enabled || m == n
        {
          EnableEffect(old(sysHndCtrl), old(stCtrl), old(en), n, m);
        }
        assert Now().enabled == was.enabled + {n};
      }
    }

    method IntDisable(n: nat)
      requires Valid() && n < NUM_INTERRUPTS
      modifies `sysHndCtrl, `stCtrl, `en
      ensures Valid()
      ensures if HasEnable(n) then Step(old(Now()), Disable(n), Now()) else unchanged(this)
      ensures sysHndCtrl == if n == 4 then AndNot(old(sysHndCtrl), 0x1_0000)
                            else if n == 5 then AndNot(old(sysHndCtrl), 0x2_0000)
                            else if n == 6 then AndNot(old(sysHndCtrl), 0x4_0000) else old(sysHndCtrl)
      ensures stCtrl == if n == 15 then AndNot(old(stCtrl), 2) else old(stCtrl)
      ensures en == if n < 16 then old(en)
                    else old(en)[(n - 16) / 32 := AndNot(old(en)[(n - 16) / 32], Pow2((n - 16) % 32))]
    {
      ghost var was := Now();
      if n == FAULT_MPU {
        sysHndCtrl := AndNot(sysHndCtrl, 0x1_0000);
      } else if n == FAULT_BUS {
        sysHndCtrl := AndNot(sysHndCtrl, 0x2_0000);
      } else if n == FAULT_USAGE {
        sysHndCtrl := AndNot(sysHndCtrl, 0x4_0000);
      } else if n == FAULT_SYSTICK {
        stCtrl := AndNot(stCtrl, 2);
      } else if n >= 16 {
        var bank, mask := BankBit(n);
        WriteDis(bank, mask);
      }
      if HasEnable(n) {
        forall m: nat | m < NUM_INTERRUPTS
          ensures Enabled(sysHndCtrl, stCtrl, en, m) <==> m in was.enabled && m != n
        {
          DisableEffect(old(sysHndCtrl), old(stCtrl), old(en), n, m);
        }
        assert Now().enabled == was.enabled - {n};
      }
    }

    /** Sets a pend bit; the system exceptions' bits are set by a read-modify-write, which sets again what is set. */
    method IntPendSet(n: nat)
      requires Valid() && n < NUM_INTERRUPTS
      modifies `pend, `sysPends
      ensures Valid()
      ensures if HasPend(n) then Step(old(Now()), Pend(n), Now()) else unchanged(this)
      ensures pend == if n < 16 then old(pend)
                      else old(pend)[(n - 16) / 32 := Or(old(pend)[(n - 16) / 32], Pow2((n - 16) % 32))]
    {
      ghost var was := Now();
      if n == FAULT_NMI {
        WriteIntCtrl(sysPends + {2}, {});
      } else if n == FAULT_PENDSV {
        WriteIntCtrl(sysPends + {14}, {});
      } else if n == FAULT_SYSTICK {
        WriteIntCtrl(sysPends + {15}, {});
      } else if n >= 16 {
        var bank, mask := BankBit(n);
        WritePend(bank, mask);
        forall m: nat ensures InBanks(pend, m) <==> InBanks(old(pend), m) || m == n {
          BankSet(old(pend), n, m);
        }
      }
      if HasPend(n) {
        assert Now().pending == was.pending + {n};
      }
    }

    /** Clears a pend bit, except that for PendSV and SysTick the read-modify-write puts the pend bit it has read next
        to the unpend bit: what that does to the exception is left open, and nothing else changes. */
    method IntPendClear(n: nat)
      requires Valid() && n < NUM_INTERRUPTS
      modifies `pend, `sysPends
      ensures Valid()
      ensures n >= 16 || (n in {14, 15} && n !in old(Now()).pending) ==> Step(old(Now()), Unpend(n), Now())
      ensures n in {14, 15} && n in old(Now()).pending ==>
                Step(old(Now()), Pend(n), Now()) || Step(old(Now()), Unpend(n), Now())
      ensures n < 14 ==> unchanged(this)
      ensures pend == if n < 16 then old(pend)
                      else old(pend)[(n - 16) / 32 := AndNot(old(pend)[(n - 16) / 32], Pow2((n - 16) % 32))]
    {
      ghost var was := Now();
      if n == FAULT_PENDSV {
        WriteIntCtrl(sysPends, {14});
      } else if n == FAULT_SYSTICK {
        WriteIntCtrl(sysPends, {15});
      } else if n >= 16 {
        var bank, mask := BankBit(n);
        WriteUnpend(bank, mask);
        forall m: nat ensures InBanks(pend, m) <==> InBanks(old(pend), m) && m != n {
          BankClear(old(pend), n, m);
        }
      }
      if n >= 14 {
        assert Now().pending == if n in Now().pending then was.pending else was.pending - {n};
      }
    }

    /** The priority last set, for every interrupt. */
    ghost function Priority(n: nat): nat
      requires Valid() && 4 <= n < NUM_INTERRUPTS
      reads this
    {
      Lane(pri[n / 4], n % 4)
    }

    method IntPrioritySet(n: nat, priority: Byte)
      requires Valid() && 4 <= n < NUM_INTERRUPTS
      modifies `pri
      ensures Valid()
      ensures forall m :: 4 <= m < NUM_INTERRUPTS ==> Priority(m) == if m == n then priority else old(Priority(m))
      ensures pri == old(pri)[n / 4 := pri[n / 4]]
    {
      var lane := LaneOf(n);
      var temp := pri[n / 4];
      temp := AndNot(temp, Shl(0xFF, 8 * lane));
      temp := Or(temp, Shl(priority, 8 * lane));
      pri := pri[n / 4 := temp];
      forall m | 4 <= m < NUM_INTERRUPTS
        ensures Priority(m) == if m == n then priority else old(Priority(m))
      {
        FilledLane(old(pri)[n / 4], lane, priority, m % 4);
      }
    }

    method IntPriorityGet(n: nat) returns (priority: nat)
      requires Valid() && 4 <= n < NUM_INTERRUPTS
      ensures priority == Priority(n)
    {
      var lane := LaneOf(n);
      var shifted := Shr(pri[n / 4], 8 * lane);
      Pow2At8();
      AndMask(shifted, 8);
      priority := And(shifted, 0xFF);
    }

    /** A write with the key changes the group; reading shows the status code in place of the key. */
    method WriteApint(key: nat, group: nat)
      modifies `apint
      ensures apint == if key == 0x05FA then Or(0xFA05 * TWO16, group) else old(apint)
    {
      if key == 0x05FA { apint := Or(0xFA05 * TWO16, group); }
    }

    method IntPriorityGroupingSet(bits: nat)
      requires bits < 8
      modifies `apint
      ensures Group(apint) == PRIORITY_GROUPS[bits] && apint / 0x100 % 8 == 7 - bits
    {
      GroupOfWrite(0xFA05, bits);
      GroupField(Or(0xFA05 * TWO16, PRIORITY_GROUPS[bits]));
      WriteApint(0x05FA, PRIORITY_GROUPS[bits]);
    }

    /** The search always finds the group, and finds what was set. */
    method IntPriorityGroupingGet() returns (bits: nat)
      ensures bits < 8 && PRIORITY_GROUPS[bits] == Group(apint)
      ensures forall b :: 0 <= b < 8 && Group(apint) == PRIORITY_GROUPS[b] ==> bits == b
      ensures bits == 7 - apint / 0x100 % 8
    {
      var value := And(apint, 0x700);
      GroupField(apint);
      bits := 0;
      while bits < 8
        invariant bits <= 8 && forall b :: 0 <= b < bits ==> PRIORITY_GROUPS[b] != value
      {
        if value == PRIORITY_GROUPS[bits] { break; }
        bits := bits + 1;
      }
      assert PRIORITY_GROUPS[7 - apint / 256 % 8] == value;
    }

    // ----- the drivers' pairs of calls

    method AESIntRegister(handler: nat) returns (ghost mid: Snap)
      requires Valid()
      modifies `vectors, `sysHndCtrl, `stCtrl, `en
      ensures Valid() && mid.Valid()
      ensures Step(old(Now()), Register(167, handler), mid) && Step(mid, Enable(167), Now())
      ensures vectors == old(vectors)[167 := Fn(handler)] && en == old(en)[4 := Or(old(en)[4], Pow2(23))]
    {
      IntRegister(INT_AES, handler);
      mid := Now();
      IntEnable(INT_AES);
    }

    method AESIntUnregister() returns (ghost mid: Snap)
      requires Valid()
      modifies `vectors, `sysHndCtrl, `stCtrl, `en
      ensures Valid() && mid.Valid()
      ensures Step(old(Now()), Disable(167), mid) && Step(mid, Unregister(167), Now())
      ensures vectors == old(vectors)[167 := Default] && en == old(en)[4 := AndNot(old(en)[4], Pow2(23))]
    {
      IntDisable(INT_AES);
      mid := Now();
      IntUnregister(INT_AES);
    }

    method SPIIntRegister(base: SpiBase, handler: nat) returns (ghost mid: Snap)
      requires Valid()
      modifies `vectors, `sysHndCtrl, `stCtrl, `en
      ensures Valid() && mid.Valid()
      ensures Step(old(Now()), Register(SPIIntNumberGet(base), handler), mid)
      ensures Step(mid, Enable(SPIIntNumberGet(base)), Now())
      ensures var k := match base case Sspi => 0 case Gspi => 1 case Lspi => 2;
              vectors == old(vectors)[191 + k := Fn(handler)] && en == old(en)[5 := Or(old(en)[5], Pow2(15 + k))]
    {
      var n := SPIIntNumberGet(base);
      IntRegister(n, handler);
      mid := Now();
      IntEnable(n);
    }

    method SPIIntUnregister(base: SpiBase) returns (ghost mid: Snap)
      requires Valid()
      modifies `vectors, `sysHndCtrl, `stCtrl, `en
      ensures Valid() && mid.Valid()
      ensures Step(old(Now()), Disable(SPIIntNumberGet(base)), mid)
      ensures Step(mid, Unregister(SPIIntNumberGet(base)), Now())
      ensures var k := match base case Sspi => 0 case Gspi => 1 case Lspi => 2;
              vectors == old(vectors)[191 + k := Default] && en == old(en)[5 := AndNot(old(en)[5], Pow2(15 + k))]
    {
      var n := SPIIntNumberGet(base);
      IntDisable(n);
      mid := Now();
      IntUnregister(n);
    }
  }

  /** What the registers say of interrupt n: the bits that enable it and hold it pending, and its handler. */
  lemma NowInRegisters(c: Controller, n: nat)
    requires c.Valid() && n < 195
    ensures n in c.Now().enabled <==>
              if n == 4 then Bit(c.sysHndCtrl, 16) else if n == 5 then Bit(c.sysHndCtrl, 17)
              else if n == 6 then Bit(c.sysHndCtrl, 18) else if n == 15 then Bit(c.stCtrl, 1)
              else n >= 16 && Bit(c.en[(n - 16) / 32], (n - 16) % 32)
    ensures n in c.Now().pending <==>
              if n < 16 then n in c.sysPends else Bit(c.pend[(n - 16) / 32], (n - 16) % 32)
    ensures c.Now().vectors == c.vectors
  {
  }

  /** The priority of interrupt n is byte n % 4 of register n / 4. */
  lemma PriorityInRegister(c: Controller, n: nat)
    requires c.Valid() && 4 <= n < 195
    ensures var w := c.pri[n / 4];
            c.Priority(n) == [w % 256, w / 0x100 % 256, w / 0x1_0000 % 256, w / 0x100_0000 % 256][n % 4]
  {
    LaneDigit(c.pri[n / 4], n % 4);
  }

  lemma LaneDigit(w: nat, k: nat)
    requires k < 4
    ensures Lane(w, k) == [w % 256, w / 0x100 % 256, w / 0x1_0000 % 256, w / 0x100_0000 % 256][k]
  {
    ShrEight(w);
    ShrEight(w / 0x100);
    ShrEight(w / 0x1_0000);
    ShrSum(w, 8, 8);
    ShrSum(w, 16, 8);
    assert w / 0x100 / 0x100 == w / 0x1_0000 && w / 0x1_0000 / 0x100 == w / 0x100_0000;
  }

  method LaneOf(n: nat) returns (lane: nat)
    ensures lane == n % 4
  {
    assert Pow2(2) == 4;
    AndMask(n, 2);
    lane := And(n, 3);
  }

  lemma EnableEffect(sys: nat, st: nat, en: seq<nat>, n: nat, m: nat)
    requires |en| == 6 && HasEnable(n)
    ensures n == 4 ==> (Enabled(Or(sys, 0x1_0000), st, en, m) <==> Enabled(sys, st, en, m) || m == n)
    ensures n == 5 ==> (Enabled(Or(sys, 0x2_0000), st, en, m) <==> Enabled(sys, st, en, m) || m == n)
    ensures n == 6 ==> (Enabled(Or(sys, 0x4_0000), st, en, m) <==> Enabled(sys, st, en, m) || m == n)
    ensures n == 15 ==> (Enabled(sys, Or(st, 2), en, m) <==> Enabled(sys, st, en, m) || m == n)
    ensures n >= 16 ==> (Enabled(sys, st, en[Bank(n) := Or(en[Bank(n)], Pow2(BitAt(n)))], m)
                         <==> Enabled(sys, st, en, m) || m == n)
  {
    FaultMasks();
    if n <= 6 && 4 <= m <= 6 { SetFault(sys, n, m); }
    if n == 15 { SetTick(st); }
    if n >= 16 { BankSet(en, n, m); }
  }

  lemma DisableEffect(sys: nat, st: nat, en: seq<nat>, n: nat, m: nat)
    requires |en| == 6 && HasEnable(n)
    ensures n == 4 ==> (Enabled(AndNot(sys, 0x1_0000), st, en, m) <==> Enabled(sys, st, en, m) && m != n)
    ensures n == 5 ==> (Enabled(AndNot(sys, 0x2_0000), st, en, m) <==> Enabled(sys, st, en, m) && m != n)
    ensures n == 6 ==> (Enabled(AndNot(sys, 0x4_0000), st, en, m) <==> Enabled(sys, st, en, m) && m != n)
    ensures n == 15 ==> (Enabled(sys, AndNot(st, 2), en, m) <==> Enabled(sys, st, en, m) && m != n)
    ensures n >= 16 ==> (Enabled(sys, st, en[Bank(n) := AndNot(en[Bank(n)], Pow2(BitAt(n)))], m)
                         <==> Enabled(sys, st, en, m) && m != n)
  {
    FaultMasks();
    if n <= 6 && 4 <= m <= 6 { SetFault(sys, n, m); }
    if n == 15 { SetTick(st); }
    if n >= 16 { BankClear(en, n, m); }
  }
}
