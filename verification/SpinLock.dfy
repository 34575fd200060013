/** driverlib/hwspinlock.c on the Apps processor: the bit patterns it writes and reads, with the NWP
    running between any two of its register accesses. */
module SpinLock {
  import opened Bits
  import opened SpinProtocol

  const ALL_ONES: nat := 0xFFFF_FFFF

  // ----- the 32-bit register and its sixteen 2-bit fields

  function LowBit(f: Field): bool { Mine(f, Apps) }

  function HighBit(f: Field): bool { Mine(f, Nwp) }

  function Code(f: Field): (c: nat)
    ensures c == match f case Free => 0 case Owned(Apps) => 1 case Owned(Nwp) => 2 case Both => 3
  {
    (if LowBit(f) then 1 else 0) + (if HighBit(f) then 2 else 0)
  }

  function FieldOf(code: nat): Field {
    if code == 0 then Free else if code == 1 then Owned(Apps) else if code == 2 then Owned(Nwp) else Both
  }

  /** The value the register reads as. */
  function Encode(fields: seq<Field>): nat {
    if fields == [] then 0 else Code(fields[0]) + 4 * Encode(fields[1..])
  }

  lemma {:induction false} EncodeField(fields: seq<Field>, k: nat)
    requires k < |fields|
    ensures Bit(Encode(fields), 2 * k) <==> Mine(fields[k], Apps)
    ensures Encode(fields) / Pow2(2 * k) % 4 == Code(fields[k])
  {
    var rest := Encode(fields[1..]);
    var x := Code(fields[0]) + 4 * rest;
    if k == 0 {
      assert x % 4 == Code(fields[0]);
    } else {
      EncodeField(fields[1..], k - 1);
      assert x / 2 / 2 == rest;
      HalfDiv(x, Pow2(2 * k - 1));
      HalfDiv(x / 2, Pow2(2 * k - 2));
    }
  }

  /** What a write asks of field k, by the two bits it carries there. */
  function Asked(word: nat, k: nat): Field {
    FieldOf((if Bit(word, 2 * k) then 1 else 0) + (if Bit(word, 2 * k + 1) then 2 else 0))
  }

  /** The hardware's response: 11 leaves a field alone. */
  function Written(f: Field, asked: Field): Field {
    if asked == Both then f else Hw(f, asked)
  }

  // ----- lock identifiers and shifts

  /** The bit position a lock identifier carries in its third byte. */
  function Position(id: nat): nat { id / TWO16 % 256 }

  /** A field of the one register of the table. */
  predicate Lock(id: nat) {
    id < TWO32 && id % 16 == 0 && Position(id) < 32 && Position(id) % 2 == 0
  }

  function Index(id: nat): nat { Position(id) / 2 }

  /** HWSPINLOCK_SSPI, the one identifier the header defines, is the lowest field. */
  lemma SspiIsLock()
    ensures Lock(0x0200_0000) && Index(0x0200_0000) == 0
  {
  }

  /** x << n as the processor computes it: the shift register's lowest byte counts. */
  function RegisterShift(x: nat, n: nat): nat {
    if n % 256 < 32 then x * Pow2(n % 256) % TWO32 else 0
  }

  lemma Masks(h: nat)
    ensures And(h, 0xFFF) == h % 4096 && And(h, 0xFF) == h % 256
  {
    assert Pow2(4) == 16;
    Pow2At8();
    Pow2Sum(8, 4);
    AndMask(h, 12);
    AndMask(h, 8);
  }

  lemma MaskedByte(h: nat)
    ensures And(h, 0xFFF) % 256 == h % 256 == And(h, 0xFF)
  {
    Masks(h);
    var m := And(h, 0xFFF);
    assert m == h % 4096;
    ByteOf(h);
  }

  lemma ByteOf(h: nat)
    ensures h % 4096 % 256 == h % 256
  {
  }

  /** Acquire masks the position with 0xFFF and release with 0xFF; the processor shifts by the same amount. */
  lemma MasksAgree(id: nat, x: nat)
    ensures RegisterShift(x, And(id / TWO16, 0xFFF)) == RegisterShift(x, Position(id))
    ensures RegisterShift(x, And(id / TWO16, 0xFF)) == RegisterShift(x, Position(id))
  {
    MaskedByte(id / TWO16);
    SameByte(And(id / TWO16, 0xFFF), And(id / TWO16, 0xFF), x);
  }

  lemma SameByte(m: nat, n: nat, x: nat)
    requires m % 256 == n % 256
    ensures RegisterShift(x, m) == RegisterShift(x, n)
  {
  }

  lemma {:induction false} OnesBits(n: nat, i: nat)
    ensures Bit(Pow2(n) - 1, i) <==> i < n
  {
    if n == 0 {
      ZeroHasNoBit(i);
    } else if i > 0 {
      var y: nat := 2 * Pow2(n - 1) - 1;
      assert y / 2 == Pow2(n - 1) - 1;
      OnesBits(n - 1, i - 1);
    }
  }

  lemma {:induction false} PairBits(p: nat, i: nat)
    ensures Bit(3 * Pow2(p), i) <==> i == p || i == p + 1
  {
    if p == 0 {
      if i > 0 { BitOfPow2(0, i - 1); }
    } else if i > 0 {
      assert 3 * Pow2(p) / 2 == 3 * Pow2(p - 1);
      PairBits(p - 1, i - 1);
    }
  }

  lemma ShiftedBits(p: nat)
    requires p % 2 == 0 && p < 32
    ensures RegisterShift(1, p) == Pow2(p) && RegisterShift(2, p) == Pow2(p + 1) && RegisterShift(3, p) == 3 * Pow2(p)
  {
    var q := Pow2(p);
    assert 4 * q <= TWO32 by {
      Pow2Grows(p, 30);
      Pow2At32();
      assert Pow2(32) == 2 * Pow2(31) && Pow2(31) == 2 * Pow2(30);
    }
    assert Pow2(p + 1) == 2 * q;
    assert p % 256 == p;
    Fits(q);
    Fits(2 * q);
    Fits(3 * q);
  }

  lemma Fits(y: nat)
    requires y < TWO32
    ensures y % TWO32 == y
  {
  }

  function AcquireWord(id: nat): nat {
    Xor(ALL_ONES, RegisterShift(2, And(id / TWO16, 0xFFF)))
  }

  function ReleaseWord(id: nat): nat {
    And(ALL_ONES, AndNot(ALL_ONES, RegisterShift(3, And(id / TWO16, 0xFF))))
  }

  /** The word acquire writes has every bit set but the upper one of its field. */
  lemma AcquireBits(id: nat, i: nat)
    requires Lock(id) && i < 32
    ensures Bit(AcquireWord(id), i) <==> i != id / 0x1_0000 % 256 + 1
  {
    var p := Position(id);
    assert ALL_ONES == Pow2(32) - 1 by { Pow2At32(); }
    MasksAgree(id, 2);
    ShiftedBits(p);
    BitOfXor(Pow2(32) - 1, Pow2(p + 1), i);
    OnesBits(32, i);
    BitOfPow2(p + 1, i);
  }

  /** The word release writes has every bit set but the two of its field. */
  lemma ReleaseBits(id: nat, i: nat)
    requires Lock(id) && i < 32
    ensures Bit(ReleaseWord(id), i) <==> i != id / 0x1_0000 % 256 && i != id / 0x1_0000 % 256 + 1
  {
    var p := Position(id);
    assert ALL_ONES == Pow2(32) - 1 by { Pow2At32(); }
    MasksAgree(id, 3);
    ShiftedBits(p);
    BitOfAnd(Pow2(32) - 1, AndNot(Pow2(32) - 1, 3 * Pow2(p)), i);
    BitOfAndNot(Pow2(32) - 1, 3 * Pow2(p), i);
    OnesBits(32, i);
    PairBits(p, i);
  }

  /** Acquire asks for its own field and leaves the fifteen others alone. */
  lemma AcquireAsks(id: nat, k: nat)
    requires Lock(id) && k < 16
    ensures Asked(AcquireWord(id), k) == if k == Index(id) then Owned(Apps) else Both
  {
    AcquireBits(id, 2 * k);
    AcquireBits(id, 2 * k + 1);
  }

  /** Release clears its own field and leaves the fifteen others alone. */
  lemma ReleaseAsks(id: nat, k: nat)
    requires Lock(id) && k < 16
    ensures Asked(ReleaseWord(id), k) == if k == Index(id) then Free else Both
  {
    ReleaseBits(id, 2 * k);
    ReleaseBits(id, 2 * k + 1);
  }

  /** The test of the register with 1 << position is whether Apps owns the field. */
  lemma TestReadsOwner(id: nat, fields: seq<Field>)
    requires Lock(id) && |fields| == 16
    ensures And(Encode(fields), RegisterShift(1, And(id / TWO16, 0xFFF))) != 0 <==> Mine(fields[Index(id)], Apps)
    ensures And(Encode(fields), RegisterShift(1, And(id / TWO16, 0xFF))) != 0 <==> Mine(fields[Index(id)], Apps)
  {
    MasksAgree(id, 1);
    ShiftedBits(Position(id));
    AndPow2(Encode(fields), Position(id));
    EncodeField(fields, Index(id));
  }

  ghost predicate OthersInterfered(before: seq<Field>, after: seq<Field>, k: nat) {
    |before| == |after| && forall j :: 0 <= j < |before| && j != k ==> Interference(before[j], after[j], Apps)
  }

  /** The steps of a call that has not returned. */
  predicate UnderWay(steps: seq<Taken>, call: Event) {
    |steps| >= 1 && steps[0].event == call && forall i :: 0 < i < |steps| ==> steps[i].event == Access
  }

  /** Where HwSpinLockTryAcquire is at the head of its loop. */
  function TryPc(first: bool, owned: bool, left: nat, most: nat): Pc
    requires left <= most
  {
    if first || (!owned && left != 0) then TryWrite(left, most - left, most) else TryLast(owned, most - left, most)
  }

  // ----- the driver

  class Semaphores {
    var fields: seq<Field>
    /** How often the NWP may still be found holding a lock: it does not hold one for ever. */
    var nwpTurns: nat
    ghost var writes: nat

    ghost predicate Valid() reads this {
      |fields| == 16 && forall j :: 0 <= j < 16 ==> fields[j] != Both
    }

    constructor ()
      ensures Valid() && forall j :: 0 <= j < 16 ==> fields[j] == Free
    {
      fields := seq(16, j => Free);
      nwpTurns, writes := 0, 0;
    }

    /** The NWP takes any number of steps. */
    method NwpRuns()
      requires Valid()
      modifies `fields, `nwpTurns
      ensures Valid() && forall j :: 0 <= j < 16 ==> Interference(old(fields)[j], fields[j], Apps)
      ensures forall j :: 0 <= j < 16 && fields[j] == Owned(Nwp) ==> nwpTurns < old(nwpTurns)
      ensures nwpTurns <= old(nwpTurns)
    {
      var now := fields;
      if nwpTurns == 0 {
        fields := seq(16, j requires 0 <= j < 16 => if now[j] == Owned(Nwp) then Free else now[j]);
      } else {
        var takes: set<nat> :| true;
        fields := seq(16, j requires 0 <= j < 16 =>
                        if now[j] == Owned(Apps) then now[j] else if j in takes then Owned(Nwp) else Free);
        nwpTurns := nwpTurns - 1;
      }
    }

    method ReadReg() returns (reg: nat)
      requires Valid()
      modifies `fields, `nwpTurns
      ensures Valid() && reg == Encode(fields)
      ensures forall j :: 0 <= j < 16 ==> Interference(old(fields)[j], fields[j], Apps)
      ensures nwpTurns <= old(nwpTurns)
    {
      NwpRuns();
      reg := Encode(fields);
    }

    /** A write to the register, which each field answers by itself. */
    method WriteReg(word: nat) returns (ghost found: seq<Field>)
      requires Valid()
      modifies this
      ensures Valid() && writes == old(writes) + 1
      ensures |found| == 16
      ensures forall j :: 0 <= j < 16 ==> found[j] != Both && Interference(old(fields)[j], found[j], Apps)
      ensures forall j :: 0 <= j < 16 ==> fields[j] == Written(found[j], Asked(word, j))
      ensures nwpTurns <= old(nwpTurns)
      ensures forall j :: 0 <= j < 16 && found[j] == Owned(Nwp) ==> nwpTurns < old(nwpTurns)
    {
      NwpRuns();
      var now := fields;
      found := now;
      fields := seq(16, j requires 0 <= j < 16 => Written(now[j], Asked(word, j)));
      writes := writes + 1;
    }

    /** Writes the acquire word: the field becomes Apps's unless the NWP has it. */
    method WriteAcquire(id: nat) returns (ghost seen: Field)
      requires Valid() && Lock(id)
      modifies this
      ensures Valid() && writes == old(writes) + 1 && OthersInterfered(old(fields), fields, Index(id))
      ensures fields[Index(id)] == Owned(Apps) || (fields[Index(id)] == Owned(Nwp) && nwpTurns < old(nwpTurns))
      ensures old(fields)[Index(id)] == Owned(Apps) ==> fields[Index(id)] == Owned(Apps)
      ensures nwpTurns <= old(nwpTurns)
      ensures Interference(old(fields)[Index(id)], seen, Apps) && fields[Index(id)] == Hw(seen, Owned(Apps))
    {
      forall k | 0 <= k < 16
        ensures Asked(AcquireWord(id), k) == if k == Index(id) then Owned(Apps) else Both
      {
        AcquireAsks(id, k);
      }
      ghost var found := WriteReg(AcquireWord(id));
      seen := found[Index(id)];
      match seen { case Free => case Both => case Owned(Apps) => case Owned(Nwp) => }
    }

    /** Reads the register and tests the Apps bit of the lock. */
    method TestOwned(id: nat, mask: nat) returns (owned: bool)
      requires Valid() && Lock(id) && (mask == 0xFFF || mask == 0xFF)
      modifies `fields, `nwpTurns
      ensures Valid() && (owned <==> fields[Index(id)] == Owned(Apps))
      ensures forall j :: 0 <= j < 16 ==> Interference(old(fields)[j], fields[j], Apps)
      ensures nwpTurns <= old(nwpTurns)
    {
      var reg := ReadReg();
      TestReadsOwner(id, fields);
      owned := And(reg, RegisterShift(1, And(id / TWO16, mask))) != 0;
    }

    /** Returns once Apps owns the lock; every other field is touched by the NWP alone. Its accesses are steps of the
        protocol. */
    method HwSpinLockAcquire(id: nat, ghost holds: bool) returns (ghost steps: seq<Taken>)
      requires Valid() && Lock(id)
      modifies this
      ensures Valid() && fields[Index(id)] == Owned(Apps) && OthersInterfered(old(fields), fields, Index(id))
      ensures writes > old(writes)
      ensures OneCall(steps, CallAcquire, Return)
      ensures Trace(Apps, Place(old(fields)[Index(id)], Cpu(Outside, holds)), steps,
                    Place(fields[Index(id)], Cpu(Outside, true)))
    {
      var owned := false;
      ghost var k, from := Index(id), Place(fields[Index(id)], Cpu(Outside, holds));
      steps := TraceStep(Apps, from, [], from, from.field, CallAcquire, Place(from.field, Cpu(AcqWrite, holds)));
      while !owned
        invariant Valid() && OthersInterfered(old(fields), fields, k)
        invariant owned ==> fields[k] == Owned(Apps) && writes > old(writes)
        invariant writes >= old(writes)
        invariant Trace(Apps, from, steps, Place(fields[k], if owned then Cpu(Outside, true) else Cpu(AcqWrite, holds)))
        invariant if owned then OneCall(steps, CallAcquire, Return) else UnderWay(steps, CallAcquire)
        decreases !owned, nwpTurns
      {
        ghost var was := fields[k];
        ghost var seen := WriteAcquire(id);
        steps := TraceStep(Apps, from, steps, Place(was, Cpu(AcqWrite, holds)), seen, Access,
                           Place(fields[k], Cpu(AcqRead, holds)));
        was := fields[k];
        owned := TestOwned(id, 0xFFF);
        steps := TraceStep(Apps, from, steps, Place(was, Cpu(AcqRead, holds)), fields[k],
                           if owned then Return else Access,
                           Place(fields[k], if owned then Cpu(Outside, true) else Cpu(AcqWrite, holds)));
      }
    }

    /** One attempt of HwSpinLockTryAcquire: a write and a read. */
    method Attempt(id: nat, ghost left: nat, ghost most: nat, ghost call: Event, ghost holds: bool, ghost from: Place,
                   ghost before: seq<Taken>)
      returns (owned: bool, ghost steps: seq<Taken>)
      requires Valid() && Lock(id) && 0 < left <= most && UnderWay(before, call)
      requires Trace(Apps, from, before, Place(fields[Index(id)], Cpu(TryWrite(left, most - left, most), holds)))
      modifies this
      ensures Valid() && writes == old(writes) + 1 && OthersInterfered(old(fields), fields, Index(id))
      ensures owned ==> fields[Index(id)] == Owned(Apps)
      ensures old(fields)[Index(id)] == Owned(Apps) ==> fields[Index(id)] == Owned(Apps)
      ensures UnderWay(steps, call)
      ensures Trace(Apps, from, steps, Place(fields[Index(id)], Cpu(TryPc(false, owned, left - 1, most), holds)))
    {
      ghost var k, done := Index(id), most - left;
      ghost var was := fields[k];
      ghost var seen := WriteAcquire(id);
      ghost var reading := Cpu(TryRead(left - 1, done + 1, most), holds);
      steps := TraceStep(Apps, from, before, Place(was, Cpu(TryWrite(left, done, most), holds)), seen, Access,
                         Place(fields[k], reading));
      was := fields[k];
      owned := TestOwned(id, 0xFFF);
      steps := TraceStep(Apps, from, steps, Place(was, reading), fields[k], Access,
                         Place(fields[k], Cpu(TryPc(false, owned, left - 1, most), holds)));
    }

    /** Makes at least one attempt and at most `retry`, whatever the NWP does, reports ownership exactly, and gives up
        only after all of them. Its accesses are steps of the protocol. */
    method HwSpinLockTryAcquire(id: nat, retry: nat, ghost holds: bool) returns (result: int, ghost steps: seq<Taken>)
      requires Valid() && Lock(id)
      modifies this
      ensures Valid() && OthersInterfered(old(fields), fields, Index(id))
      ensures result == if fields[Index(id)] == Owned(Apps) then 0 else -1
      ensures 1 <= writes - old(writes) && (writes - old(writes) <= 1 || writes - old(writes) <= retry)
      ensures result == -1 ==> writes - old(writes) == if retry == 0 then 1 else retry
      ensures old(fields)[Index(id)] == Owned(Apps) ==> result == 0
      ensures OneCall(steps, CallTry(retry), ReturnTry(result, writes - old(writes), AtLeastOne(retry)))
      ensures Trace(Apps, Place(old(fields)[Index(id)], Cpu(Outside, holds)), steps,
                    Place(fields[Index(id)], Cpu(Outside, result == 0)))
    {
      var left := if retry == 0 then 1 else retry;
      var owned := false;
      var first := true;
      ghost var k, from, most := Index(id), Place(fields[Index(id)], Cpu(Outside, holds)), AtLeastOne(retry);
      steps := TraceStep(Apps, from, [], from, from.field, CallTry(retry),
                         Place(from.field, Cpu(TryWrite(most, 0, most), holds)));
      while first || (!owned && left != 0)
        invariant Valid() && OthersInterfered(old(fields), fields, k)
        invariant left == most - (writes - old(writes))
        invariant first <==> writes == old(writes)
        invariant writes >= old(writes) && left >= 0
        invariant owned ==> fields[k] == Owned(Apps)
        invariant old(fields)[k] == Owned(Apps) ==> fields[k] == Owned(Apps)
        invariant Trace(Apps, from, steps, Place(fields[k], Cpu(TryPc(first, owned, left, most), holds)))
        invariant UnderWay(steps, CallTry(retry))
        decreases left
      {
        owned, steps := Attempt(id, left, most, CallTry(retry), holds, from, steps);
        left := left - 1;
        first := false;
      }
      result, steps := LastLook(id, owned, most - left, most, CallTry(retry), holds, from, steps);
    }

    /** The read after the loop of HwSpinLockTryAcquire, and its result. */
    method LastLook(id: nat, ghost seen: bool, ghost tried: nat, ghost most: nat, ghost call: Event, ghost holds: bool,
                    ghost from: Place, ghost before: seq<Taken>)
      returns (result: int, ghost steps: seq<Taken>)
      requires Valid() && Lock(id) && UnderWay(before, call)
      requires Trace(Apps, from, before, Place(fields[Index(id)], Cpu(TryLast(seen, tried, most), holds)))
      modifies `fields, `nwpTurns
      ensures Valid() && forall j :: 0 <= j < 16 ==> Interference(old(fields)[j], fields[j], Apps)
      ensures result == if fields[Index(id)] == Owned(Apps) then 0 else -1
      ensures OneCall(steps, call, ReturnTry(result, tried, most))
      ensures Trace(Apps, from, steps, Place(fields[Index(id)], Cpu(Outside, result == 0)))
    {
      ghost var was := fields[Index(id)];
      var last := TestOwned(id, 0xFFF);
      result := if last then 0 else -1;
      steps := TraceStep(Apps, from, before, Place(was, Cpu(TryLast(seen, tried, most), holds)), fields[Index(id)],
                         ReturnTry(result, tried, most), Place(fields[Index(id)], Cpu(Outside, last)));
    }

    /** Frees the lock exactly when Apps owns it. Its accesses are steps of the protocol. */
    method HwSpinLockRelease(id: nat, ghost holds: bool) returns (ghost steps: seq<Taken>)
      requires Valid() && Lock(id)
      modifies this
      ensures Valid() && OthersInterfered(old(fields), fields, Index(id))
      ensures if old(fields)[Index(id)] == Owned(Apps) then fields[Index(id)] == Free
              else Interference(old(fields)[Index(id)], fields[Index(id)], Apps) && writes == old(writes)
      ensures OneCall(steps, CallRelease, Return)
      ensures Trace(Apps, Place(old(fields)[Index(id)], Cpu(Outside, holds)), steps,
                    Place(fields[Index(id)], Cpu(Outside, holds && old(fields)[Index(id)] != Owned(Apps))))
    {
      ghost var k, from := Index(id), Place(fields[Index(id)], Cpu(Outside, holds));
      steps := TraceStep(Apps, from, [], from, from.field, CallRelease, Place(from.field, Cpu(RelRead, holds)));
      ghost var was := fields[k];
      var owned := TestOwned(id, 0xFF);
      steps := TraceStep(Apps, from, steps, Place(was, Cpu(RelRead, holds)), fields[k],
                         if owned then Access else Return,
                         Place(fields[k], Cpu(if owned then RelWrite else Outside, holds)));
      if owned {
        forall j | 0 <= j < 16
          ensures Asked(ReleaseWord(id), j) == if j == Index(id) then Free else Both
        {
          ReleaseAsks(id, j);
        }
        was := fields[k];
        ghost var found := WriteReg(ReleaseWord(id));
        steps := TraceStep(Apps, from, steps, Place(was, Cpu(RelWrite, holds)), found[k], Return,
                           Place(fields[k], Cpu(Outside, false)));
      }
    }

    /** The current owner: 1 for Apps, 2 for the NWP, 0 for neither. */
    method HwSpinLockTest(id: nat) returns (owner: nat)
      requires Valid() && Lock(id)
      modifies `fields, `nwpTurns
      ensures Valid() && forall j :: 0 <= j < 16 ==> Interference(old(fields)[j], fields[j], Apps)
      ensures owner == match fields[Index(id)] case Owned(Apps) => 1 case Owned(Nwp) => 2 case _ => 0
    {
      var reg := ReadReg();
      EncodeField(fields, Index(id));
      owner := reg / Pow2(Position(id)) % 4;
    }
  }
}
