/** driverlib/flash.c: the flash controller's registers, and programming and erasing through them. */
module Flash {
  import opened Bits
  import opened FlashSpec

  class FlashController {
    /** The 128-byte blocks that program protection covers. */
    const protected: set<nat>
    var fma: Word
    var fmd: Word
    var fwb: seq<Word>
    var fwbval: set<nat>
    var fcris: set<Fault>
    var mem: Memory
    /** How many more times the control register will read as busy. */
    var busy: nat
    ghost var bursts: seq<Burst>

    ghost predicate Valid() reads this {
      |fwb| == 32 && (forall i :: i in fwbval ==> 0 <= i < 32)
    }

    /** Between blocking calls: nothing under way and nothing waiting in the write buffer. */
    ghost predicate Idle() reads this {
      Valid() && busy == 0 && fwbval == {}
    }

    /** The controller after reset, over some flash contents. */
    constructor (protected: set<nat>, mem: Memory)
      ensures Idle() && this.protected == protected && this.mem == mem
    {
      this.protected, this.mem := protected, mem;
      fma, fmd, fwb, fwbval, fcris, busy, bursts := 0, 0, Single(0), {}, {}, 0, [];
    }

    // ----- register accesses

    // FCMISC: writing ones clears the flags in FCRIS
    method ClearFaults(flags: set<Fault>)
      modifies `fcris
      ensures fcris == old(fcris) - flags
    {
      fcris := fcris - flags;
    }

    method WriteFWB(offset: nat, datum: Word)
      requires Valid() && offset % 4 == 0 && offset < 128
      modifies `fwb, `fwbval
      ensures Valid()
      ensures fwb == old(fwb)[offset / 4 := datum] && fwbval == old(fwbval) + {offset / 4}
    {
      fwb := fwb[offset / 4 := datum];
      fwbval := fwbval + {offset / 4};
    }

    /** The hardware programs words of one block; `faults` are the flags this raises. */
    method Burn(block: nat, buffer: seq<Word>, valid: set<nat>) returns (ghost faults: set<Fault>)
      requires block < WORDS / 32 && |buffer| == 32
      modifies `mem, `fcris, `busy, `bursts
      ensures Burned(protected, old(mem), block, buffer, valid, mem, faults)
      ensures fcris == old(fcris) + faults
      ensures bursts == old(bursts) + [Burst(BlockWords(block, valid), faults)]
    {
      var chance: set<Fault> :| chance <= {Volt, ProgVerify};
      var conflict := exists w :: 0 <= w < WORDS && InBlock(w, block, valid) && !Programmable(mem[w], buffer[w % 32]);
      var raised := chance + (if block in protected then {Access} else {}) + (if conflict then {InvalidData} else {});
      var garbage: Memory :| true;
      var before := mem;
      mem := seq(WORDS, w requires 0 <= w < WORDS =>
                   if !InBlock(w, block, valid) then before[w]
                   else if raised == {} then buffer[w % 32] else garbage[w]);
      fcris := fcris + raised;
      var wait: nat :| true;
      busy := wait;
      faults := raised;
      bursts := bursts + [Burst(BlockWords(block, valid), faults)];
    }

    // FMC2: the write key and WRBUF start a buffered write
    method WriteFMC2() returns (ghost faults: set<Fault>)
      requires Valid()
      modifies `mem, `fcris, `busy, `bursts, `fwbval
      ensures Valid() && (busy == 0 ==> fwbval == {})
      ensures Burned(protected, old(mem), fma / 128, fwb, old(fwbval), mem, faults)
      ensures fcris == old(fcris) + faults
      ensures bursts == old(bursts) + [Burst(BlockWords(fma / 128, old(fwbval)), faults)]
    {
      faults := Burn(fma / 128, fwb, fwbval);
      if busy == 0 { fwbval := {}; }
    }

    // FMC: the write key and WRITE start the programming of the word in FMD
    method WriteFMC() returns (ghost faults: set<Fault>)
      requires Idle()
      modifies `mem, `fcris, `busy, `bursts
      ensures Valid() && fwbval == {}
      ensures Burned(protected, old(mem), fma / 128, Single(fmd), {fma % 128 / 4}, mem, faults)
      ensures fcris == old(fcris) + faults
      ensures bursts == old(bursts) + [Burst(BlockWords(fma / 128, {fma % 128 / 4}), faults)]
    {
      faults := Burn(fma / 128, Single(fmd), {fma % 128 / 4});
    }

    // FMC: the write key and ERASE or MERASE1 erase words first..first+n-1
    method WriteFMCErase(first: nat, n: nat) returns (ghost faults: set<Fault>)
      requires Idle() && first + n <= WORDS
      modifies `mem, `fcris, `busy
      ensures Valid() && fwbval == {}
      ensures Erased(protected, old(mem), first, n, mem, faults)
      ensures fcris == old(fcris) + faults
    {
      var chance: set<Fault> :| chance <= {Volt, EraseVerify};
      var denied := exists w :: first <= w < first + n && Locked(protected, w);
      var raised := chance + if denied then {Access} else {};
      var garbage: Memory :| true;
      var before := mem;
      mem := seq(WORDS, w requires 0 <= w < WORDS =>
                   if !(first <= w < first + n) then before[w]
                   else if raised == {} then ERASED else garbage[w]);
      fcris := fcris + raised;
      var wait: nat :| true;
      busy := wait;
      faults := raised;
    }

    /** Reading FMC2 or FMC while an operation runs; the write buffer empties when it completes. */
    method ReadBusy() returns (running: bool)
      requires Valid() && (busy == 0 ==> fwbval == {})
      modifies `busy, `fwbval
      ensures Valid() && (busy == 0 ==> fwbval == {})
      ensures running <==> old(busy) > 0
      ensures busy == if running then old(busy) - 1 else 0
    {
      running := busy > 0;
      if running { busy := busy - 1; }
      if busy == 0 { fwbval := {}; }
    }

    method WaitDone()
      requires Valid() && (busy == 0 ==> fwbval == {})
      modifies `busy, `fwbval
      ensures Idle()
    {
      var running := ReadBusy();
      while running
        invariant Valid() && (busy == 0 ==> fwbval == {})
        invariant !running ==> busy == 0
        decreases running, busy
      {
        running := ReadBusy();
      }
    }

    // ----- programming

    /** The inner loop of FlashProgram and FlashProgramNonBlocking: data go into the write buffer
        up to the end of the block or of the data. */
    method FillBlock(data: seq<Word>, ulAddress: Word, ulCount: Word) returns (used: nat, next: Word, left: Word)
      requires Idle() && ulAddress % 4 == 0 && ulCount == 4 * |data| && data != []
      modifies `fwb, `fwbval
      ensures Valid()
      ensures used == ChunkLength(ulAddress, |data|) && Chunk(ulAddress, data[..used], fwb, fwbval)
      ensures next == After(ulAddress, used) && left == ulCount - 4 * used
      ensures 0 < used <= |data| && ulAddress % 128 + 4 * used <= 128
      ensures used == |data| || ulAddress % 128 + 4 * used == 128
    {
      used, next, left := 0, ulAddress, ulCount;
      ghost var k := ulAddress % 128 / 4;
      IndexInBlock(ulAddress, 0);
      var index := IndexOf(next);
      while (index != 0 || fwbval == {}) && left != 0
        invariant Valid() && 0 <= used <= |data| && k + used <= 32
        invariant next == After(ulAddress, used) && left == ulCount - 4 * used
        invariant index == if k + used == 32 then 0 else 4 * (k + used)
        invariant Chunk(ulAddress, data[..used], fwb, fwbval)
        invariant fwbval == {} <==> used == 0
        decreases left
      {
        ghost var fwb0, fwbval0 := fwb, fwbval;
        WriteFWB(index, data[used]);
        FillStep(ulAddress, data, used, fwb0, fwbval0, fwb, fwbval);
        AfterSum(ulAddress, used, 1);
        used, next, left := used + 1, (next + 4) % TWO32, left - 4;
        IndexInBlock(ulAddress, used);
        index := IndexOf(next);
      }
    }

    /** One round of the outer loop: set the block address, fill the buffer, commit it. */
    method StartBlock(data: seq<Word>, ulAddress: Word, ulCount: Word)
      returns (used: nat, next: Word, left: Word,
               ghost buffer: seq<Word>, ghost valid: set<nat>, ghost faults: set<Fault>)
      requires Idle() && ulAddress % 4 == 0 && ulCount == 4 * |data| && data != []
      modifies this
      ensures Valid() && (busy == 0 ==> fwbval == {})
      ensures used == ChunkLength(ulAddress, |data|) && Chunk(ulAddress, data[..used], buffer, valid)
      ensures next == After(ulAddress, used) && left == ulCount - 4 * used
      ensures Burned(protected, old(mem), ulAddress / 128, buffer, valid, mem, faults)
      ensures fcris == old(fcris) + faults
      ensures bursts == old(bursts) + [Burst(BlockWords(ulAddress / 128, valid), faults)]
    {
      fma := BlockOf(ulAddress);
      used, next, left := FillBlock(data, ulAddress, ulCount);
      buffer, valid := fwb, fwbval;
      faults := WriteFMC2();
    }

    /** The same, as a step of a call that has programmed the first `done` words. */
    method StartNext(pulData: seq<Word>, ghost ulAddress: Word, done: nat, addr: Word, count: Word, ghost mem0: Memory,
                     ghost flags0: set<Fault>, ghost news: seq<Burst>)
      returns (used: nat, next: Word, left: Word, ghost more: seq<Burst>)
      requires Idle() && ulAddress % 4 == 0 && done < |pulData| <= WORDS
      requires addr == After(ulAddress, done) && count == 4 * (|pulData| - done)
      requires Progress(protected, mem0, ulAddress, pulData[..done], mem, news)
      modifies this
      ensures Valid() && (busy == 0 ==> fwbval == {})
      ensures used == ChunkLength(addr, |pulData| - done) > 0
      ensures next == After(ulAddress, done + used) && left == count - 4 * used
      ensures Progress(protected, mem0, ulAddress, pulData[..done + used], mem, more)
      ensures |more| == |news| + 1 && more[..|news|] == news && bursts == old(bursts) + more[|news|..]
      ensures Flagged(old(fcris), flags0, news) ==> Flagged(fcris, flags0, more)
    {
      ghost var before, buffer, valid, faults := mem, [], {}, {};
      AfterAligned(ulAddress, done);
      used, next, left, buffer, valid, faults := StartBlock(pulData[done..], addr, count);
      ProgressOn(protected, mem0, ulAddress, pulData, done, used, before, news, buffer, valid, mem, faults);
      more := news + [Burst(BlockWords(addr / 128, valid), faults)];
    }

    /** Stores the data and reports failure exactly when the range was not clear or the hardware failed;
        programs every target word once, touches no other, and no burst leaves its 128-byte block. */
    method FlashProgram(pulData: seq<Word>, ulAddress: Word, ulCount: Word) returns (result: int)
      requires Idle() && ulAddress % 4 == 0 && ulCount == 4 * |pulData|
      modifies this
      ensures Idle() && old(bursts) <= bursts
      ensures Progress(protected, old(mem), ulAddress, pulData, mem, bursts[|old(bursts)|..])
      ensures result == if AnyFault(bursts[|old(bursts)|..]) then -1 else 0
      ensures fcris - {Access, Volt, InvalidData, ProgVerify} == old(fcris) - {Access, Volt, InvalidData, ProgVerify}
      ensures |bursts| == |old(bursts)| + if ulCount == 0 then 0 else (ulAddress % 128 + ulCount + 127) / 128
    {
      ClearFaults(PROGRAM_FAULTS);
      ghost var news := ProgramBlocks(pulData, ulAddress, ulCount);
      assert bursts[|old(bursts)|..] == news;
      result := if fcris * PROGRAM_FAULTS != {} then -1 else 0;
    }

    /** Its loops: one commit for each block that the range meets. */
    method ProgramBlocks(pulData: seq<Word>, ulAddress: Word, ulCount: Word) returns (ghost news: seq<Burst>)
      requires Idle() && ulAddress % 4 == 0 && ulCount == 4 * |pulData| && fcris * PROGRAM_FAULTS == {}
      modifies this
      ensures Idle() && bursts == old(bursts) + news
      ensures Progress(protected, old(mem), ulAddress, pulData, mem, news) && Flagged(fcris, old(fcris), news)
      ensures BlocksDone(ulAddress, |pulData|, |pulData|, |news|)
    {
      var addr, count, done := ulAddress, ulCount, 0;
      news := [];
      NothingYet(protected, mem, ulAddress);
      while count != 0
        invariant Idle() && bursts == old(bursts) + news && 0 <= done <= |pulData|
        invariant addr == After(ulAddress, done) && count == ulCount - 4 * done
        invariant Progress(protected, old(mem), ulAddress, pulData[..done], mem, news)
        invariant Flagged(fcris, old(fcris), news)
        invariant BlocksDone(ulAddress, |pulData|, done, |news|)
        decreases count
      {
        NextBlock(ulAddress, |pulData|, done, |news|);
        var used;
        used, addr, count, news := StartNext(pulData, ulAddress, done, addr, count, old(mem), old(fcris), news);
        WaitDone();
        done := done + used;
      }
      assert pulData[..done] == pulData;
    }

    method ProgramWord(datum: Word, addr: Word) returns (ghost valid: set<nat>, ghost faults: set<Fault>)
      requires Idle()
      modifies this
      ensures Idle() && valid == {addr % 128 / 4}
      ensures Burned(protected, old(mem), addr / 128, Single(datum), valid, mem, faults)
      ensures fcris == old(fcris) + faults
      ensures bursts == old(bursts) + [Burst(BlockWords(addr / 128, valid), faults)]
    {
      fma, fmd := addr, datum;
      valid := {addr % 128 / 4};
      faults := WriteFMC();
      WaitDone();
    }

    method ProgramNext(pulData: seq<Word>, ghost ulAddress: Word, done: nat, addr: Word, ghost mem0: Memory,
                       ghost flags0: set<Fault>, ghost news: seq<Burst>)
      returns (ghost more: seq<Burst>)
      requires Idle() && ulAddress % 4 == 0 && done < |pulData| <= WORDS && addr == After(ulAddress, done)
      requires Progress(protected, mem0, ulAddress, pulData[..done], mem, news)
      modifies this
      ensures Idle() && Progress(protected, mem0, ulAddress, pulData[..done + 1], mem, more)
      ensures |more| == |news| + 1 && more[..|news|] == news && bursts == old(bursts) + more[|news|..]
      ensures Flagged(old(fcris), flags0, news) ==> Flagged(fcris, flags0, more)
    {
      ghost var before := mem;
      AfterAligned(ulAddress, done);
      ghost var valid, faults := ProgramWord(pulData[done], addr);
      SingleIsChunk(addr, pulData, done);
      ProgressOn(protected, mem0, ulAddress, pulData, done, 1, before,
                 news, Single(pulData[done]), valid, mem, faults);
      more := news + [Burst(BlockWords(addr / 128, valid), faults)];
    }

    /** The branch for a device without a write buffer: one word at a time. It keeps the same contract,
        so the two branches leave the same flash contents whenever they succeed. */
    method FlashProgramByWord(pulData: seq<Word>, ulAddress: Word, ulCount: Word) returns (result: int)
      requires Idle() && ulAddress % 4 == 0 && ulCount == 4 * |pulData|
      modifies this
      ensures Idle() && old(bursts) <= bursts
      ensures Progress(protected, old(mem), ulAddress, pulData, mem, bursts[|old(bursts)|..])
      ensures result == if AnyFault(bursts[|old(bursts)|..]) then -1 else 0
      ensures fcris - {Access, Volt, InvalidData, ProgVerify} == old(fcris) - {Access, Volt, InvalidData, ProgVerify}
      ensures |bursts| == |old(bursts)| + |pulData|
    {
      ClearFaults(PROGRAM_FAULTS);
      var addr, count, done := ulAddress, ulCount, 0;
      ghost var news: seq<Burst> := [];
      NothingYet(protected, mem, ulAddress);
      while count != 0
        invariant Idle() && bursts == old(bursts) + news && 0 <= done <= |pulData|
        invariant addr == After(ulAddress, done) && count == ulCount - 4 * done
        invariant Progress(protected, old(mem), ulAddress, pulData[..done], mem, news)
        invariant Flagged(fcris, old(fcris), news) && |news| == done
        decreases count
      {
        news := ProgramNext(pulData, ulAddress, done, addr, old(mem), old(fcris), news);
        AfterSum(ulAddress, done, 1);
        done, addr, count := done + 1, (addr + 4) % TWO32, count - 4;
      }
      assert pulData[..done] == pulData;
      assert bursts[|old(bursts)|..] == news;
      result := if fcris * PROGRAM_FAULTS != {} then -1 else 0;
    }

    /** Refuses exactly the ranges that leave their 128-byte block without running round the address space back into
        it, and the empty range at the start of a block. Other ranges are programmed: by one burst, unless they do run
        round; those go on to a next burst, and `collided` tells that the one before it was still under way then. */
    method FlashProgramNonBlocking(pulData: seq<Word>, ulAddress: Word, ulCount: Word)
      returns (result: int, collided: bool, ghost done: nat)
      requires Idle() && ulAddress % 4 == 0 && ulCount == 4 * |pulData|
      modifies this
      ensures Valid() && (busy == 0 ==> fwbval == {}) && old(bursts) <= bursts
      ensures result == if Straddles(ulAddress, ulCount) && !RunsRound(ulAddress, ulCount) then -1 else 0
      ensures result == -1 <==> (ulAddress + ulCount - 1) % 0x1_0000_0000 / 128 != ulAddress / 128
      ensures done <= |pulData|
      ensures Progress(protected, old(mem), ulAddress, pulData[..done], mem, bursts[|old(bursts)|..])
      ensures result == -1 ==> !collided && done == 0 && mem == old(mem) && bursts == old(bursts)
      ensures result == 0 && !collided ==> done == |pulData|
      ensures collided ==> RunsRound(ulAddress, ulCount)
      ensures result == 0 && ulCount != 0 && !RunsRound(ulAddress, ulCount) ==> |bursts| == |old(bursts)| + 1
      ensures fcris - {Access, Volt, InvalidData, ProgVerify} == old(fcris) - {Access, Volt, InvalidData, ProgVerify}
    {
      ClearFaults(PROGRAM_FAULTS);
      ghost var news: seq<Burst> := [];
      NothingYet(protected, mem, ulAddress);
      assert pulData[..0] == [] && bursts[|old(bursts)|..] == news;
      var refused := Refuses(ulAddress, ulCount);
      if refused { return -1, false, 0; }
      collided, done, news := StartBlocks(pulData, ulAddress, ulCount);
      assert bursts[|old(bursts)|..] == news;
      result := 0;
    }

    /** Its loops. */
    method StartBlocks(pulData: seq<Word>, ulAddress: Word, ulCount: Word)
      returns (collided: bool, ghost done: nat, ghost news: seq<Burst>)
      requires Idle() && ulAddress % 4 == 0 && ulCount == 4 * |pulData|
      requires Straddles(ulAddress, ulCount) ==> RunsRound(ulAddress, ulCount)
      requires fcris * PROGRAM_FAULTS == {}
      modifies this
      ensures fcris - PROGRAM_FAULTS == old(fcris) - PROGRAM_FAULTS
      ensures Valid() && (busy == 0 ==> fwbval == {}) && bursts == old(bursts) + news
      ensures done <= |pulData| && (!collided ==> done == |pulData|)
      ensures Progress(protected, old(mem), ulAddress, pulData[..done], mem, news)
      ensures collided ==> RunsRound(ulAddress, ulCount)
      ensures ulCount != 0 && !RunsRound(ulAddress, ulCount) ==> |news| == 1
    {
      var addr, count, at := ulAddress, ulCount, 0;
      news := [];
      NothingYet(protected, mem, ulAddress);
      assert pulData[..0] == [];
      while count != 0
        invariant Valid() && (busy == 0 ==> fwbval == {}) && (at == 0 ==> busy == 0)
        invariant bursts == old(bursts) + news && 0 <= at <= |pulData|
        invariant addr == After(ulAddress, at) && count == ulCount - 4 * at
        invariant Progress(protected, old(mem), ulAddress, pulData[..at], mem, news)
        invariant Flagged(fcris, old(fcris), news)
        invariant !RunsRound(ulAddress, ulCount) ==> at == |news| == 0 || (at == |pulData| && |news| == 1)
        decreases count
      {
        if busy != 0 { return true, at, news; }
        var used;
        used, addr, count, news := StartNext(pulData, ulAddress, at, addr, count, old(mem), old(fcris), news);
        at := at + used;
      }
      collided, done := false, at;
    }

    // ----- erasing

    /** Erases the 1 kB sector (FLASH_CTRL_ERASE_SIZE) at `ulAddress`; failure is reported exactly when
        this erase raised a flag, whatever flags were left over before. */
    method FlashErase(ulAddress: Word) returns (result: int, ghost faults: set<Fault>)
      requires Idle() && ulAddress % 0x400 == 0
      modifies this
      ensures Idle() && bursts == old(bursts)
      ensures Erased(protected, old(mem), ulAddress / 4, 0x100, mem, faults)
      ensures result == if faults != {} then -1 else 0
      ensures fcris == old(fcris) - {Access, Volt, EraseVerify} + faults
    {
      ClearFaults(ERASE_FAULTS);
      fma := ulAddress;
      faults := WriteFMCErase(fma / 4, 0x100);
      WaitDone();
      result := if fcris * ERASE_FAULTS != {} then -1 else 0;
    }

    method FlashMassErase() returns (result: int, ghost faults: set<Fault>)
      requires Idle()
      modifies this
      ensures Idle() && bursts == old(bursts)
      ensures Erased(protected, old(mem), 0, WORDS, mem, faults)
      ensures result == if faults != {} then -1 else 0
      ensures fcris == old(fcris) - {Access, Volt, EraseVerify} + faults
    {
      ClearFaults(ERASE_FAULTS);
      faults := WriteFMCErase(0, WORDS);
      WaitDone();
      result := if fcris * ERASE_FAULTS != {} then -1 else 0;
    }
  }

  /** From the same contents, the buffered and the word-at-a-time branch leave the same flash, having operated
      on the same words; and they differ in what they report only by a failure of the hardware's own. */
  method BothBranches(a: FlashController, b: FlashController, data: seq<Word>, addr: Word, count: Word)
    returns (ra: int, rb: int)
    requires a != b && a.Idle() && b.Idle() && a.mem == b.mem && a.protected == b.protected
    requires addr % 4 == 0 && count == 4 * |data|
    modifies a, b
    ensures old(a.bursts) <= a.bursts && old(b.bursts) <= b.bursts
    ensures Touched(a.bursts[|old(a.bursts)|..]) == Touched(b.bursts[|old(b.bursts)|..])
    ensures ra == rb == 0 ==> a.mem == b.mem == Overwrite(old(a.mem), addr, data)
    ensures ra != rb ==> Glitch(a.bursts[|old(a.bursts)|..]) || Glitch(b.bursts[|old(b.bursts)|..])
  {
    ra := a.FlashProgram(data, addr, count);
    rb := b.FlashProgramByWord(data, addr, count);
  }

  /** A sector erased without fault takes any data: programming within it can only fail by a hardware
      failure, and otherwise the flash reads back as the data. */
  method EraseThenProgram(c: FlashController, sector: Word, data: seq<Word>, offset: nat)
    returns (erased: int, programmed: int)
    requires c.Idle() && sector % 0x400 == 0 && offset % 4 == 0 && offset < 0x400 && offset + 4 * |data| <= 0x400
    modifies c
    ensures c.Idle() && old(c.bursts) <= c.bursts
    ensures erased == programmed == 0 ==>
              forall i :: 0 <= i < |data| ==> c.mem[(sector + offset) / 4 + i] == data[i]
    ensures erased == 0 && programmed != 0 ==> Glitch(c.bursts[|old(c.bursts)|..])
  {
    ghost var faults;
    erased, faults := c.FlashErase(sector);
    programmed := -1;
    if erased == 0 {
      ghost var blank := c.mem;
      var addr := sector + offset;
      ErasedIsClear(c.protected, old(c.mem), blank, sector, addr, data);
      programmed := c.FlashProgram(data, addr, 4 * |data|);
      ReadBack(blank, addr, data);
    }
  }

  /** The test with which FlashProgramNonBlocking begins. */
  method Refuses(addr: Word, count: Word) returns (refused: bool)
    requires addr % 4 == 0 && count % 4 == 0
    ensures refused <==> Straddles(addr, count) && !RunsRound(addr, count)
    ensures refused <==> (addr + count - 1) % 0x1_0000_0000 / 128 != addr / 128
  {
    var first := BlockOf(addr);
    var last := BlockOf((addr + (count - 1) % TWO32) % TWO32);
    StraddleTest(addr, count);
    LastByte(addr, count);
    refused := last != first;
  }

  // ulAddress & ~0x7F
  method BlockOf(addr: Word) returns (base: Word)
    ensures base == addr - addr % 128
  {
    assert Pow2(7) == 128;
    AndNotMask(addr, 7);
    base := AndNot(addr, 0x7F);
  }

  // ulAddress & 0x7C
  method IndexOf(addr: Word) returns (index: nat)
    requires addr % 4 == 0
    ensures index == addr % 128
  {
    var word := addr / 4;
    IndexMask(word);
    ModUnique(addr, 128, word / 32, 4 * (word % 32));
    index := And(addr, 0x7C);
  }

  /** The flags, cleared once before the bursts, report whether any of them failed; no other flag has moved. */
  ghost predicate Flagged(flags: set<Fault>, flags0: set<Fault>, bursts: seq<Burst>) {
    && (flags * PROGRAM_FAULTS == {} <==> !AnyFault(bursts))
    && flags - PROGRAM_FAULTS == flags0 - PROGRAM_FAULTS
  }

  /** After `done` of n words, k blocks have been gone through, the last one to its end unless the data ended. */
  predicate BlocksDone(addr: Word, n: nat, done: nat, k: nat) {
    if done == 0 then k == 0
    else if done == n then k == (addr % 128 + 4 * n + 127) / 128
    else addr % 128 + 4 * done == 128 * k
  }

  // ----- lemmas the methods call

  lemma NextBlock(addr: Word, n: nat, done: nat, k: nat)
    requires addr % 4 == 0 && done < n && BlocksDone(addr, n, done, k)
    ensures BlocksDone(addr, n, done + ChunkLength(After(addr, done), n - done), k + 1)
  {
    var next := After(addr, done);
    if done == 0 {
      assert next == addr;
    } else {
      BlockEnds(addr, done, k);
    }
  }

  lemma BlockEnds(addr: Word, done: nat, k: nat)
    requires addr % 128 + 4 * done == 128 * k
    ensures After(addr, done) % 128 == 0
  {
    var x := addr + 4 * done;
    assert x == 128 * (addr / 128 + k);
    ModUnique(After(addr, done), 128, addr / 128 + k - 0x200_0000 * (x / TWO32), 0);
  }

  /** The step the loops of FlashProgram take: m more words of the data. */
  lemma ProgressOn(protected: set<nat>, mem: Memory, addr: Word, data: seq<Word>, done: nat, m: nat, mem1: Memory,
                   bursts: seq<Burst>, buffer: seq<Word>, valid: set<nat>, mem2: Memory, faults: set<Fault>)
    requires addr % 4 == 0 && |data| <= WORDS && 0 < m && done + m <= |data|
    requires Progress(protected, mem, addr, data[..done], mem1, bursts)
    requires Chunk(After(addr, done), data[done..][..m], buffer, valid)
    requires Burned(protected, mem1, After(addr, done) / 128, buffer, valid, mem2, faults)
    ensures var more := bursts + [Burst(BlockWords(After(addr, done) / 128, valid), faults)];
            && Progress(protected, mem, addr, data[..done + m], mem2, more)
            && forall flags, flags0 :: Flagged(flags, flags0, bursts) ==> Flagged(flags + faults, flags0, more)
    ensures After(addr, done + m) == After(After(addr, done), m)
  {
    ProgressStep(protected, mem, addr, data[..done], data[done..][..m], mem1, bursts, buffer, valid, mem2, faults);
    OneMore(bursts, Burst(BlockWords(After(addr, done) / 128, valid), faults));
    assert data[..done] + data[done..][..m] == data[..done + m];
    AfterSum(addr, done, m);
  }

  function Single(datum: Word): seq<Word> {
    seq(32, i => datum)
  }

  /** How much of the data fits into the block that `addr` points into. */
  function ChunkLength(addr: Word, n: nat): nat {
    if n < 32 - addr % 128 / 4 then n else 32 - addr % 128 / 4
  }

  lemma IndexMask(word: nat)
    ensures And(4 * word, 0x7C) == 4 * (word % 32)
  {
    var b := And(word, 31);
    assert b == word % 32 by { assert Pow2(5) == 32; AndMask(word, 5); }
    var x, y := 2 * word, 62;
    assert And(x, y) == 2 * b by { AndTwice(word, 31); }
    assert And(2 * x, 2 * y) == 4 * b by { AndTwice(x, y); }
  }

  lemma AndTwice(x: nat, y: nat)
    ensures And(2 * x, 2 * y) == 2 * And(x, y)
  {
  }

  lemma SingleIsChunk(addr: Word, data: seq<Word>, i: nat)
    requires addr % 4 == 0 && i < |data|
    ensures Chunk(addr, data[i..][..1], Single(data[i]), {addr % 128 / 4})
  {
  }

  /** The range leaves the 128-byte block it starts in, or is empty at the start of a block. */
  predicate Straddles(addr: Word, count: Word) {
    if count == 0 then addr % 128 == 0 else addr % 128 + count > 128
  }

  /** The range runs round the address space back into the block it starts in. */
  predicate RunsRound(addr: Word, count: Word) {
    addr % 128 + count > TWO32
  }

  /** The test FlashProgramNonBlocking makes, for every address and count: it misses a straddling range
      exactly when the range runs round the address space back into its own block. */
  lemma StraddleTest(addr: Word, count: Word)
    requires addr % 4 == 0 && count % 4 == 0
    ensures var last := (addr + (count - 1) % TWO32) % TWO32;
            last - last % 128 != addr - addr % 128 <==> Straddles(addr, count) && !RunsRound(addr, count)
  {
    var last := (addr + (count - 1) % TWO32) % TWO32;
    SameBlock(addr, last);
    if count == 0 {
      assert last == if addr == 0 then TWO32 - 1 else addr - 1;
    } else {
      assert last == if addr + count - 1 < TWO32 then addr + count - 1 else addr + count - 1 - TWO32;
    }
  }

  lemma LastByte(addr: Word, count: Word)
    ensures var last := (addr + (count - 1) % TWO32) % TWO32;
            last - last % 128 != addr - addr % 128 <==> (addr + count - 1) % 0x1_0000_0000 / 128 != addr / 128
  {
    var last := (addr + count - 1) % TWO32;
    assert last == (addr + (count - 1) % TWO32) % TWO32;
    assert last == 128 * (last / 128) + last % 128 && addr == 128 * (addr / 128) + addr % 128;
  }

  /** A range straddles blocks exactly when one of its bytes lies in another block than its first. */
  lemma StraddlesByte(addr: Word, count: Word, k: nat) returns (other: nat)
    requires k < count
    ensures (addr + k) % 0x1_0000_0000 / 128 != addr / 128 ==> Straddles(addr, count)
    ensures Straddles(addr, count) ==> other < count && (addr + other) % 0x1_0000_0000 / 128 != addr / 128
  {
    var q, r := addr / 128, addr % 128;
    if r + k < 128 { ModUnique(addr + k, 128, q, r + k); }
    other := 128 - r;
    assert addr + other == 128 * (q + 1);
  }

  lemma SameBlock(a: nat, b: nat)
    ensures b - b % 128 == a - a % 128 <==> a - a % 128 <= b < a - a % 128 + 128
  {
  }

  /** The range of all but one word that starts at address 8 straddles blocks and yet passes the test. */
  lemma GuardMissesWrap()
    ensures var addr, count := 8, TWO32 - 4;
            var last := (addr + (count - 1) % TWO32) % TWO32;
            Straddles(addr, count) && last - last % 128 == addr - addr % 128
  {
    StraddleTest(8, TWO32 - 4);
  }

  lemma ErasedIsClear(protected: set<nat>, before: Memory, mem: Memory, sector: Word, addr: Word, data: seq<Word>)
    requires sector % 0x400 == 0 && addr % 4 == 0 && sector <= addr && addr + 4 * |data| <= sector + 0x400
    requires Erased(protected, before, sector / 4, 0x100, mem, {})
    ensures Clear(protected, mem, addr, data)
  {
    forall w | 0 <= w < WORDS && Offset(addr, w) < |data|
      ensures !Locked(protected, w) && Programmable(mem[w], data[Offset(addr, w)])
    {
      OffsetInRange(addr, |data|, w);
      ErasedIsProgrammable(data[Offset(addr, w)]);
    }
  }

  lemma OffsetInRange(addr: Word, n: nat, w: nat)
    requires addr % 4 == 0 && addr / 4 + n <= WORDS && w < WORDS
    ensures Offset(addr, w) < n <==> addr / 4 <= w < addr / 4 + n
    ensures addr / 4 <= w ==> Offset(addr, w) == w - addr / 4
  {
    assert Offset(addr, w) == if w >= addr / 4 then w - addr / 4 else w - addr / 4 + WORDS;
  }

  /** Reading back what was programmed. */
  lemma ReadBack(mem: Memory, addr: Word, data: seq<Word>)
    requires addr % 4 == 0 && addr / 4 + |data| <= WORDS
    ensures forall i :: 0 <= i < |data| ==> Overwrite(mem, addr, data)[addr / 4 + i] == data[i]
  {
    forall i | 0 <= i < |data|
      ensures Overwrite(mem, addr, data)[addr / 4 + i] == data[i]
    {
      OffsetInRange(addr, |data|, addr / 4 + i);
      OverwriteAt(mem, addr, data, addr / 4 + i);
    }
  }

  lemma FillStep(addr: Word, data: seq<Word>, i: nat, fwb: seq<Word>, valid: set<nat>,
                 fwb': seq<Word>, valid': set<nat>)
    requires i < |data| && addr % 128 / 4 + i < 32
    requires Chunk(addr, data[..i], fwb, valid)
    requires fwb' == fwb[addr % 128 / 4 + i := data[i]] && valid' == valid + {addr % 128 / 4 + i}
    ensures Chunk(addr, data[..i + 1], fwb', valid')
  {
  }

  lemma IndexInBlock(addr: Word, i: nat)
    requires addr % 4 == 0 && addr % 128 / 4 + i <= 32
    ensures After(addr, i) % 4 == 0
    ensures After(addr, i) % 128 == if addr % 128 / 4 + i == 32 then 0 else 4 * (addr % 128 / 4 + i)
  {
    var q, k := addr / 128, addr % 128 / 4;
    assert addr == 128 * q + 4 * k;
    var sum, s := addr + 4 * i, After(addr, i);
    assert s == if sum < TWO32 then sum else sum - TWO32;
    assert sum == 128 * q + 4 * (k + i);
    IndexOfSum(if sum < TWO32 then q else q - 0x200_0000, k + i, s);
  }

  lemma IndexOfSum(q: int, j: nat, s: nat)
    requires s == 128 * q + 4 * j && j <= 32
    ensures s % 4 == 0 && s % 128 == if j == 32 then 0 else 4 * j
  {
    ModUnique(s, 4, 32 * q + j, 0);
    if j == 32 {
      ModUnique(s, 128, q + 1, 0);
    } else {
      ModUnique(s, 128, q, 4 * j);
    }
  }
}
