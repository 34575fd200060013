/** What programming and erasing mean for the contents of the flash, word by word. */
module FlashSpec {
  import opened Bits

  const WORDS: nat := 0x4000_0000
  const ERASED: nat := 0xFFFF_FFFF

  type Memory = m: seq<Word> | |m| == WORDS ghost witness seq(WORDS, i => 0)

  datatype Fault = Access | Volt | InvalidData | ProgVerify | EraseVerify

  const PROGRAM_FAULTS: set<Fault> := {Access, Volt, InvalidData, ProgVerify}
  const ERASE_FAULTS: set<Fault> := {Access, Volt, EraseVerify}

  /** Programming clears bits only, so a datum can be stored where it asks for no cleared bit. */
  predicate Programmable(cell: Word, datum: Word) {
    And(cell, datum) == datum
  }

  /** Bit by bit: a datum is programmable exactly when no bit that is set in it is clear in the cell. */
  lemma ProgrammableBits(cell: Word, datum: Word) returns (cleared: nat)
    ensures Programmable(cell, datum) ==> forall i: nat :: Bit(datum, i) ==> Bit(cell, i)
    ensures !Programmable(cell, datum) ==> Bit(datum, cleared) && !Bit(cell, cleared)
  {
    if Programmable(cell, datum) {
      forall i: nat | Bit(datum, i) ensures Bit(cell, i) { BitOfAnd(cell, datum, i); }
      cleared := 0;
    } else {
      cleared := ClearedBit(cell, datum);
    }
  }

  lemma {:induction false} ClearedBit(cell: nat, datum: nat) returns (i: nat)
    requires And(cell, datum) != datum
    ensures Bit(datum, i) && !Bit(cell, i)
  {
    if datum % 2 == 1 && cell % 2 == 0 {
      i := 0;
    } else {
      i := ClearedBit(cell / 2, datum / 2);
      i := i + 1;
    }
  }

  lemma {:induction false} AndSame(x: nat, k: nat)
    requires x < Pow2(k)
    ensures And(Pow2(k) - 1, x) == x
  {
    if k > 0 && x > 0 {
      var y: nat := 2 * Pow2(k - 1) - 1;
      assert y % 2 == 1 && y / 2 == Pow2(k - 1) - 1;
      AndSame(x / 2, k - 1);
    }
  }

  /** Any datum can be programmed into an erased word. */
  lemma ErasedIsProgrammable(datum: Word)
    ensures Programmable(ERASED, datum)
  {
    Pow2At32();
    AndSame(datum, 32);
  }

  // ----- the range of words a call is to program

  /** The byte address n words further on, in a 32-bit address space. */
  function After(addr: Word, n: nat): Word {
    (addr + 4 * n) % TWO32
  }

  /** How many words past the start of the range word w lies. */
  function Offset(addr: Word, w: nat): nat {
    (w - addr / 4) % WORDS
  }

  function Target(addr: Word, n: nat): set<nat> {
    set w | 0 <= w < WORDS && Offset(addr, w) < n
  }

  /** The memory with `data` stored from `addr` on: the simple, word-at-a-time meaning of programming. */
  function Overwrite(mem: Memory, addr: Word, data: seq<Word>): Memory
    decreases |data|
  {
    if data == [] then mem else Overwrite(mem[addr / 4 := data[0]], After(addr, 1), data[1..])
  }

  lemma OffsetOfNext(addr: Word, w: nat)
    requires addr % 4 == 0 && w < WORDS
    ensures After(addr, 1) % 4 == 0
    ensures Offset(addr, w) == if w == addr / 4 then 0 else 1 + Offset(After(addr, 1), w)
    ensures w == addr / 4 ==> Offset(After(addr, 1), w) == WORDS - 1
  {
    var a := addr / 4;
    assert After(addr, 1) / 4 == if a + 1 == WORDS then 0 else a + 1;
    assert Offset(addr, w) == if w >= a then w - a else w - a + WORDS;
  }

  /** After programming, each target word holds its datum and every other word what it held before. */
  lemma {:induction false} OverwriteAt(mem: Memory, addr: Word, data: seq<Word>, w: nat)
    requires addr % 4 == 0 && |data| <= WORDS && w < WORDS
    ensures Overwrite(mem, addr, data)[w] ==
            if Offset(addr, w) < |data| then data[Offset(addr, w)] else mem[w]
    decreases |data|
  {
    if data != [] {
      OffsetOfNext(addr, w);
      OverwriteAt(mem[addr / 4 := data[0]], After(addr, 1), data[1..], w);
    }
  }

  lemma AfterSum(addr: Word, a: nat, b: nat)
    ensures After(After(addr, a), b) == After(addr, a + b)
  {
    var x := addr + 4 * a;
    var y := x % TWO32 + 4 * b;
    ModUnique(x + 4 * b, TWO32, x / TWO32 + y / TWO32, y % TWO32);
  }

  lemma {:induction false} OverwriteAppend(mem: Memory, addr: Word, a: seq<Word>, b: seq<Word>)
    ensures Overwrite(mem, addr, a + b) == Overwrite(Overwrite(mem, addr, a), After(addr, |a|), b)
    decreases |a|
  {
    if a == [] {
      assert a + b == b;
    } else {
      assert (a + b)[1..] == a[1..] + b;
      OverwriteAppend(mem[addr / 4 := a[0]], After(addr, 1), a[1..], b);
      AfterSum(addr, 1, |a| - 1);
    }
  }

  lemma AfterAligned(addr: Word, n: nat)
    requires addr % 4 == 0
    ensures After(addr, n) % 4 == 0
  {
  }

  /** Splitting the range: offsets restart after n words. */
  lemma OffsetAfter(addr: Word, n: nat, w: nat)
    requires addr % 4 == 0 && w < WORDS && n <= WORDS
    ensures After(addr, n) % 4 == 0
    ensures Offset(addr, w) == (n + Offset(After(addr, n), w)) % WORDS
  {
    var a := addr / 4;
    var next := if a + n < WORDS then a + n else a + n - WORDS;
    assert After(addr, n) == 4 * next;
    OffsetShift(a, n, next, w);
  }

  lemma OffsetShift(a: nat, n: nat, next: nat, w: nat)
    requires a < WORDS && n <= WORDS && w < WORDS
    requires next == if a + n < WORDS then a + n else a + n - WORDS
    ensures (w - a) % WORDS == (n + (w - next) % WORDS) % WORDS
  {
    var d := if w >= next then w - next else w - next + WORDS;
    assert (w - next) % WORDS == d;
    assert n + d == w - a || n + d == w - a + WORDS || n + d == w - a + 2 * WORDS;
  }

  lemma TargetSplit(addr: Word, n: nat, m: nat)
    requires addr % 4 == 0 && n + m <= WORDS
    ensures Target(addr, n + m) == Target(addr, n) + Target(After(addr, n), m)
    ensures Target(addr, n) !! Target(After(addr, n), m)
  {
    forall w | 0 <= w < WORDS
      ensures w in Target(After(addr, n), m) <==> n <= Offset(addr, w) < n + m
    {
      OffsetAfter(addr, n, w);
      Shifted(n, m, Offset(After(addr, n), w));
    }
  }

  lemma Shifted(n: nat, m: nat, o: nat)
    requires n + m <= WORDS && o < WORDS
    ensures o < m <==> n <= (n + o) % WORDS < n + m
  {
    assert (n + o) % WORDS == if n + o < WORDS then n + o else n + o - WORDS;
  }

  // ----- one operation of the flash controller

  predicate Locked(protected: set<nat>, w: nat) {
    w / 32 in protected
  }

  /** Word w lies in the given 128-byte block, at one of the indices in `valid`. */
  predicate InBlock(w: nat, block: nat, valid: set<nat>) {
    w / 32 == block && w % 32 in valid
  }

  function BlockWords(block: nat, valid: set<nat>): set<nat> {
    set w | 0 <= w < WORDS && InBlock(w, block, valid)
  }

  /** The outcome of programming the words of one 128-byte block whose index is in `valid`, from `buffer`:
      a conflict or a protected block is reported, other failures are the hardware's choice, and only
      a fault-free operation stores the data. No word outside is touched. */
  ghost predicate Burned(protected: set<nat>, mem: Memory, block: nat, buffer: seq<Word>, valid: set<nat>,
                         mem': Memory, faults: set<Fault>)
    requires block < WORDS / 32 && |buffer| == 32
  {
    && faults <= PROGRAM_FAULTS
    && (Access in faults <==> block in protected)
    && (InvalidData in faults <==>
          exists w :: 0 <= w < WORDS && InBlock(w, block, valid) && !Programmable(mem[w], buffer[w % 32]))
    && (forall w :: 0 <= w < WORDS && !InBlock(w, block, valid) ==> mem'[w] == mem[w])
    && (faults == {} ==> forall w :: 0 <= w < WORDS && InBlock(w, block, valid) ==> mem'[w] == buffer[w % 32])
  }

  /** The outcome of erasing n words from `first` on. */
  ghost predicate Erased(protected: set<nat>, mem: Memory, first: nat, n: nat, mem': Memory, faults: set<Fault>)
    requires first + n <= WORDS
  {
    && faults <= ERASE_FAULTS
    && (Access in faults <==> exists w :: first <= w < first + n && Locked(protected, w))
    && (forall w :: 0 <= w < WORDS && !(first <= w < first + n) ==> mem'[w] == mem[w])
    && (faults == {} ==> forall w :: first <= w < first + n ==> mem'[w] == ERASED)
  }

  /** Erasing, word by word and block by block. */
  lemma ErasedInWords(protected: set<nat>, mem: Memory, first: nat, n: nat, mem': Memory, faults: set<Fault>)
    requires first + n <= 0x4000_0000 && Erased(protected, mem, first, n, mem', faults)
    ensures forall w :: 0 <= w < 0x4000_0000 && !(first <= w < first + n) ==> mem'[w] == mem[w]
    ensures faults == {} ==> forall w :: first <= w < first + n ==> mem'[w] == 0xFFFF_FFFF
    ensures n > 0 ==> (Access in faults <==>
              exists b :: b in protected && 32 * b < first + n && first < 32 * b + 32)
  {
    if n > 0 && Access in faults {
      var w :| first <= w < first + n && Locked(protected, w);
      assert w / 32 in protected && 32 * (w / 32) <= w < 32 * (w / 32) + 32;
    }
    if b :| b in protected && n > 0 && 32 * b < first + n && first < 32 * b + 32 {
      var w := if first >= 32 * b then first else 32 * b;
      assert Locked(protected, w) by { assert w / 32 == b; }
    }
  }

  /** A chunk of the data lying in one block, and where it sits in the write buffer. */
  ghost predicate Chunk(addr: Word, data: seq<Word>, buffer: seq<Word>, valid: set<nat>) {
    && addr % 4 == 0 && |buffer| == 32
    && addr % 128 / 4 + |data| <= 32
    && (forall i :: i in valid <==> addr % 128 / 4 <= i < addr % 128 / 4 + |data|)
    && (forall i :: 0 <= i < |data| ==> buffer[addr % 128 / 4 + i] == data[i])
  }

  lemma ChunkOffset(addr: Word, n: nat, w: nat)
    requires addr % 4 == 0 && addr % 128 / 4 + n <= 32 && w < WORDS
    ensures w / 32 == addr / 128 && addr % 128 / 4 <= w % 32 < addr % 128 / 4 + n <==> Offset(addr, w) < n
    ensures Offset(addr, w) < n ==> w % 32 == addr % 128 / 4 + Offset(addr, w)
  {
    var a, k := addr / 4, addr % 128 / 4;
    assert a == 32 * (addr / 128) + k;
    assert w == 32 * (w / 32) + w % 32;
    assert Offset(addr, w) == if w >= a then w - a else w - a + WORDS;
  }

  lemma ChunkAt(addr: Word, data: seq<Word>, buffer: seq<Word>, valid: set<nat>, w: nat)
    requires Chunk(addr, data, buffer, valid) && w < WORDS
    ensures InBlock(w, addr / 128, valid) <==> Offset(addr, w) < |data|
    ensures Offset(addr, w) < |data| ==> buffer[w % 32] == data[Offset(addr, w)]
  {
    ChunkOffset(addr, |data|, w);
  }

  /** Burning a chunk is the simple overwrite of its words, or touches nothing outside them. */
  lemma BurnIsOverwrite(protected: set<nat>, mem: Memory, addr: Word, data: seq<Word>, buffer: seq<Word>,
                        valid: set<nat>, mem': Memory, faults: set<Fault>)
    requires Chunk(addr, data, buffer, valid)
    requires Burned(protected, mem, addr / 128, buffer, valid, mem', faults)
    ensures faults == {} ==> mem' == Overwrite(mem, addr, data)
    ensures forall w :: 0 <= w < WORDS && w !in Target(addr, |data|) ==> mem'[w] == mem[w]
  {
    forall w | 0 <= w < WORDS
      ensures w !in Target(addr, |data|) ==> mem'[w] == mem[w]
      ensures faults == {} ==> mem'[w] == Overwrite(mem, addr, data)[w]
    {
      ChunkAt(addr, data, buffer, valid, w);
      OverwriteAt(mem, addr, data, w);
    }
  }

  // ----- a call made of several operations

  /** One program or erase operation the controller carried out. */
  datatype Burst = Burst(words: set<nat>, faults: set<Fault>)

  /** How often each word was operated on. */
  ghost function Touched(bursts: seq<Burst>): multiset<nat> {
    if bursts == [] then multiset{} else Touched(bursts[..|bursts| - 1]) + multiset(bursts[|bursts| - 1].words)
  }

  ghost predicate AnyFault(bursts: seq<Burst>) {
    exists b :: b in bursts && b.faults != {}
  }

  /** A failure of the hardware's own making. */
  ghost predicate Glitch(bursts: seq<Burst>) {
    exists b :: b in bursts && b.faults * {Volt, ProgVerify} != {}
  }

  ghost predicate WithinBlocks(bursts: seq<Burst>) {
    forall b, v, w :: b in bursts && v in b.words && w in b.words ==> v / 32 == w / 32
  }

  /** The range is unprotected and none of its cleared bits is asked to be set. */
  ghost predicate Clear(protected: set<nat>, mem: Memory, addr: Word, data: seq<Word>) {
    forall w :: 0 <= w < WORDS && Offset(addr, w) < |data| ==>
      !Locked(protected, w) && Programmable(mem[w], data[Offset(addr, w)])
  }

  /** The state after `bursts` have programmed `data` from `addr` on. */
  ghost predicate Progress(protected: set<nat>, mem: Memory, addr: Word, data: seq<Word>,
                           mem': Memory, bursts: seq<Burst>)
  {
    && Touched(bursts) == multiset(Target(addr, |data|))
    && WithinBlocks(bursts)
    && (forall w :: 0 <= w < WORDS && w !in Target(addr, |data|) ==> mem'[w] == mem[w])
    && (!AnyFault(bursts) ==> mem' == Overwrite(mem, addr, data))
    && (AnyFault(bursts) <==> !Clear(protected, mem, addr, data) || Glitch(bursts))
  }

  lemma {:induction false} TouchedIn(bursts: seq<Burst>, i: nat, w: nat)
    requires i < |bursts| && w in bursts[i].words
    ensures w in Touched(bursts)
    decreases |bursts|
  {
    if i < |bursts| - 1 { TouchedIn(bursts[..|bursts| - 1], i, w); }
  }

  lemma {:induction false} TouchedTwice(bursts: seq<Burst>, i: nat, j: nat, w: nat)
    requires i < j < |bursts| && w in bursts[i].words && w in bursts[j].words
    ensures Touched(bursts)[w] >= 2
    decreases |bursts|
  {
    var fewer := bursts[..|bursts| - 1];
    if j < |fewer| { TouchedTwice(fewer, i, j, w); } else { TouchedIn(fewer, i, w); }
  }

  lemma {:induction false} TouchedFrom(bursts: seq<Burst>, w: nat) returns (i: nat)
    requires w in Touched(bursts)
    ensures i < |bursts| && w in bursts[i].words
    decreases |bursts|
  {
    if w in bursts[|bursts| - 1].words { i := |bursts| - 1; } else { i := TouchedFrom(bursts[..|bursts| - 1], w); }
  }

  /** The bursts of a call, word by word: a word of the range was programmed by one of them and no more, any other
      word by none. */
  lemma ProgressOnce(protected: set<nat>, mem: Memory, addr: Word, data: seq<Word>, mem': Memory, bursts: seq<Burst>,
                     w: nat)
    requires Progress(protected, mem, addr, data, mem', bursts) && w < 0x4000_0000
    ensures (exists i :: 0 <= i < |bursts| && w in bursts[i].words) <==> (w - addr / 4) % 0x4000_0000 < |data|
    ensures forall i, j :: 0 <= i < j < |bursts| && w in bursts[i].words ==> w !in bursts[j].words
    ensures forall i, v :: 0 <= i < |bursts| && v in bursts[i].words && w in bursts[i].words ==> v / 32 == w / 32
  {
    assert (w - addr / 4) % 0x4000_0000 < |data| <==> w in Touched(bursts);
    if w in Touched(bursts) { var _ := TouchedFrom(bursts, w); }
    forall i | 0 <= i < |bursts| && w in bursts[i].words ensures w in Touched(bursts) { TouchedIn(bursts, i, w); }
    forall i, j | 0 <= i < j < |bursts| && w in bursts[i].words ensures w !in bursts[j].words {
      if w in bursts[j].words { TouchedTwice(bursts, i, j, w); }
    }
    forall i, v | 0 <= i < |bursts| && v in bursts[i].words && w in bursts[i].words ensures v / 32 == w / 32 {
      assert bursts[i] in bursts;
    }
  }

  /** Words outside the range keep their contents; without a fault those inside hold the data; and a fault is raised
      exactly when some word of the range is protected or is asked to set a cleared bit, or the hardware failed. */
  lemma ProgressInWords(protected: set<nat>, mem: Memory, addr: Word, data: seq<Word>, mem': Memory,
                        bursts: seq<Burst>)
    requires Progress(protected, mem, addr, data, mem', bursts) && addr % 4 == 0 && |data| <= 0x4000_0000
    ensures forall w :: 0 <= w < 0x4000_0000 && (w - addr / 4) % 0x4000_0000 >= |data| ==> mem'[w] == mem[w]
    ensures AnyFault(bursts) <==> exists i :: 0 <= i < |bursts| && bursts[i].faults != {}
    ensures !AnyFault(bursts) ==> forall w :: 0 <= w < 0x4000_0000 && (w - addr / 4) % 0x4000_0000 < |data| ==>
              mem'[w] == data[(w - addr / 4) % 0x4000_0000]
    ensures AnyFault(bursts) <==>
              || (exists i :: 0 <= i < |bursts| && (Volt in bursts[i].faults || ProgVerify in bursts[i].faults))
              || (exists w :: 0 <= w < 0x4000_0000 && (w - addr / 4) % 0x4000_0000 < |data|
                    && (w / 32 in protected || And(mem[w], data[(w - addr / 4) % 0x4000_0000])
                                               != data[(w - addr / 4) % 0x4000_0000]))
  {
    forall w | 0 <= w < 0x4000_0000 && (w - addr / 4) % 0x4000_0000 < |data|
      ensures !AnyFault(bursts) ==> mem'[w] == data[(w - addr / 4) % 0x4000_0000]
    {
      OverwriteAt(mem, addr, data, w);
    }
    GlitchAt(bursts);
    ClearInWords(protected, mem, addr, data);
    assert forall b :: b in bursts ==> exists i :: 0 <= i < |bursts| && bursts[i] == b;
  }

  lemma ClearInWords(protected: set<nat>, mem: Memory, addr: Word, data: seq<Word>)
    ensures !Clear(protected, mem, addr, data) <==>
              exists w :: 0 <= w < 0x4000_0000 && (w - addr / 4) % 0x4000_0000 < |data|
                && (w / 32 in protected || And(mem[w], data[(w - addr / 4) % 0x4000_0000])
                                           != data[(w - addr / 4) % 0x4000_0000])
  {
    if !Clear(protected, mem, addr, data) {
      var w :| 0 <= w < WORDS && Offset(addr, w) < |data|
               && (Locked(protected, w) || !Programmable(mem[w], data[Offset(addr, w)]));
      assert mem[w] == mem[w];
    }
    forall w | 0 <= w < 0x4000_0000 && (w - addr / 4) % 0x4000_0000 < |data|
               && (w / 32 in protected || And(mem[w], data[(w - addr / 4) % 0x4000_0000])
                                          != data[(w - addr / 4) % 0x4000_0000])
      ensures !Clear(protected, mem, addr, data)
    {
      assert Offset(addr, w) < |data|;
      assert Locked(protected, w) || !Programmable(mem[w], data[Offset(addr, w)]);
    }
  }

  lemma GlitchAt(bursts: seq<Burst>)
    ensures Glitch(bursts) <==>
              exists i :: 0 <= i < |bursts| && (Volt in bursts[i].faults || ProgVerify in bursts[i].faults)
  {
    if Glitch(bursts) {
      var b :| b in bursts && b.faults * {Volt, ProgVerify} != {};
      var i :| 0 <= i < |bursts| && bursts[i] == b;
      var f :| f in b.faults * {Volt, ProgVerify};
      assert f in bursts[i].faults;
    }
    forall i | 0 <= i < |bursts| && (Volt in bursts[i].faults || ProgVerify in bursts[i].faults)
      ensures Glitch(bursts)
    {
      var b := bursts[i];
      assert b in bursts;
      assert Volt in b.faults * {Volt, ProgVerify} || ProgVerify in b.faults * {Volt, ProgVerify};
    }
  }

  lemma NothingYet(protected: set<nat>, mem: Memory, addr: Word)
    ensures Progress(protected, mem, addr, [], mem, [])
  {
    assert Target(addr, 0) == {};
  }

  lemma OneMore(bursts: seq<Burst>, b: Burst)
    ensures Touched(bursts + [b]) == Touched(bursts) + multiset(b.words)
    ensures AnyFault(bursts + [b]) <==> AnyFault(bursts) || b.faults != {}
    ensures Glitch(bursts + [b]) <==> Glitch(bursts) || b.faults * {Volt, ProgVerify} != {}
  {
    var more := bursts + [b];
    assert more[..|bursts|] == bursts;
    assert b in more;
    assert forall c :: c in bursts ==> c in more;
  }

  lemma ChunkWords(addr: Word, data: seq<Word>, buffer: seq<Word>, valid: set<nat>)
    requires Chunk(addr, data, buffer, valid)
    ensures BlockWords(addr / 128, valid) == Target(addr, |data|)
  {
    forall w | 0 <= w < WORDS
      ensures InBlock(w, addr / 128, valid) <==> Offset(addr, w) < |data|
    {
      ChunkAt(addr, data, buffer, valid, w);
    }
  }

  /** A chunk burns without fault exactly when its words are clear and the hardware does not fail. */
  lemma ChunkFaults(protected: set<nat>, mem: Memory, addr: Word, data: seq<Word>, buffer: seq<Word>,
                    valid: set<nat>, mem': Memory, faults: set<Fault>)
    requires Chunk(addr, data, buffer, valid) && data != []
    requires Burned(protected, mem, addr / 128, buffer, valid, mem', faults)
    ensures faults != {} <==> !Clear(protected, mem, addr, data) || faults * {Volt, ProgVerify} != {}
  {
    forall w | 0 <= w < WORDS
      ensures InBlock(w, addr / 128, valid) <==> Offset(addr, w) < |data|
      ensures Offset(addr, w) < |data| ==> buffer[w % 32] == data[Offset(addr, w)]
    {
      ChunkAt(addr, data, buffer, valid, w);
    }
    if Access in faults {
      var w := addr / 4;
      assert Offset(addr, w) == 0 && Locked(protected, w);
    }
    if faults == {} {
      assert Access !in faults && InvalidData !in faults;
    } else if Access !in faults && InvalidData !in faults {
      var f :| f in faults;
      assert f in faults * {Volt, ProgVerify};
    }
  }

  lemma ClearSplit(protected: set<nat>, mem: Memory, addr: Word, a: seq<Word>, b: seq<Word>)
    requires addr % 4 == 0 && |a| + |b| <= WORDS
    ensures Clear(protected, mem, addr, a + b) <==>
              Clear(protected, mem, addr, a) && Clear(protected, mem, After(addr, |a|), b)
  {
    forall w | 0 <= w < WORDS
      ensures Offset(After(addr, |a|), w) < |b| <==> |a| <= Offset(addr, w) < |a| + |b|
      ensures Offset(After(addr, |a|), w) < |b| ==> Offset(addr, w) == |a| + Offset(After(addr, |a|), w)
    {
      OffsetAfter(addr, |a|, w);
      Shifted(|a|, |b|, Offset(After(addr, |a|), w));
    }
    if Clear(protected, mem, addr, a + b) {
      forall w | 0 <= w < WORDS && Offset(addr, w) < |a|
        ensures !Locked(protected, w) && Programmable(mem[w], a[Offset(addr, w)])
      {
        assert (a + b)[Offset(addr, w)] == a[Offset(addr, w)];
      }
      forall w | 0 <= w < WORDS && Offset(After(addr, |a|), w) < |b|
        ensures !Locked(protected, w) && Programmable(mem[w], b[Offset(After(addr, |a|), w)])
      {
        assert (a + b)[Offset(addr, w)] == b[Offset(After(addr, |a|), w)];
      }
    }
    if Clear(protected, mem, addr, a) && Clear(protected, mem, After(addr, |a|), b) {
      forall w | 0 <= w < WORDS && Offset(addr, w) < |a + b|
        ensures !Locked(protected, w) && Programmable(mem[w], (a + b)[Offset(addr, w)])
      {
        if Offset(addr, w) >= |a| {
          assert Offset(After(addr, |a|), w) < |b|;
        }
      }
    }
  }

  lemma ClearUnchanged(protected: set<nat>, mem: Memory, mem': Memory, addr: Word, data: seq<Word>)
    requires forall w :: 0 <= w < WORDS && w in Target(addr, |data|) ==> mem'[w] == mem[w]
    ensures Clear(protected, mem', addr, data) <==> Clear(protected, mem, addr, data)
  {
    assert forall w :: 0 <= w < WORDS && Offset(addr, w) < |data| ==> w in Target(addr, |data|);
  }

  /** One more chunk, burned. */
  lemma ProgressStep(protected: set<nat>, mem: Memory, addr: Word, done: seq<Word>, chunk: seq<Word>,
                     mem1: Memory, bursts: seq<Burst>, buffer: seq<Word>, valid: set<nat>,
                     mem2: Memory, faults: set<Fault>)
    requires addr % 4 == 0 && |done| + |chunk| <= WORDS && chunk != []
    requires Progress(protected, mem, addr, done, mem1, bursts)
    requires Chunk(After(addr, |done|), chunk, buffer, valid)
    requires Burned(protected, mem1, After(addr, |done|) / 128, buffer, valid, mem2, faults)
    ensures Progress(protected, mem, addr, done + chunk, mem2,
                     bursts + [Burst(BlockWords(After(addr, |done|) / 128, valid), faults)])
  {
    var next := After(addr, |done|);
    var burst := Burst(BlockWords(next / 128, valid), faults);
    OneMore(bursts, burst);
    ChunkWords(next, chunk, buffer, valid);
    TargetSplit(addr, |done|, |chunk|);
    BurnIsOverwrite(protected, mem1, next, chunk, buffer, valid, mem2, faults);
    OverwriteAppend(mem, addr, done, chunk);
    ChunkFaults(protected, mem1, next, chunk, buffer, valid, mem2, faults);
    ClearSplit(protected, mem, addr, done, chunk);
    ClearUnchanged(protected, mem, mem1, next, chunk);
    assert Target(addr, |done + chunk|) == Target(addr, |done|) + Target(next, |chunk|);
  }
}
