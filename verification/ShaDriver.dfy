/** The driver functions of driverlib/shamd5.c over the hash engine. */
module ShaDriver {
  import opened Bits
  import opened HashSpec
  import opened Sha

  class ShaEngine {
    const algs: seq<Alg>
    /** Whether the operation bits of the mode clear themselves, as inc/hw_shamd5.h says. */
    const clears: bool
    var ctx: Context
    var length: nat
    /** Words received since LENGTH was written, in the order of writing. */
    var fifo: seq<Write>
    /** Bytes the data registers can take before the next input-ready. */
    var room: nat
    /** How many words had been received at each input-ready check since LENGTH was written. */
    ghost var checks: seq<nat>
    /** An operation is under way. */
    var running: bool
    /** How many more polls will find the awaited status bit clear. */
    var wait: nat

    ghost predicate Valid() reads this {
      GoodAlgs(algs) && ctx.Valid()
    }

    function Alg(): Alg
      requires Valid()
      reads this
    {
      algs[ctx.mode.algo]
    }

    constructor (algs: seq<Alg>, clears: bool, ctx: Context)
      requires GoodAlgs(algs) && ctx.Valid()
      ensures Valid() && this.algs == algs && this.clears == clears && this.ctx == ctx
    {
      this.algs, this.clears, this.ctx := algs, clears, ctx;
      length, fifo, room, running, wait, checks := 0, [], 0, false, 0, [];
    }

    // ----- register accesses

    /** Writing LENGTH starts an operation. */
    method WriteLength(n: nat)
      modifies `length, `fifo, `room, `running, `wait, `checks
      ensures length == n && fifo == [] && running && checks == []
    {
      length, fifo, room, running, checks := n, [], 0, true, [];
      var polls: nat :| true;
      wait := polls;
    }

    method WriteData(slot: nat, word: Word)
      requires slot < 16 && room >= 4
      modifies `fifo, `room, `wait
      ensures fifo == old(fifo) + [Write(slot, word)] && room == old(room) - 4
    {
      fifo, room := fifo + [Write(slot, word)], room - 4;
      var polls: nat :| true;
      wait := polls;
    }

    method WriteContext(index: nat, word: Word)
      requires Valid() && index < 16
      modifies `ctx
      ensures Valid() && ctx == old(ctx).(regs := old(ctx).regs[index := word])
    {
      ctx := ctx.(regs := ctx.regs[index := word]);
    }

    /** One poll of a status bit that will come up. */
    method Poll() returns (ready: bool)
      modifies `wait
      ensures ready <==> old(wait) == 0
      ensures !ready ==> wait < old(wait)
    {
      ready := wait == 0;
      if !ready { wait := wait - 1; }
    }

    method Await()
      modifies `wait
    {
      var ready := Poll();
      while !ready
        decreases if ready then 0 else 1 + wait
      {
        ready := Poll();
      }
    }

    /** The data registers have room for a block. */
    method WaitInputReady()
      modifies `wait, `room, `checks
      ensures room == 64 && checks == old(checks) + [|fifo|]
    {
      Await();
      room, checks := 64, checks + [|fifo|];
    }

    /** The output comes up once the announced number of bytes has arrived. */
    method WaitOutputReady()
      requires Valid() && running && 4 * |fifo| >= length
      modifies `wait, `ctx, `running
      ensures Valid() && !running
      ensures ctx == Finish(old(Alg()), clears, old(ctx), Received())
    {
      Await();
      ctx := Finish(Alg(), clears, ctx, Received());
      running := false;
    }

    /** The bytes of the operation's data, in order of arrival. */
    function Received(): seq<Byte>
      requires 4 * |fifo| >= length
      reads this
    {
      Bytes(WordsIn(fifo))[..length]
    }

    // ----- streaming

    /** Sixteen words to the sixteen data registers, after one input-ready check. */
    method SHAMD5DataWrite(src: seq<Byte>)
      requires |src| >= 64
      modifies `fifo, `room, `wait, `checks
      ensures fifo == old(fifo) + Log(src[..64]) && checks == old(checks) + [|old(fifo)|]
    {
      WaitInputReady();
      WriteWords(src[..64]);
      assert Log(src[..64])[..16] == Log(src[..64]);
    }

    /** The loop that writes the whole words of up to a block to the data registers in turn. */
    method WriteWords(src: seq<Byte>)
      requires |src| <= 64 && room == 64
      modifies `fifo, `room, `wait
      ensures room == 64 - 4 * (|src| / 4) && fifo == old(fifo) + Log(src)[..|src| / 4]
    {
      var idx, pos := 0, 0;
      ghost var before, log := fifo, Log(src);
      while idx < |src| / 4
        invariant idx <= |src| / 4 && pos == 4 * idx && room == 64 - pos
        invariant fifo == before + log[..idx]
      {
        LogWord(src, idx, pos);
        WriteData(idx, WordAt(src[pos..pos + 4]));
        idx, pos := idx + 1, pos + 4;
      }
    }

    /** The data goes out as its little-endian words in order, the last one completed with zeros; input-ready is
        checked before each block and before the rest; no byte beyond the data is read. */
    method SHAMD5DataWriteMultiple(src: seq<Byte>)
      modifies `fifo, `room, `wait, `checks
      ensures fifo == old(fifo) + Log(src)
      ensures |fifo| == |old(fifo)| + (|src| + 3) / 4
      ensures forall m :: |old(fifo)| <= m < |fifo| ==>
                var n := m - |old(fifo)|;
                && fifo[m].word == src[4 * n] as nat + (if 4 * n + 1 < |src| then 256 * src[4 * n + 1] as nat else 0)
                                   + (if 4 * n + 2 < |src| then 0x1_0000 * src[4 * n + 2] as nat else 0)
                                   + (if 4 * n + 3 < |src| then 0x100_0000 * src[4 * n + 3] as nat else 0)
                && fifo[m].slot == if 4 * n + 4 <= |src| || n % 16 == 0 then n % 16 else n % 16 - 1
      ensures |checks| == |old(checks)| + (|src| + 63) / 64 && checks[..|old(checks)|] == old(checks)
      ensures forall c :: |old(checks)| <= c < |checks| ==> checks[c] == |old(fifo)| + 16 * (c - |old(checks)|)
    {
      StreamOut(src);
      LogWords(src, old(fifo), fifo);
    }

    /** Its loop over the blocks, and the rest. */
    method StreamOut(src: seq<Byte>)
      modifies `fifo, `room, `wait, `checks
      ensures fifo == old(fifo) + Log(src)
      ensures checks == old(checks) + EverySixteen(|old(fifo)|, (|src| + 63) / 64)
    {
      var rest := src;
      for idx := 0 to |src| / 64
        invariant |rest| == |src| - 64 * idx && |fifo| == |old(fifo)| + 16 * idx
        invariant fifo + Log(rest) == old(fifo) + Log(src)
        invariant checks == old(checks) + EverySixteen(|old(fifo)|, idx)
      {
        assert rest == rest[..64] + rest[64..];
        LogBlock(rest[..64], rest[64..]);
        SHAMD5DataWrite(rest);
        rest := rest[64..];
      }
      if |src| % 64 != 0 {
        WaitInputReady();
        WriteRest(rest);
      }
    }

    /** The whole words of the rest, and its last one to three bytes in a zeroed word. */
    method WriteRest(rest: seq<Byte>)
      requires |rest| < 64 && room == 64
      modifies `fifo, `room, `wait
      ensures fifo == old(fifo) + Log(rest)
    {
      WriteWords(rest);
      var idx := |rest| / 4;
      if |rest| % 4 != 0 {
        LastLog(rest, idx);
        var temp := CopyBytes(rest[4 * idx..]);
        WriteData(if idx != 0 then idx - 1 else 0, WordAt(temp));
        assert Log(rest)[..idx] + Log(rest)[idx..] == Log(rest);
      } else {
        assert Log(rest)[..idx] == Log(rest);
      }
    }

    // ----- configuration, keys, results

    method SHAMD5ConfigSet(mode: Mode)
      requires Valid() && mode.algo < 4
      modifies `ctx
      ensures Valid() && ctx == old(ctx).(mode := mode)
    {
      ctx := ctx.(mode := mode);
    }

    /** The loop with which a 64-byte key goes into the context registers. */
    method WriteKey(key: array<Byte>)
      requires Valid() && key.Length == 64
      modifies `ctx
      ensures Valid() && ctx == old(ctx).(regs := Words(key[..]))
    {
      var index, k := 0, 0;
      ghost var words, before := Words(key[..]), ctx;
      while index < 64
        invariant index == 4 * k && k <= 16 && Valid()
        invariant ctx == before.(regs := ctx.regs) && ctx.regs[..k] == words[..k]
      {
        WriteKeyWord(key, k, words);
        index, k := index + 4, k + 1;
      }
      assert ctx.regs == ctx.regs[..16] && words[..16] == words;
    }

    method WriteKeyWord(key: array<Byte>, k: nat, ghost words: seq<Word>)
      requires Valid() && key.Length == 64 && k < 16 && words == Words(key[..]) && ctx.regs[..k] == words[..k]
      modifies `ctx
      ensures Valid() && ctx == old(ctx).(regs := ctx.regs) && ctx.regs[..k + 1] == words[..k + 1]
    {
      var piece := key[..][4 * k..4 * k + 4];
      WordsAt(key[..], k);
      assert words[k] == WordAt(piece);
      WriteContext(k, WordAt(piece));
      TakeOneMore(ctx.regs, words, k);
    }

    method SHAMD5HMACKeySet(key: array<Byte>)
      requires Valid() && key.Length == 64
      modifies `ctx
      ensures Valid() && ctx == Context(Words(key[..]), old(ctx).count,
                Mode(old(ctx).mode.algo, old(ctx).mode.flags + {HmacOuterHash, HmacKeyProc, CloseHash}))
    {
      WriteKey(key);
      ctx := ctx.(mode := ctx.mode.(flags := ctx.mode.flags + {HmacOuterHash, HmacKeyProc, CloseHash}));
    }

    method SHAMD5HMACPPKeySet(key: array<Byte>)
      requires Valid() && key.Length == 64
      modifies `ctx
      ensures Valid() && ctx == Context(Words(key[..]), 64,
                Mode(old(ctx).mode.algo, old(ctx).mode.flags + {HmacOuterHash, CloseHash}))
    {
      WriteKey(key);
      ctx := ctx.(mode := ctx.mode.(flags := ctx.mode.flags + {HmacOuterHash, CloseHash}));
      ctx := ctx.(count := 64);
    }

    method SHAMD5ResultRead(dest: array<Byte>)
      requires Valid() && Size(ctx.mode.algo) <= dest.Length
      modifies dest
      ensures dest[..] == Result(Alg(), ctx) + old(dest[..])[Size(ctx.mode.algo)..]
      ensures var size := [16, 20, 28, 32][ctx.mode.algo];
              && size <= dest.Length && dest[..][size..] == old(dest[..])[size..]
              && forall j :: 0 <= j < size ==>
                   var w := ctx.regs[8 + j / 4];
                   dest[..][j] == [w % 256, w / 0x100 % 256, w / 0x1_0000 % 256, w / 0x100_0000][j % 4]
    {
      var count := match ctx.mode.algo case 0 => 16 case 1 => 20 case 2 => 28 case _ => 32;
      StoreWords(dest, ctx.regs[8..][..count / 4]);
      BytesPrefix(ctx.regs[8..], count / 4);
      forall j | 0 <= j < count
        ensures var w := ctx.regs[8 + j / 4];
                dest[..][j] == [w % 256, w / 0x100 % 256, w / 0x1_0000 % 256, w / 0x100_0000][j % 4]
      {
        ByteAt(ctx.regs[8..], j);
      }
    }

    // ----- whole operations

    /** The common body of SHAMD5DataProcess and SHAMD5HMACProcess. */
    method Process(src: array<Byte>, dataLength: nat, dest: array<Byte>) returns (ok: bool)
      requires Valid() && dataLength <= src.Length && Size(ctx.mode.algo) <= dest.Length
      modifies this, dest
      ensures ok && Valid()
      ensures ctx == Finish(old(Alg()), clears, old(ctx), old(src[..dataLength]))
      ensures dest[..] == Result(old(Alg()), ctx) + old(dest[..])[Size(old(ctx.mode.algo))..]
    {
      Send(src, dataLength);
      WaitOutputReady();
      SHAMD5ResultRead(dest);
      return true;
    }

    /** Its part before the wait for the output: the engine receives the data, all of it and no more. */
    method Send(src: array<Byte>, dataLength: nat)
      requires dataLength <= src.Length
      modifies `length, `fifo, `room, `running, `wait, `checks
      ensures running && 4 * |fifo| >= length && Received() == src[..dataLength]
    {
      Await();
      WriteLength(dataLength);
      SHAMD5DataWriteMultiple(src[..dataLength]);
      ghost var data := src[..dataLength];
      assert fifo == Log(data);
      LogIsWords(data);
      BytesOfWords(data);
    }

    method SHAMD5DataProcess(src: array<Byte>, dataLength: nat, dest: array<Byte>) returns (ok: bool)
      requires Valid() && dataLength <= src.Length && Size(ctx.mode.algo) <= dest.Length
      modifies this, dest
      ensures ok && Valid()
      ensures ctx == Finish(old(Alg()), clears, old(ctx), old(src[..dataLength]))
      ensures dest[..] == Result(old(Alg()), ctx) + old(dest[..])[Size(old(ctx.mode.algo))..]
      ensures old(ctx.mode.flags) == {AlgoConstant, CloseHash} ==>
                dest[..] == Hash(old(Alg()), old(src[..dataLength])) + old(dest[..])[Size(old(ctx.mode.algo))..]
    {
      ghost var c := ctx;
      ok := Process(src, dataLength, dest);
      if c.mode.flags == {AlgoConstant, CloseHash} {
        ConstantsGiveHash(old(Alg()), clears, c, old(src[..dataLength]));
      }
    }

    method SHAMD5HMACProcess(src: array<Byte>, dataLength: nat, dest: array<Byte>) returns (ok: bool)
      requires Valid() && dataLength <= src.Length && Size(ctx.mode.algo) <= dest.Length
      modifies this, dest
      ensures ok && Valid()
      ensures ctx == Finish(old(Alg()), clears, old(ctx), old(src[..dataLength]))
      ensures dest[..] == Result(old(Alg()), ctx) + old(dest[..])[Size(old(ctx.mode.algo))..]
    {
      ok := Process(src, dataLength, dest);
    }

    /** Processes a key on its own; the result is the two chains that HMAC derives from the key. */
    method SHAMD5HMACPPKeyGenerate(key: array<Byte>, ppKey: array<Byte>)
      requires Valid() && key.Length == 64 && ppKey.Length == 64
      modifies this, ppKey
      ensures Valid() && ppKey[..] == Bytes(ctx.regs)
      ensures ctx == Finish(old(Alg()), clears,
                            Context(Words(old(key[..])), old(ctx.count),
                                    Mode(old(ctx.mode.algo), old(ctx.mode.flags) + {HmacKeyProc})), [])
      ensures old(ctx.mode.flags) !! {CloseHash, HmacOuterHash} ==>
                ppKey[..] == Bytes(KeyChains(old(Alg()), old(key[..])))
      ensures ctx.mode == Mode(old(ctx.mode.algo), if clears then {} else old(ctx.mode.flags) + {HmacKeyProc})
    {
      Await();
      WriteKey(key);
      ctx := ctx.(mode := ctx.mode.(flags := ctx.mode.flags + {HmacKeyProc}));
      if ctx.mode.flags !! {CloseHash, HmacOuterHash} {
        KeyProcessing(Alg(), clears, ctx, key[..]);
      }
      WriteLength(0);
      assert Received() == [];
      WaitOutputReady();
      StoreWords(ppKey, ctx.regs);
    }
  }

  /** Stores word k after the k words before it. */
  method StoreWord(dest: array<Byte>, words: seq<Word>, k: nat, ghost rest: seq<Byte>)
    requires k < |words| && 4 * |words| <= |rest| == dest.Length && dest[..] == Stored(words, k, rest)
    modifies dest
    ensures dest[..] == Stored(words, k + 1, rest)
  {
    var at, b := 4 * k, BytesOf(words[k]);
    ghost var before := dest[..];
    dest[at], dest[at + 1], dest[at + 2], dest[at + 3] := b[0], b[1], b[2], b[3];
    assert dest[..] == before[..at] + b + before[at + 4..];
    StoreStep(words, k, rest);
  }

  /** The loop that stores register words to memory, four bytes each. */
  method StoreWords(dest: array<Byte>, words: seq<Word>)
    requires 4 * |words| <= dest.Length
    modifies dest
    ensures dest[..] == Bytes(words) + old(dest[..])[4 * |words|..]
  {
    ghost var rest := dest[..];
    StoredEnds(words, rest);
    for k := 0 to |words|
      invariant dest[..] == Stored(words, k, rest)
    {
      StoreWord(dest, words, k, rest);
    }
  }

  method CopyBytes(src: seq<Byte>) returns (temp: seq<Byte>)
    ensures temp == src
  {
    temp := [];
    for i := 0 to |src|
      invariant temp == src[..i]
    {
      temp := temp + [src[i]];
    }
  }

  /** HMAC from the raw key. */
  method HmacFromKey(e: ShaEngine, algo: nat, key: array<Byte>, src: array<Byte>, dataLength: nat, out: array<Byte>)
    requires e.Valid() && algo < 4 && key.Length == 64 && dataLength <= src.Length && out.Length == Size(algo)
    modifies e, out
    ensures e.Valid() && out[..] == old(Hmac(e.algs[algo], key[..], src[..dataLength]))
  {
    e.SHAMD5ConfigSet(Mode(algo, {}));
    e.SHAMD5HMACKeySet(key);
    RawKeyIsHmac(e.Alg(), e.clears, e.ctx, key[..], src[..dataLength]);
    var _ := e.SHAMD5HMACProcess(src, dataLength, out);
  }

  /** HMAC from the key processed beforehand, the engine configured again in between. */
  method HmacFromPPKey(e: ShaEngine, algo: nat, key: array<Byte>, src: array<Byte>, dataLength: nat, out: array<Byte>)
    requires e.Valid() && algo < 4 && key.Length == 64 && dataLength <= src.Length && out.Length == Size(algo)
    modifies e, out
    ensures e.Valid() && out[..] == old(Hmac(e.algs[algo], key[..], src[..dataLength]))
  {
    var ppKey := new Byte[64];
    e.SHAMD5ConfigSet(Mode(algo, {}));
    e.SHAMD5HMACPPKeyGenerate(key, ppKey);
    e.SHAMD5ConfigSet(Mode(algo, {}));
    e.SHAMD5HMACPPKeySet(ppKey);
    WordsOfBytes(KeyChains(e.Alg(), key[..]));
    PreprocessedKeyIsHmac(e.Alg(), e.clears, e.ctx, key[..], src[..dataLength]);
    var _ := e.SHAMD5HMACProcess(src, dataLength, out);
  }

  /** Both give what RFC 2104 defines, whether or not the mode's bits clear themselves. */
  method HmacBothWays(e: ShaEngine, algo: nat, key: array<Byte>, src: array<Byte>, dataLength: nat,
                      raw: array<Byte>, pre: array<Byte>)
    requires e.Valid() && algo < 4 && key.Length == 64 && dataLength <= src.Length
    requires raw.Length == pre.Length == Size(algo)
    requires raw != pre && raw != key && raw != src
    modifies e, raw, pre
    ensures raw[..] == pre[..] == old(Hmac(e.algs[algo], key[..], src[..dataLength]))
  {
    HmacFromKey(e, algo, key, src, dataLength, raw);
    HmacFromPPKey(e, algo, key, src, dataLength, pre);
  }

  /** Without the configuration step in between, the result is right if the mode's bits clear themselves; if they do
      not, the leftover key-processing bit makes the engine take the processed key for a raw one. */
  method HmacWithoutReconfiguring(e: ShaEngine, algo: nat, key: array<Byte>, src: array<Byte>, dataLength: nat,
                                  out: array<Byte>)
    requires e.Valid() && algo < 4 && key.Length == 64 && dataLength <= src.Length
    requires out.Length == Size(algo) && out != key && out != src
    modifies e, out
    ensures out[..] == Hmac(e.algs[algo],
                            if e.clears then key[..] else Bytes(KeyChains(e.algs[algo], key[..])), src[..dataLength])
  {
    var ppKey := new Byte[64];
    e.SHAMD5ConfigSet(Mode(algo, {}));
    e.SHAMD5HMACPPKeyGenerate(key, ppKey);
    e.SHAMD5HMACPPKeySet(ppKey);
    if e.clears {
      WordsOfBytes(KeyChains(e.Alg(), key[..]));
      PreprocessedKeyIsHmac(e.Alg(), e.clears, e.ctx, key[..], src[..dataLength]);
    } else {
      RawKeyIsHmac(e.Alg(), e.clears, e.ctx, ppKey[..], src[..dataLength]);
    }
    var _ := e.SHAMD5HMACProcess(src, dataLength, out);
  }

  /** The word counts at which blocks start. */
  function EverySixteen(base: nat, n: nat): seq<nat> {
    seq(n, i requires 0 <= i < n => base + 16 * i)
  }

  /** The writes that stream out `data`: one per word; the word completed with zeros, when it follows others of an
      incomplete block, goes to the register of the word before it. */
  function Log(data: seq<Byte>): (log: seq<Write>)
    ensures |log| == (|data| + 3) / 4
  {
    seq((|data| + 3) / 4, i requires 0 <= i < (|data| + 3) / 4 => Write(Slot(|data|, i), Words(data)[i]))
  }

  function Slot(length: nat, i: nat): nat {
    if 4 * i + 4 <= length || i % 16 == 0 then i % 16 else i % 16 - 1
  }

  /** The up to four bytes that form word i. */
  function Piece(data: seq<Byte>, i: nat): seq<Byte>
    requires 4 * i < |data|
  {
    data[4 * i..if 4 * i + 4 <= |data| then 4 * i + 4 else |data|]
  }

  /** Word by word: the little-endian value of its bytes, the missing ones zero, and the register it goes to. */
  lemma LogWords(data: seq<Byte>, before: seq<Write>, after: seq<Write>)
    requires after == before + Log(data)
    ensures |after| == |before| + (|data| + 3) / 4
    ensures forall m :: |before| <= m < |after| ==>
              var n := m - |before|;
              && after[m].word == data[4 * n] as nat + (if 4 * n + 1 < |data| then 256 * data[4 * n + 1] as nat else 0)
                                  + (if 4 * n + 2 < |data| then 0x1_0000 * data[4 * n + 2] as nat else 0)
                                  + (if 4 * n + 3 < |data| then 0x100_0000 * data[4 * n + 3] as nat else 0)
              && after[m].slot == if 4 * n + 4 <= |data| || n % 16 == 0 then n % 16 else n % 16 - 1
  {
    forall m | |before| <= m < |after|
      ensures var n := m - |before|;
              && after[m].word == data[4 * n] as nat + (if 4 * n + 1 < |data| then 256 * data[4 * n + 1] as nat else 0)
                                  + (if 4 * n + 2 < |data| then 0x1_0000 * data[4 * n + 2] as nat else 0)
                                  + (if 4 * n + 3 < |data| then 0x100_0000 * data[4 * n + 3] as nat else 0)
              && after[m].slot == if 4 * n + 4 <= |data| || n % 16 == 0 then n % 16 else n % 16 - 1
    {
      LogWordAt(data, m - |before|);
    }
  }

  lemma LogWordAt(data: seq<Byte>, n: nat)
    requires 4 * n < |data|
    ensures n < |Log(data)|
    ensures Log(data)[n].word == data[4 * n] as nat + (if 4 * n + 1 < |data| then 256 * data[4 * n + 1] as nat else 0)
                                 + (if 4 * n + 2 < |data| then 0x1_0000 * data[4 * n + 2] as nat else 0)
                                 + (if 4 * n + 3 < |data| then 0x100_0000 * data[4 * n + 3] as nat else 0)
    ensures Log(data)[n].slot == if 4 * n + 4 <= |data| || n % 16 == 0 then n % 16 else n % 16 - 1
  {
    WordsAt(data, n);
    var piece := Piece(data, n);
    assert forall k :: 0 <= k < |piece| ==> piece[k] == data[4 * n + k];
  }

  lemma {:induction false} WordsAt(data: seq<Byte>, i: nat)
    requires 4 * i < |data|
    ensures Words(data)[i] == WordAt(Piece(data, i))
  {
    if i > 0 {
      WordsAt(data[4..], i - 1);
      PieceShift(data, i);
    }
  }

  lemma PieceShift(data: seq<Byte>, i: nat)
    requires 0 < i && 4 * i < |data|
    ensures Piece(data[4..], i - 1) == Piece(data, i)
  {
    var a, b := Piece(data[4..], i - 1), Piece(data, i);
    assert |a| == |b|;
    assert forall k :: 0 <= k < |b| ==> a[k] == data[4..][4 * (i - 1) + k] == data[4 * i + k] == b[k];
  }

  lemma LogAt(data: seq<Byte>, i: nat)
    requires 4 * i < |data|
    ensures Log(data)[..i + 1] == Log(data)[..i] + [Write(Slot(|data|, i), WordAt(Piece(data, i)))]
  {
    WordsAt(data, i);
  }

  lemma TakeOneMore(a: seq<Word>, b: seq<Word>, k: nat)
    requires k < |a| == |b| && a[..k] == b[..k] && a[k] == b[k]
    ensures a[..k + 1] == b[..k + 1]
  {
    assert a[..k + 1] == a[..k] + [a[k]] && b[..k + 1] == b[..k] + [b[k]];
  }

  /** A whole word of up to a block goes to the data register of its place. */
  lemma LogWord(data: seq<Byte>, i: nat, pos: nat)
    requires pos == 4 * i && pos + 4 <= |data| <= 64
    ensures i < |Log(data)| && Log(data)[..i + 1] == Log(data)[..i] + [Write(i, WordAt(data[pos..pos + 4]))]
  {
    LogAt(data, i);
    assert Piece(data, i) == data[pos..pos + 4];
    WholeSlot(|data|, i);
  }

  lemma WholeSlot(n: nat, i: nat)
    requires 4 * i + 4 <= n <= 64
    ensures Slot(n, i) == i
  {
  }

  lemma {:induction false} BytesPrefix(words: seq<Word>, n: nat)
    requires n <= |words|
    ensures Bytes(words)[..4 * n] == Bytes(words[..n])
  {
    assert words == words[..n] + words[n..];
    BytesConcat(words[..n], words[n..]);
  }

  /** Memory whose first k words have been overwritten. */
  function Stored(words: seq<Word>, k: nat, rest: seq<Byte>): seq<Byte>
    requires k <= |words| && 4 * k <= |rest|
  {
    Bytes(words[..k]) + rest[4 * k..]
  }

  lemma StoredEnds(words: seq<Word>, rest: seq<Byte>)
    requires 4 * |words| <= |rest|
    ensures Stored(words, 0, rest) == rest
    ensures Stored(words, |words|, rest) == Bytes(words) + rest[4 * |words|..]
  {
    assert words[..|words|] == words;
  }

  lemma StoreStep(words: seq<Word>, k: nat, rest: seq<Byte>)
    requires k < |words| && 4 * k + 4 <= |rest|
    ensures var before := Stored(words, k, rest);
            before[..4 * k] + BytesOf(words[k]) + before[4 * k + 4..] == Stored(words, k + 1, rest)
  {
    assert words[..k + 1] == words[..k] + [words[k]];
    BytesConcat(words[..k], [words[k]]);
    assert Bytes([words[k]]) == BytesOf(words[k]);
  }

  lemma LastLog(rest: seq<Byte>, idx: nat)
    requires 4 * idx < |rest| < 4 * idx + 4 && |rest| < 64
    ensures Log(rest)[idx..] == [Write(if idx != 0 then idx - 1 else 0, WordAt(rest[4 * idx..]))]
  {
    WordsAt(rest, idx);
    LastSlot(|rest|, idx);
    assert |Log(rest)| == idx + 1;
    assert Piece(rest, idx) == rest[4 * idx..];
    assert Log(rest)[idx] == Write(if idx != 0 then idx - 1 else 0, WordAt(rest[4 * idx..]));
  }

  lemma LastSlot(n: nat, idx: nat)
    requires 4 * idx < n < 4 * idx + 4 && n < 64
    ensures Slot(n, idx) == if idx != 0 then idx - 1 else 0
  {
    assert idx % 16 == idx;
  }

  /** The writes of a block, then those of the rest. */
  lemma LogBlock(a: seq<Byte>, b: seq<Byte>)
    requires |a| == 64
    ensures Log(a + b) == Log(a) + Log(b)
  {
    WordsConcat(a, b);
    assert |Log(a + b)| == 16 + |Log(b)|;
    forall i | 0 <= i < |Log(a + b)|
      ensures Log(a + b)[i] == (Log(a) + Log(b))[i]
    {
      if i >= 16 { SlotShift(|b|, i - 16); }
    }
  }

  lemma SlotShift(n: nat, j: nat)
    ensures Slot(64 + n, 16 + j) == Slot(n, j)
  {
  }

  /** In order of arrival, the words are those of the data. */
  lemma LogIsWords(data: seq<Byte>)
    ensures WordsIn(Log(data)) == Words(data)
  {
  }

  /** Among the writes of an incomplete block, no data register is written twice exactly when the block is whole
      words or less than one word; otherwise the last word lands on the one before it, so that only the order
      of arrival tells them apart. */
  lemma TailSlotsDistinct(rest: seq<Byte>)
    requires 0 < |rest| < 64
    ensures (forall i, j :: 0 <= i < j < |Log(rest)| ==> Log(rest)[i].slot != Log(rest)[j].slot)
              <==> |rest| % 4 == 0 || |rest| < 4
  {
    var n := |rest| / 4;
    forall i | 0 <= i < |Log(rest)|
      ensures Log(rest)[i].slot == if i < n || i == 0 then i else i - 1
    {
      assert i % 16 == i;
    }
    if |rest| % 4 == 0 || |rest| < 4 {
      assert |Log(rest)| == if n == 0 then 1 else n;
    } else {
      assert Log(rest)[n].slot == Log(rest)[n - 1].slot;
    }
  }
}
