/** driverlib/shamd5.c: the hash engine's registers as inc/hw_shamd5.h describes them, and the driver
    functions that stream data through it. */
module Sha {
  import opened Bits
  import opened HashSpec

  datatype Flag = AlgoConstant | CloseHash | HmacKeyProc | HmacOuterHash
  datatype Mode = Mode(algo: nat, flags: set<Flag>)

  /** The context registers: ODIGEST_A..H and IDIGEST_A..H, the digest count, the mode. */
  datatype Context = Context(regs: seq<Word>, count: nat, mode: Mode) {
    predicate Valid() { |regs| == 16 && mode.algo < 4 }
  }

  /** A word arriving at one of the sixteen data registers. */
  datatype Write = Write(slot: nat, word: Word)

  function WordsIn(writes: seq<Write>): (w: seq<Word>)
    ensures |w| == |writes|
  {
    seq(|writes|, i requires 0 <= i < |writes| => writes[i].word)
  }

  // ----- what the engine computes

  /** The digest size ResultRead goes by: MD5, SHA-1, SHA-224, SHA-256. */
  function Size(algo: nat): nat {
    if algo == 0 then 16 else if algo == 1 then 20 else if algo == 2 then 28 else 32
  }

  ghost predicate GoodAlgs(algs: seq<Alg>) {
    |algs| == 4 && forall i :: 0 <= i < 4 ==> Good(algs[i]) && algs[i].size == Size(i)
  }

  /** The outer chain, inner chain and digest count with which a started operation takes in data:
      from the key, from the algorithm's constants, or as the registers stand. */
  function Start(alg: Alg, c: Context): (Chain, Chain, nat)
    requires c.Valid()
  {
    if HmacKeyProc in c.mode.flags then
      var key := Bytes(c.regs);
      (alg.compress(alg.iv, XorPad(key, OPAD)), alg.compress(alg.iv, XorPad(key, IPAD)), 64)
    else if AlgoConstant in c.mode.flags then (c.regs[..8], alg.iv, 0)
    else (c.regs[..8], c.regs[8..], c.count)
  }

  /** The registers when the operation is done. The mode's operation bits may or may not clear themselves. */
  function Finish(alg: Alg, clears: bool, c: Context, data: seq<Byte>): Context
    requires c.Valid()
  {
    var (outer, inner, count) := Start(alg, c);
    var total := count + |data|;
    var chain := Fold(alg, inner, if CloseHash in c.mode.flags then data + alg.tail(total) else data);
    var digest := Digest(alg, chain);
    var result := if HmacOuterHash in c.mode.flags then Fold(alg, outer, digest + alg.tail(64 + |digest|)) else chain;
    Context(outer + result, total, if clears then Mode(c.mode.algo, {}) else c.mode)
  }

  function Result(alg: Alg, c: Context): seq<Byte>
    requires c.Valid()
  {
    Digest(alg, c.regs[8..])
  }

  /** With the raw key in the registers, the engine computes HMAC. */
  lemma RawKeyIsHmac(alg: Alg, clears: bool, c: Context, key: seq<Byte>, data: seq<Byte>)
    requires c.Valid() && |key| == 64 && c.regs == Words(key)
    requires {HmacKeyProc, CloseHash, HmacOuterHash} <= c.mode.flags
    ensures Finish(alg, clears, c, data).Valid()
    ensures Result(alg, Finish(alg, clears, c, data)) == Hmac(alg, key, data)
  {
    BytesOfWords(key);
    assert Bytes(c.regs) == key;
    HmacIsFromChains(alg, key, data);
    var (outer, inner, count) := Start(alg, c);
    assert (outer + HmacFromChains(alg, outer, inner, data))[8..] == HmacFromChains(alg, outer, inner, data);
  }

  /** What an empty operation with only key processing leaves in the registers. */
  function KeyChains(alg: Alg, key: seq<Byte>): seq<Word> {
    alg.compress(alg.iv, XorPad(key, OPAD)) + alg.compress(alg.iv, XorPad(key, IPAD))
  }

  lemma KeyProcessing(alg: Alg, clears: bool, c: Context, key: seq<Byte>)
    requires c.Valid() && |key| == 64 && c.regs == Words(key)
    requires HmacKeyProc in c.mode.flags && CloseHash !in c.mode.flags && HmacOuterHash !in c.mode.flags
    ensures Finish(alg, clears, c, []).regs == KeyChains(alg, key)
  {
    BytesOfWords(key);
    assert Bytes(c.regs) == key;
  }

  /** With the preprocessed key in the registers and the count at 64, the engine computes the same HMAC. */
  lemma PreprocessedKeyIsHmac(alg: Alg, clears: bool, c: Context, key: seq<Byte>, data: seq<Byte>)
    requires c.Valid() && |key| == 64 && c.regs == KeyChains(alg, key) && c.count == 64
    requires {CloseHash, HmacOuterHash} <= c.mode.flags && c.mode.flags !! {HmacKeyProc, AlgoConstant}
    ensures Finish(alg, clears, c, data).Valid()
    ensures Result(alg, Finish(alg, clears, c, data)) == Hmac(alg, key, data)
  {
    HmacIsFromChains(alg, key, data);
    var outer, inner := alg.compress(alg.iv, XorPad(key, OPAD)), alg.compress(alg.iv, XorPad(key, IPAD));
    assert c.regs[..8] == outer && c.regs[8..] == inner;
    assert (outer + HmacFromChains(alg, outer, inner, data))[8..] == HmacFromChains(alg, outer, inner, data);
  }

  /** With the algorithm's constants and no key, the engine computes the plain hash. */
  lemma ConstantsGiveHash(alg: Alg, clears: bool, c: Context, data: seq<Byte>)
    requires c.Valid() && c.mode.flags == {AlgoConstant, CloseHash}
    ensures Finish(alg, clears, c, data).Valid()
    ensures Result(alg, Finish(alg, clears, c, data)) == Hash(alg, data)
  {
    var chain := Fold(alg, alg.iv, data + alg.tail(|data|));
    assert (c.regs[..8] + chain)[8..] == chain;
  }

  // ----- a processed key taken for a raw one

  /** A toy algorithm, to tell the two apart: its chain is the first half of the last block. */
  function Toy(size: nat): Alg {
    Alg([0, 0, 0, 0, 0, 0, 0, 0], (chain: Chain, block: seq<Byte>) => ToyChain(block),
        (n: nat) => seq((64 - n % 64) % 64, i => 0), size)
  }

  function ToyChain(block: seq<Byte>): Chain {
    if |block| >= 32 then Words(block[..32]) else [0, 0, 0, 0, 0, 0, 0, 0]
  }

  lemma ToyFolds(size: nat, chain: Chain, block: seq<Byte>)
    requires size <= 32 && |block| == 64
    ensures Fold(Toy(size), chain, block) == ToyChain(block)
    ensures Digest(Toy(size), ToyChain(block)) == block[..size]
  {
    assert block[..64] == block && block[64..] == [];
    assert Fold(Toy(size), ToyChain(block), []) == ToyChain(block);
    BytesOfWords(block[..32]);
    assert block[..32][..size] == block[..size];
  }

  lemma ToyHashOfBlock(size: nat, block: seq<Byte>)
    requires size <= 32 && |block| == 64
    ensures Hash(Toy(size), block) == block[..size]
  {
    assert block + Toy(size).tail(64) == block;
    ToyFolds(size, Toy(size).iv, block);
  }

  lemma ToyHashOfMore(size: nat, first: seq<Byte>, rest: seq<Byte>)
    requires size <= 32 && |first| == 64 && |rest| == size > 0
    ensures Hash(Toy(size), first + rest) == rest
  {
    var toy := Toy(size);
    var tail := toy.tail(64 + size);
    assert |tail| == 64 - size;
    HashFromFirstBlock(toy, first, rest);
    ToyFolds(size, toy.compress(toy.iv, first), rest + tail);
    TakeFirst(rest, tail, size);
  }

  lemma TakeFirst(a: seq<Byte>, b: seq<Byte>, n: nat)
    requires |a| == n
    ensures (a + b)[..n] == a
  {
  }

  /** With the toy algorithm, HMAC of the empty message shows the start of the inner padded key. */
  lemma ToyHmac(size: nat, key: seq<Byte>)
    requires 0 < size <= 32 && |key| == 64
    ensures Hmac(Toy(size), key, []) == XorPad(key, IPAD)[..size]
  {
    var inner, outer := XorPad(key, IPAD), XorPad(key, OPAD);
    assert inner + [] == inner;
    ToyHashOfBlock(size, inner);
    ToyHashOfMore(size, outer, inner[..size]);
  }

  lemma ToyHmacFirstByte(size: nat, key: seq<Byte>)
    requires 0 < size <= 32 && |key| == 64
    ensures var h := Hmac(Toy(size), key, []); |h| > 0 && h[0] == XorByte(key[0], IPAD)
  {
    ToyHmac(size, key);
    assert XorPad(key, IPAD)[..size][0] == XorPad(key, IPAD)[0];
  }

  lemma ToyIsGood(size: nat)
    requires size <= 32
    ensures Good(Toy(size))
  {
    forall n: nat ensures (n + |Toy(size).tail(n)|) % 64 == 0 {
      FillsBlock(n, n % 64);
    }
  }

  lemma FillsBlock(n: nat, r: nat)
    requires r == n % 64
    ensures (n + (64 - r) % 64) % 64 == 0
  {
  }

  lemma ProcessedFirstByte(size: nat, key: seq<Byte>)
    requires |key| == 64
    ensures |Bytes(KeyChains(Toy(size), key))| == 64
    ensures Bytes(KeyChains(Toy(size), key))[0] == XorByte(key[0], OPAD)
  {
    var outer := XorPad(key, OPAD);
    BytesOfWords(outer[..32]);
    BytesConcat(ToyChain(outer), ToyChain(XorPad(key, IPAD)));
    assert outer[..32][0] == XorByte(key[0], OPAD);
  }

  lemma PadsDiffer(x: Byte)
    ensures XorByte(XorByte(x, OPAD), IPAD) != XorByte(x, IPAD)
  {
    BitOfXor(Xor(x, OPAD), IPAD, 2);
    BitOfXor(x, OPAD, 2);
    BitOfXor(x, IPAD, 2);
    assert Bit(OPAD, 2);
  }

  /** There are algorithms, of every digest size and with every key, for which HMAC under the processed key taken for a
      raw one is not HMAC under the key: the leftover key-processing bit matters. */
  lemma ProcessedKeyIsNotRaw(algo: nat, key: seq<Byte>)
    requires algo < 4 && |key| == 64
    ensures Good(Toy(Size(algo))) && Toy(Size(algo)).size == Size(algo)
    ensures Hmac(Toy(Size(algo)), Bytes(KeyChains(Toy(Size(algo)), key)), []) != Hmac(Toy(Size(algo)), key, [])
  {
    var size, processed := Size(algo), Bytes(KeyChains(Toy(Size(algo)), key));
    ToyIsGood(size);
    ProcessedFirstByte(size, key);
    ToyHmacFirstByte(size, key);
    ToyHmacFirstByte(size, processed);
    PadsDiffer(key[0]);
  }
}
