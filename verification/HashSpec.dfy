/** Iterated hashing and HMAC over an abstract compression function (RFC 2104, section 2), and
    32-bit words as little-endian bytes. */
module HashSpec {
  import opened Bits

  /** Eight chaining words, registers A to H. */
  type Chain = c: seq<Word> | |c| == 8 witness [0, 0, 0, 0, 0, 0, 0, 0]

  // ----- words and bytes

  function BytesOf(w: Word): (b: seq<Byte>)
    ensures |b| == 4
  {
    [w % 256, w / 256 % 256, w / 0x1_0000 % 256, w / 0x100_0000]
  }

  function WordOf(b0: Byte, b1: Byte, b2: Byte, b3: Byte): Word {
    b0 + 256 * b1 + 0x1_0000 * b2 + 0x100_0000 * b3
  }

  lemma BytesOfWordOf(b0: Byte, b1: Byte, b2: Byte, b3: Byte)
    ensures BytesOf(WordOf(b0, b1, b2, b3)) == [b0, b1, b2, b3]
  {
    var w := WordOf(b0, b1, b2, b3);
    assert w / 256 == b1 + 256 * b2 + 0x1_0000 * b3;
    assert w / 0x1_0000 == b2 + 256 * b3;
  }

  function Bytes(words: seq<Word>): (b: seq<Byte>)
    ensures |b| == 4 * |words|
  {
    if words == [] then [] else BytesOf(words[0]) + Bytes(words[1..])
  }

  /** Byte by byte, least significant first. */
  lemma {:induction false} BytesAt(words: seq<Word>, i: nat)
    requires i < |words|
    ensures Bytes(words)[4 * i] == words[i] % 256
    ensures Bytes(words)[4 * i + 1] == words[i] / 0x100 % 256
    ensures Bytes(words)[4 * i + 2] == words[i] / 0x1_0000 % 256
    ensures Bytes(words)[4 * i + 3] == words[i] / 0x100_0000
  {
    if i > 0 { BytesAt(words[1..], i - 1); }
  }

  lemma {:induction false} BytesConcat(a: seq<Word>, b: seq<Word>)
    ensures Bytes(a + b) == Bytes(a) + Bytes(b)
  {
    if a == [] {
      assert a + b == b;
    } else {
      assert (a + b)[1..] == a[1..] + b;
      BytesConcat(a[1..], b);
    }
  }

  /** The word the driver forms from up to four bytes, missing ones being zero. */
  function WordAt(b: seq<Byte>): (w: Word)
    ensures 1 <= |b| <= 4 ==>
              w == b[0] as nat + (if |b| > 1 then 256 * b[1] as nat else 0)
                   + (if |b| > 2 then 0x1_0000 * b[2] as nat else 0)
                   + (if |b| > 3 then 0x100_0000 * b[3] as nat else 0)
  {
    WordOf(if |b| > 0 then b[0] else 0, if |b| > 1 then b[1] else 0,
           if |b| > 2 then b[2] else 0, if |b| > 3 then b[3] else 0)
  }

  /** The little-endian words of the data, the last one completed with zeros. */
  function Words(data: seq<Byte>): (w: seq<Word>)
    ensures |w| == (|data| + 3) / 4
  {
    if data == [] then []
    else if |data| <= 4 then [WordAt(data)]
    else [WordAt(data[..4])] + Words(data[4..])
  }

  lemma {:induction false} WordsConcat(a: seq<Byte>, b: seq<Byte>)
    requires |a| % 4 == 0
    ensures Words(a + b) == Words(a) + Words(b)
  {
    if a == [] {
      assert a + b == b;
    } else {
      assert (a + b)[..4] == a[..4] && (a + b)[4..] == a[4..] + b;
      assert |a| == 4 ==> a[..4] == a;
      if a + b == a[..4] { assert a[4..] == [] && b == []; }
      WordsConcat(a[4..], b);
    }
  }

  lemma WordAtOfBytes(w: Word)
    ensures WordAt(BytesOf(w)) == w
  {
    assert w == w % 256 + 256 * (w / 256);
    assert w / 256 == w / 256 % 256 + 256 * (w / 0x1_0000);
    assert w / 0x1_0000 == w / 0x1_0000 % 256 + 256 * (w / 0x100_0000);
  }

  /** Reading words back from the bytes they were stored as. */
  lemma {:induction false} WordsOfBytes(words: seq<Word>)
    ensures Words(Bytes(words)) == words
  {
    if words != [] {
      var rest := Bytes(words[1..]);
      WordAtOfBytes(words[0]);
      WordsOfBytes(words[1..]);
      WordsConcat(BytesOf(words[0]), rest);
      assert Words(BytesOf(words[0])) == [words[0]];
    }
  }

  lemma BytesOfWordAt(b: seq<Byte>)
    requires 0 < |b| <= 4
    ensures |b| == 4 ==> BytesOf(WordAt(b)) == b
    ensures BytesOf(WordAt(b))[..|b|] == b
    ensures forall i :: |b| <= i < 4 ==> BytesOf(WordAt(b))[i] == 0
  {
    BytesOfWordOf(if |b| > 0 then b[0] else 0, if |b| > 1 then b[1] else 0,
                  if |b| > 2 then b[2] else 0, if |b| > 3 then b[3] else 0);
  }

  /** The bytes of the words are the data, then zeros up to the next multiple of four. */
  lemma BytesOfWords(data: seq<Byte>)
    ensures |Bytes(Words(data))| == |data| + (4 - |data| % 4) % 4 && Bytes(Words(data))[..|data|] == data
    ensures forall i :: |data| <= i < |Bytes(Words(data))| ==> Bytes(Words(data))[i] == 0
  {
    RoundUp(|data|);
    DataThenZeros(data);
  }

  lemma RoundUp(n: nat)
    ensures 4 * ((n + 3) / 4) == n + (4 - n % 4) % 4
  {
  }

  lemma {:induction false} DataThenZeros(data: seq<Byte>)
    ensures |data| <= |Bytes(Words(data))| && Bytes(Words(data))[..|data|] == data
    ensures forall i :: |data| <= i < |Bytes(Words(data))| ==> Bytes(Words(data))[i] == 0
  {
    if 0 < |data| <= 4 {
      BytesOfWordAt(data);
      BytesOfOne(WordAt(data));
    } else if |data| > 4 {
      DataThenZeros(data[4..]);
      BytesOfWordAt(data[..4]);
      BytesOfMore(data);
      PaddedTail(data, Bytes(Words(data)), Bytes(Words(data[4..])));
    }
  }

  lemma BytesOfOne(w: Word)
    ensures Bytes([w]) == BytesOf(w)
  {
    assert [w][1..] == [];
  }

  lemma BytesOfMore(data: seq<Byte>)
    requires |data| > 4
    ensures Bytes(Words(data)) == BytesOf(WordAt(data[..4])) + Bytes(Words(data[4..]))
  {
    var rest := Words(data[4..]);
    assert ([WordAt(data[..4])] + rest)[1..] == rest;
  }

  lemma PaddedTail(data: seq<Byte>, all: seq<Byte>, rest: seq<Byte>)
    requires |data| > 4 && all == data[..4] + rest && |data[4..]| <= |rest| && rest[..|data[4..]|] == data[4..]
    requires forall i :: |data[4..]| <= i < |rest| ==> rest[i] == 0
    ensures all[..|data|] == data && forall i :: |data| <= i < |all| ==> all[i] == 0
  {
    assert data == data[..4] + data[4..];
    forall i | |data| <= i < |all| ensures all[i] == 0 { assert all[i] == rest[i - 4]; }
  }

  // ----- hashing

  /** A hash algorithm: initial chain, compression of a 64-byte block, the padding that closes a message of
      a given length, and the digest's size. */
  datatype Alg = Alg(iv: Chain, compress: (Chain, seq<Byte>) -> Chain, tail: nat -> seq<Byte>, size: nat)

  /** Padding fills up the last block, and the digest fits the chain. */
  ghost predicate Good(alg: Alg) {
    && alg.size <= 32
    && forall n: nat :: (n + |alg.tail(n)|) % 64 == 0
  }

  function Fold(alg: Alg, chain: Chain, bytes: seq<Byte>): Chain
    decreases |bytes|
  {
    if |bytes| < 64 then chain else Fold(alg, alg.compress(chain, bytes[..64]), bytes[64..])
  }

  function Digest(alg: Alg, chain: Chain): seq<Byte> {
    if alg.size <= 32 then Bytes(chain)[..alg.size] else []
  }

  function Hash(alg: Alg, msg: seq<Byte>): seq<Byte> {
    Digest(alg, Fold(alg, alg.iv, msg + alg.tail(|msg|)))
  }

  lemma {:induction false} XorBound(x: nat, y: nat, k: nat)
    requires x < Pow2(k) && y < Pow2(k)
    ensures Xor(x, y) < Pow2(k)
  {
    if x > 0 && y > 0 { XorBound(x / 2, y / 2, k - 1); }
  }

  function XorByte(x: Byte, y: Byte): Byte {
    Pow2At8();
    XorBound(x, y, 8);
    Xor(x, y)
  }

  const IPAD: Byte := 0x36
  const OPAD: Byte := 0x5C

  function XorPad(key: seq<Byte>, pad: Byte): (r: seq<Byte>)
    ensures |r| == |key|
  {
    seq(|key|, i requires 0 <= i < |key| => XorByte(key[i], pad))
  }

  /** HMAC with a key already padded to one block, as RFC 2104 defines it. */
  function Hmac(alg: Alg, key: seq<Byte>, msg: seq<Byte>): seq<Byte> {
    Hash(alg, XorPad(key, OPAD) + Hash(alg, XorPad(key, IPAD) + msg))
  }

  lemma FoldBlock(alg: Alg, chain: Chain, first: seq<Byte>, more: seq<Byte>)
    requires |first| == 64
    ensures Fold(alg, chain, first + more) == Fold(alg, alg.compress(chain, first), more)
  {
    assert (first + more)[..64] == first && (first + more)[64..] == more;
  }

  /** Hashing a message that starts with a known block can start from that block's chain. */
  lemma HashFromFirstBlock(alg: Alg, first: seq<Byte>, rest: seq<Byte>)
    requires |first| == 64
    ensures Hash(alg, first + rest) ==
            Digest(alg, Fold(alg, alg.compress(alg.iv, first), rest + alg.tail(64 + |rest|)))
  {
    var tail := alg.tail(64 + |rest|);
    Assoc(first, rest, tail);
    FoldBlock(alg, alg.iv, first, rest + tail);
  }

  /** The chain after the bytes is reached block by block. */
  lemma {:induction false} FoldByBlocks(alg: Alg, bytes: seq<Byte>, chains: seq<Chain>)
    requires |chains| == |bytes| / 64 + 1
    requires forall j :: 0 <= j < |chains| - 1 ==>
               chains[j + 1] == alg.compress(chains[j], bytes[64 * j..64 * j + 64])
    ensures Fold(alg, chains[0], bytes) == chains[|chains| - 1]
  {
    if |bytes| >= 64 {
      var rest, later := bytes[64..], chains[1..];
      forall j | 0 <= j < |later| - 1
        ensures later[j + 1] == alg.compress(later[j], rest[64 * j..64 * j + 64])
      {
        assert chains[(j + 1) + 1] == alg.compress(chains[j + 1], bytes[64 * (j + 1)..64 * (j + 1) + 64]);
        BlockOfRest(bytes, j);
      }
      FoldByBlocks(alg, rest, later);
      assert bytes[64 * 0..64 * 0 + 64] == bytes[..64];
    }
  }

  lemma BlockOfRest(bytes: seq<Byte>, j: nat)
    requires 64 * (j + 1) + 64 <= |bytes|
    ensures bytes[64..][64 * j..64 * j + 64] == bytes[64 * (j + 1)..64 * (j + 1) + 64]
  {
  }

  lemma {:induction false} ByteIn(words: seq<Word>, i: nat, r: nat)
    requires i < |words| && r < 4
    ensures Bytes(words)[4 * i + r] == BytesOf(words[i])[r]
  {
    if i > 0 { ByteIn(words[1..], i - 1, r); }
  }

  lemma ByteAt(words: seq<Word>, k: nat)
    requires k < 4 * |words|
    ensures var w := words[k / 4];
            Bytes(words)[k] == [w % 256, w / 0x100 % 256, w / 0x1_0000 % 256, w / 0x100_0000][k % 4]
  {
    var i, r := k / 4, k % 4;
    assert k == 4 * i + r;
    ByteIn(words, i, r);
    ByteOf(words[i], r);
  }

  lemma ByteOf(w: Word, r: nat)
    requires r < 4
    ensures BytesOf(w)[r] == [w % 256, w / 0x100 % 256, w / 0x1_0000 % 256, w / 0x100_0000][r]
  {
  }

  /** The hash of a message: compress its blocks and the padding in turn from the initial chain, and take the
      leading bytes of the last chain, least significant byte of each word first. */
  lemma HashByBlocks(alg: Alg, msg: seq<Byte>, chains: seq<Chain>)
    requires alg.size <= 32
    requires |chains| == |msg + alg.tail(|msg|)| / 64 + 1 && chains[0] == alg.iv
    requires forall j :: 0 <= j < |chains| - 1 ==>
               chains[j + 1] == alg.compress(chains[j], (msg + alg.tail(|msg|))[64 * j..64 * j + 64])
    ensures |Hash(alg, msg)| == alg.size
    ensures forall k :: 0 <= k < alg.size ==>
              var w := chains[|chains| - 1][k / 4];
              Hash(alg, msg)[k] == [w % 256, w / 0x100 % 256, w / 0x1_0000 % 256, w / 0x100_0000][k % 4]
  {
    FoldByBlocks(alg, msg + alg.tail(|msg|), chains);
    forall k | 0 <= k < alg.size
      ensures var w := chains[|chains| - 1][k / 4];
              Hash(alg, msg)[k] == [w % 256, w / 0x100 % 256, w / 0x1_0000 % 256, w / 0x100_0000][k % 4]
    {
      ByteAt(chains[|chains| - 1], k);
    }
  }

  lemma XorPadBits(key: seq<Byte>, pad: Byte, padded: seq<Byte>)
    requires |padded| == |key|
    requires forall k, b: nat :: 0 <= k < |key| ==> (Bit(padded[k], b) <==> Bit(key[k], b) != Bit(pad, b))
    ensures XorPad(key, pad) == padded
  {
    forall k | 0 <= k < |key| ensures XorPad(key, pad)[k] == padded[k] {
      forall b: nat ensures Bit(Xor(key[k], pad), b) <==> Bit(padded[k], b) { BitOfXor(key[k], pad, b); }
      SameBits(Xor(key[k], pad), padded[k]);
    }
  }

  /** HMAC is the hash of the key XOR 5C.. and the hash of the key XOR 36.. and the message. */
  lemma HmacFromPads(alg: Alg, key: seq<Byte>, msg: seq<Byte>, inner: seq<Byte>, outer: seq<Byte>)
    requires |key| == |inner| == |outer|
    requires forall k, b: nat :: 0 <= k < |key| ==> (Bit(inner[k], b) <==> Bit(key[k], b) != Bit(0x36, b))
    requires forall k, b: nat :: 0 <= k < |key| ==> (Bit(outer[k], b) <==> Bit(key[k], b) != Bit(0x5C, b))
    ensures Hmac(alg, key, msg) == Hash(alg, outer + Hash(alg, inner + msg))
  {
    XorPadBits(key, 0x36, inner);
    XorPadBits(key, 0x5C, outer);
  }

  /** HMAC from the two chains that depend only on the key: the intermediate results of RFC 2104, section 4. */
  function HmacFromChains(alg: Alg, outer: Chain, inner: Chain, msg: seq<Byte>): Chain {
    var d := Digest(alg, Fold(alg, inner, msg + alg.tail(64 + |msg|)));
    Fold(alg, outer, d + alg.tail(64 + |d|))
  }

  lemma HmacIsFromChains(alg: Alg, key: seq<Byte>, msg: seq<Byte>)
    requires |key| == 64
    ensures Hmac(alg, key, msg) ==
            Digest(alg, HmacFromChains(alg, alg.compress(alg.iv, XorPad(key, OPAD)),
                                       alg.compress(alg.iv, XorPad(key, IPAD)), msg))
  {
    HashFromFirstBlock(alg, XorPad(key, IPAD), msg);
    HashFromFirstBlock(alg, XorPad(key, OPAD), Hash(alg, XorPad(key, IPAD) + msg));
  }
}
