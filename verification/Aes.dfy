/** driverlib/aes.c: data read, write and processing. */
module Aes {
  import opened Bits
  import opened BlockModes
  import opened BlockEngine
  import opened Residue

  /** Lengths of 0 or above 16 are refused without touching the engine. */
  method AESDataWrite(e: Engine, src: array<Byte>, off: nat, length: nat)
    requires e.Idle() && e.cipher.size == 16
    requires 0 < length <= 16 ==> off + length <= src.Length
    modifies e`chain, e`output, e`pending, e`wait
    ensures e.Valid()
    ensures length == 0 || length > 16 ==> unchanged(e)
    ensures 0 < length <= 16 ==>
              var x := Pad(16, src[..][off..off + length]);
              && e.pending == !e.mac
              && e.output == Apply(e.cipher, e.mode, e.dir, old(e.chain), x)
              && e.chain == Next(e.mode, e.dir, old(e.chain), x, e.output)
  {
    if length == 0 || length > 16 { return; }
    e.AwaitInput();
    var x := CopyIn(src, off, length, 16);
    e.WriteData(x);
  }

  method AESDataRead(e: Engine, dest: array<Byte>, off: nat, length: nat)
    requires e.Valid() && e.cipher.size == 16
    requires 0 < length <= 16 ==> e.pending && off + length <= dest.Length
    modifies e`pending, e`wait, dest
    ensures e.Valid()
    ensures length == 0 || length > 16 ==> unchanged(e) && unchanged(dest)
    ensures 0 < length <= 16 ==>
              && !e.pending && |e.output| == 16 && dest[..] == Spliced(old(dest[..]), off, e.output[..length])
              && forall j :: 0 <= j < dest.Length ==>
                   dest[j] == if off <= j < off + length then e.output[j - off] else old(dest[j])
  {
    if length == 0 || length > 16 { return; }
    e.AwaitOutput();
    var y := e.ReadData();
    CopyOut(y, dest, off, length);
  }

  /** A write, then a read at the same place. */
  method Transfer(e: Engine, src: array<Byte>, dest: array<Byte>, off: nat, length: nat)
    requires e.Idle() && e.cipher.size == 16 && !e.mac && 0 < length <= 16
    requires off + length <= src.Length && off + length <= dest.Length
    modifies e`chain, e`output, e`pending, e`wait, dest
    ensures e.Idle()
    ensures OneBlock(e.cipher, e.mode, e.dir, old(e.chain), old(src[..]), old(dest[..]), off, length, dest[..], e.chain)
  {
    AESDataWrite(e, src, off, length);
    AESDataRead(e, dest, off, length);
  }

  /** One round of the loop. */
  method ProcessBlock(e: Engine, src: array<Byte>, dest: array<Byte>, count: nat, ghost iv: Block,
                      ghost input: seq<Byte>, ghost got: seq<Byte>, ghost was: seq<Byte>)
    returns (ghost got': seq<Byte>)
    requires e.Idle() && e.cipher.size == 16 && !e.mac && 16 * count + 16 <= |input|
    requires Buffers(src[..], dest[..], input, 16 * count, got, was)
    requires Midway(e.cipher, e.mode, e.dir, iv, input, 16 * count, e.chain, got)
    modifies e`chain, e`output, e`pending, e`wait, dest
    ensures e.Idle() && Buffers(src[..], dest[..], input, 16 * count + 16, got', was)
    ensures Midway(e.cipher, e.mode, e.dir, iv, input, 16 * count + 16, e.chain, got')
    ensures src != dest ==> unchanged(src)
  {
    ghost var src0, dest0, chain0 := src[..], dest[..], e.chain;
    Transfer(e, src, dest, 16 * count, 16);
    got' := RoundStep(e.cipher, e.mode, e.dir, iv, input, 16 * count, got, was, src0, dest0, chain0,
                      src[..], dest[..], e.chain);
  }

  /** The loop over the whole blocks. */
  method ProcessBlocks(e: Engine, src: array<Byte>, dest: array<Byte>, blocks: nat) returns (count: nat)
    requires e.Idle() && e.cipher.size == 16 && !e.mac
    requires 16 * blocks <= src.Length && 16 * blocks <= dest.Length
    modifies e`chain, e`output, e`pending, e`wait, dest
    ensures count == blocks && e.Idle()
    ensures e.chain == ChainAfter(e.cipher, e.mode, e.dir, old(e.chain), old(src[..])[..16 * blocks])
    ensures dest[..] == Whole(e.cipher, e.mode, e.dir, old(e.chain), old(src[..]), old(dest[..]), 16 * blocks)
    ensures src != dest ==> unchanged(src)
  {
    ghost var iv, was := e.chain, dest[..];
    ghost var input, got: seq<Byte> := src[..][..16 * blocks], [];
    MidwayStart(e.cipher, e.mode, e.dir, iv, input);
    BuffersStart(src[..], dest[..], 16 * blocks);
    count := 0;
    while count < blocks
      invariant count <= blocks && e.Idle()
      invariant Buffers(src[..], dest[..], input, 16 * count, got, was)
      invariant Midway(e.cipher, e.mode, e.dir, iv, input, 16 * count, e.chain, got)
      invariant src != dest ==> src[..] == old(src[..])
    {
      got := ProcessBlock(e, src, dest, count, iv, input, got, was);
      count := count + 1;
    }
    MidwayEnd(e.cipher, e.mode, e.dir, iv, input, e.chain, got);
    BuffersEnd(src[..], dest[..], input, got, was);
  }

  /** For every length: whole blocks through the mode function, then the residue as the code addresses it. */
  method AESDataProcess(e: Engine, src: array<Byte>, dest: array<Byte>, length: nat)
    returns (outcome: Outcome, ghost whole: seq<Byte>)
    requires e.Idle() && e.cipher.size == 16 && !e.mac && length < TWO32
    requires length <= src.Length && length <= dest.Length
    modifies e`chain, e`output, e`pending, e`wait, e`length, dest
    ensures e.Idle() && e.length == length
    ensures outcome == if Fits(16, length, src.Length) && Fits(16, length, dest.Length) then Done(true) else Overrun
    ensures outcome.Overrun? <==>
              && length % 16 != 0
              && var last := (length / 16) * (length / 16) % 0x1_0000_0000 + length % 16;
                 last > src.Length || last > dest.Length
    ensures outcome.Overrun? ==>
              dest[..] == Whole(e.cipher, e.mode, e.dir, old(e.chain), old(src[..]), old(dest[..]),
                                length - length % 16)
    ensures outcome.Done? ==>
              Processed(e.cipher, e.mode, e.dir, old(e.chain), old(src[..]), old(dest[..]), src == dest, length,
                        whole, dest[..], e.chain)
    ensures src != dest ==> unchanged(src)
  {
    e.WriteLength(length);
    var blocks := length / 16;
    var count := ProcessBlocks(e, src, dest, blocks);
    whole := dest[..];
    var rest := length % 16;
    ghost var mid := e.chain;
    assert 16 * blocks == length - rest;
    if rest != 0 {
      var off := Address(count, blocks);
      if off + rest > src.Length || off + rest > dest.Length {
        return Overrun, whole;
      }
      Transfer(e, src, dest, off, rest);
    }
    outcome := Done(true);
    ProcessedInTwoSteps(e.cipher, e.mode, e.dir, old(e.chain), old(src[..]), old(dest[..]), src == dest, length,
                        16 * blocks, rest, whole, mid, dest[..], e.chain);
  }

  /** In whole blocks: the mode function of the message, even in place. */
  method ProcessWhole(e: Engine, src: array<Byte>, dest: array<Byte>, length: nat)
    requires e.Idle() && e.cipher.size == 16 && !e.mac && length < TWO32 && length % 16 == 0
    requires length <= src.Length && length <= dest.Length
    modifies e`chain, e`output, e`pending, e`wait, e`length, dest
    ensures e.Idle()
    ensures dest[..length] == Transform(e.cipher, e.mode, e.dir, old(e.chain), old(src[..length]))
    ensures forall pos :: 0 <= pos && pos % 16 == 0 && pos + 16 <= length ==>
              var x, y := Slice(old(src[..length]), pos, 16), Slice(dest[..length], pos, 16);
              var before := SliceBefore(old(e.chain), old(src[..length]), pos, 16);
              var after := SliceBefore(old(e.chain), dest[..length], pos, 16);
              && (e.mode.Ecb? && e.dir.Encrypt? ==> y == e.cipher.enc(x))
              && (e.mode.Ecb? && e.dir.Decrypt? ==> y == e.cipher.dec(x))
              && (e.mode.Cbc? && e.dir.Encrypt? ==> y == e.cipher.enc(XorBlock(x, after)))
              && (e.mode.Cbc? && e.dir.Decrypt? ==> y == XorBlock(e.cipher.dec(x), before))
              && (e.mode.Cfb? && e.dir.Encrypt? ==> y == XorBlock(x, e.cipher.enc(after)))
              && (e.mode.Cfb? && e.dir.Decrypt? ==> y == XorBlock(x, e.cipher.enc(before)))
              && (e.mode.Ctr? ==> y == XorBlock(x, e.cipher.enc(Counter(e.mode.inc, old(e.chain), pos / 16))))
    ensures dest[length..] == old(dest[length..])
    ensures src != dest ==> unchanged(src)
  {
    ghost var from, was, iv := src[..], dest[..], e.chain;
    assert from[..length] == src[..length] && was[length..] == dest[length..];
    TransformSize(e.cipher, e.mode, e.dir, iv, from[..length]);
    TransformModes(e.cipher, e.mode, e.dir, iv, from[..length],
                   Transform(e.cipher, e.mode, e.dir, iv, from[..length]));
    var _, whole := AESDataProcess(e, src, dest, length);
  }

  /** For example, of 17 bytes the last is never written: its place in the output is taken to be address 1. */
  method SeventeenBytes(e: Engine, src: array<Byte>, dest: array<Byte>)
    requires e.Idle() && e.cipher.size == 16 && !e.mac && src.Length == dest.Length == 17
    modifies e`chain, e`output, e`pending, e`wait, e`length, dest
    ensures dest[16] == old(dest[16])
  {
    ghost var was, from, iv := dest[..], src[..], e.chain;
    assert Offset(17 / 16) == 1 && Missed(16, 17) == 16;
    var _, whole := AESDataProcess(e, src, dest, 17);
    WrongResidue(e.cipher, e.mode, e.dir, iv, from, was, src == dest, 17, whole, dest[..], e.chain);
  }

  /** Encrypting a buffer in place and then decrypting it from the same initialization vector restores it. */
  method RoundTripInPlace(e: Engine, buffer: array<Byte>, iv: Block, dir: Dir)
    requires e.Idle() && e.cipher.size == 16 && !e.mac && |iv| == 16
    requires buffer.Length < TWO32 && buffer.Length % 16 == 0
    modifies e, buffer
    ensures buffer[..] == old(buffer[..])
  {
    var n := buffer.Length;
    ghost var text := buffer[..];
    assert buffer[..n] == text;
    e.chain, e.dir := iv, dir;
    ProcessWhole(e, buffer, buffer, n);
    ghost var between := buffer[..];
    assert buffer[..n] == between;
    e.chain, e.dir := iv, Opposite(dir);
    ProcessWhole(e, buffer, buffer, n);
    assert buffer[..n] == buffer[..];
    UndoTransform(e.cipher, e.mode, dir, iv, text);
  }

  // ----- message authentication

  /** The message whose MAC the call computes: the whole blocks, then the residue as addressed, padded. */
  function MacMessage(src: seq<Byte>, length: nat): (bytes: seq<Byte>)
    requires Fits(16, length, |src|)
    ensures var rem, off := length % 16, (length / 16) * (length / 16) % 0x1_0000_0000;
            var n := length - rem;
            && |bytes| == (if rem == 0 then n else n + 16)
            && bytes[..n] == src[..n]
            && (rem != 0 ==> bytes[n..length] == src[off..off + rem])
            && forall i :: length <= i < |bytes| ==> bytes[i] == 0
    ensures |bytes| % 16 == 0 && |bytes| >= length
  {
    var rem, off := length % 16, Offset(length / 16);
    if rem == 0 then src[..length] else src[..length - rem] + Pad(16, src[off..off + rem])
  }

  method AESDataMAC(e: Engine, src: array<Byte>, length: nat, tag: array<Byte>) returns (outcome: Outcome)
    requires e.Idle() && e.cipher.size == 16 && e.mac && length < TWO32
    requires length <= src.Length && tag.Length >= 16
    modifies e`chain, e`output, e`pending, e`wait, e`length, tag
    ensures e.Idle() && e.length == length
    ensures outcome == if Fits(16, length, src.Length) then Done(true) else Overrun
    ensures outcome.Overrun? <==>
              length % 16 != 0 && (length / 16) * (length / 16) % 0x1_0000_0000 + length % 16 > src.Length
    ensures outcome.Overrun? ==> tag[..] == old(tag[..])
    ensures outcome.Done? ==>
              && tag[..16] == ChainAfter(e.cipher, e.mode, e.dir, old(e.chain), MacMessage(old(src[..]), length))
              && tag[16..] == old(tag[16..])
    ensures outcome.Done? && length > 0 && e.mode.Cbc? && e.dir.Encrypt? ==>
              var out := Transform(e.cipher, Cbc, Encrypt, old(e.chain), MacMessage(old(src[..]), length));
              |out| >= 16 && tag[..16] == out[|out| - 16..]
  {
    e.WriteLength(length);
    outcome := MacData(e, src, length);
    if outcome == Overrun { return; }
    e.AwaitInput();
    MacTail(e.cipher, old(e.chain), src[..], length);
    CopyOut(e.chain, tag, 0, 16);
    assert tag[..16] == e.chain;
  }

  method MacData(e: Engine, src: array<Byte>, length: nat) returns (outcome: Outcome)
    requires e.Idle() && e.cipher.size == 16 && e.mac && length <= src.Length
    modifies e`chain, e`output, e`pending, e`wait
    ensures e.Idle() && outcome == if Fits(16, length, src.Length) then Done(true) else Overrun
    ensures outcome.Done? ==>
              e.chain == ChainAfter(e.cipher, e.mode, e.dir, old(e.chain), MacMessage(src[..], length))
  {
    var blocks := length / 16;
    var rest := length % 16;
    var count := MacBlocks(e, src, blocks);
    if rest != 0 {
      var off := Address(count, blocks);
      if off + rest > src.Length { return Overrun; }
      TransformOneMore(e.cipher, e.mode, e.dir, old(e.chain), src[..][..16 * blocks],
                       Pad(16, src[..][off..off + rest]));
      AESDataWrite(e, src, off, rest);
    }
    outcome := Done(true);
  }

  /** For every length and buffer: the MAC is that of the padded message for every content of the buffer if and only
      if the message is whole blocks, or has 0 or 16 of them. */
  lemma MacExactly(capacity: nat, length: nat)
    requires length < TWO32 && length <= capacity
    ensures (Fits(16, length, capacity) && forall src: seq<Byte> ::
               |src| == capacity ==> MacMessage(src, length) == PaddedMessage(16, src, length))
            <==> length % 16 == 0 || length / 16 == 0 || length / 16 == 16
  {
    var rem, off := length % 16, Offset(length / 16);
    var n := length - rem;
    OffsetRight(16, length / 16);
    if rem != 0 && off != n && Fits(16, length, capacity) {
      var src: seq<Byte> := seq(capacity, i => if i == n then 1 else 0);
      OtherMessage(src, length, n);
    }
  }

  /** A source that shows where the residue is taken from. */
  lemma OtherMessage(src: seq<Byte>, length: nat, n: nat)
    requires length < TWO32 && length % 16 != 0 && n == length - length % 16 && Offset(length / 16) != n
    requires Fits(16, length, |src|) && forall i :: 0 <= i < |src| ==> src[i] == if i == n then 1 else 0
    ensures MacMessage(src, length) != PaddedMessage(16, src, length)
  {
    assert MacMessage(src, length)[n] == src[Offset(length / 16)] == 0;
    assert PaddedMessage(16, src, length)[n] == src[n];
  }

  method MacBlocks(e: Engine, src: array<Byte>, blocks: nat) returns (count: nat)
    requires e.Idle() && e.cipher.size == 16 && e.mac && 16 * blocks <= src.Length
    modifies e`chain, e`output, e`pending, e`wait
    ensures count == blocks && e.Idle()
    ensures e.chain == ChainAfter(e.cipher, e.mode, e.dir, old(e.chain), src[..][..16 * blocks])
  {
    ghost var iv, input, n := e.chain, src[..], 16 * blocks;
    assert input[0..n] == input[..n];
    count := 0;
    while count < blocks
      invariant count <= blocks && e.Idle()
      invariant ChainAfter(e.cipher, e.mode, e.dir, e.chain, input[16 * count..n])
             == ChainAfter(e.cipher, e.mode, e.dir, iv, input[..n])
    {
      MacStep(e.cipher, e.mode, e.dir, e.chain, input, 16 * count, n);
      AESDataWrite(e, src, 16 * count, 16);
      count := count + 1;
    }
    assert input[n..n] == [] && ChainAfter(e.cipher, e.mode, e.dir, e.chain, []) == e.chain;
  }

  lemma MacStep(c: Cipher, m: Mode, d: Dir, chain: Block, input: seq<Byte>, pos: nat, n: nat)
    requires c.size == 16 && pos + 16 <= n <= |input|
    ensures var x := input[pos..pos + 16];
            && Pad(16, x) == x
            && ChainAfter(c, m, d, Next(m, d, chain, x, Apply(c, m, d, chain, x)), input[pos + 16..n])
            == ChainAfter(c, m, d, chain, input[pos..n])
  {
    var x, more := input[pos..pos + 16], input[pos + 16..n];
    assert input[pos..n] == x + more;
    TransformFirst(c, m, d, chain, x, more);
  }

  lemma MacTail(c: Cipher, iv: Block, src: seq<Byte>, length: nat)
    requires Permutation(c) && c.size == 16 && |iv| == 16 && Fits(16, length, |src|)
    ensures length > 0 ==>
              var out := Transform(c, Cbc, Encrypt, iv, MacMessage(src, length));
              |out| >= 16 && ChainAfter(c, Cbc, Encrypt, iv, MacMessage(src, length)) == out[|out| - 16..]
  {
    if length > 0 {
      var bytes := MacMessage(src, length);
      assert bytes != [] && |bytes| % c.size == 0;
      TagIsTail(c, iv, bytes);
    }
  }

  /** In bytes: the tag is the end of the message's CBC encryption. */
  lemma TagIsTail(c: Cipher, iv: Block, bytes: seq<Byte>)
    requires Permutation(c) && |iv| == c.size && |bytes| % c.size == 0 && bytes != []
    ensures var out := Transform(c, Cbc, Encrypt, iv, bytes);
            |out| >= c.size && ChainAfter(c, Cbc, Encrypt, iv, bytes) == out[|out| - c.size..]
  {
    var n: nat := |bytes| - c.size;
    var front, last := bytes[..n], bytes[n..];
    assert bytes == front + last;
    TransformSize(c, Cbc, Encrypt, iv, front);
    TransformOneMore(c, Cbc, Encrypt, iv, front, last);
    ApplySize(c, Cbc, Encrypt, ChainAfter(c, Cbc, Encrypt, iv, front), last);
  }

  /** The tag is CBC-MAC: the last block of the message's CBC encryption. */
  lemma {:induction false} TagIsLastBlock(c: Cipher, iv: Block, xs: seq<Block>)
    requires xs != []
    ensures After(c, Cbc, Encrypt, iv, xs) == Process(c, Cbc, Encrypt, iv, xs)[|xs| - 1]
    decreases |xs|
  {
    if |xs| > 1 {
      TagIsLastBlock(c, Apply(c, Cbc, Encrypt, iv, xs[0]), xs[1..]);
    }
  }
}
