/** driverlib/des.c: data processing through the two non-blocking block routines. */
module Des {
  import opened Bits
  import opened BlockModes
  import opened BlockEngine
  import opened Residue

  /** Takes the block if the length is 1 to 8 and the engine is ready for it; otherwise nothing happens. */
  method DESDataWriteNonBlocking(e: Engine, src: array<Byte>, off: nat, length: nat) returns (ok: bool)
    requires e.Valid() && e.cipher.size == 8 && !e.mac
    requires 0 < length <= 8 ==> off + length <= src.Length
    modifies e`chain, e`output, e`pending, e`wait
    ensures e.Valid() && ok == (0 < length <= 8 && old(e.InputReady()))
    ensures !ok ==> e.chain == old(e.chain) && e.pending == old(e.pending) && e.output == old(e.output)
    ensures ok ==>
              var x := Pad(8, src[..][off..off + length]);
              && e.pending
              && e.output == Apply(e.cipher, e.mode, e.dir, old(e.chain), x)
              && e.chain == Next(e.mode, e.dir, old(e.chain), x, e.output)
  {
    if length == 0 || length > 8 { return false; }
    var ready := e.PollInput();
    if !ready { return false; }
    var x := CopyIn(src, off, length, 8);
    e.WriteData(x);
    ok := true;
  }

  method DESDataReadNonBlocking(e: Engine, dest: array<Byte>, off: nat, length: nat) returns (ok: bool)
    requires e.Valid() && e.cipher.size == 8
    requires 0 < length <= 8 ==> off + length <= dest.Length
    modifies e`pending, e`wait, dest
    ensures e.Valid() && ok == (0 < length <= 8 && old(e.OutputReady()))
    ensures !ok ==> e.pending == old(e.pending) && dest[..] == old(dest[..])
    ensures ok ==>
              && !e.pending && |e.output| == 8 && dest[..] == Spliced(old(dest[..]), off, e.output[..length])
              && forall j :: 0 <= j < dest.Length ==>
                   dest[j] == if off <= j < off + length then e.output[j - off] else old(dest[j])
  {
    if length == 0 || length > 8 { return false; }
    var ready := e.PollOutput();
    if !ready { return false; }
    var y := e.ReadData();
    CopyOut(y, dest, off, length);
    ok := true;
  }

  /** A ready wait before each transfer; neither transfer is ever refused. */
  method Transfer(e: Engine, src: array<Byte>, dest: array<Byte>, off: nat, length: nat)
    returns (ghost written: bool, ghost read: bool)
    requires e.Idle() && e.cipher.size == 8 && !e.mac && 0 < length <= 8
    requires off + length <= src.Length && off + length <= dest.Length
    modifies e`chain, e`output, e`pending, e`wait, dest
    ensures e.Idle() && written && read
    ensures OneBlock(e.cipher, e.mode, e.dir, old(e.chain), old(src[..]), old(dest[..]), off, length, dest[..], e.chain)
  {
    e.AwaitInput();
    var w := DESDataWriteNonBlocking(e, src, off, length);
    e.AwaitOutput();
    var r := DESDataReadNonBlocking(e, dest, off, length);
    written, read := w, r;
  }

  /** One round of the loop. */
  method ProcessBlock(e: Engine, src: array<Byte>, dest: array<Byte>, count: nat, ghost iv: Block,
                      ghost input: seq<Byte>, ghost got: seq<Byte>, ghost was: seq<Byte>)
    returns (ghost got': seq<Byte>, ghost written: bool, ghost read: bool)
    requires e.Idle() && e.cipher.size == 8 && !e.mac && 8 * count + 8 <= |input|
    requires Buffers(src[..], dest[..], input, 8 * count, got, was)
    requires Midway(e.cipher, e.mode, e.dir, iv, input, 8 * count, e.chain, got)
    modifies e`chain, e`output, e`pending, e`wait, dest
    ensures e.Idle() && written && read && Buffers(src[..], dest[..], input, 8 * count + 8, got', was)
    ensures Midway(e.cipher, e.mode, e.dir, iv, input, 8 * count + 8, e.chain, got')
    ensures src != dest ==> unchanged(src)
  {
    ghost var src0, dest0, chain0 := src[..], dest[..], e.chain;
    written, read := Transfer(e, src, dest, 8 * count, 8);
    got' := RoundStep(e.cipher, e.mode, e.dir, iv, input, 8 * count, got, was, src0, dest0, chain0,
                      src[..], dest[..], e.chain);
  }

  /** The loop over the whole blocks; `refused` counts block routines that returned false. */
  method ProcessBlocks(e: Engine, src: array<Byte>, dest: array<Byte>, blocks: nat)
    returns (count: nat, ghost refused: nat)
    requires e.Idle() && e.cipher.size == 8 && !e.mac
    requires 8 * blocks <= src.Length && 8 * blocks <= dest.Length
    modifies e`chain, e`output, e`pending, e`wait, dest
    ensures count == blocks && e.Idle() && refused == 0
    ensures e.chain == ChainAfter(e.cipher, e.mode, e.dir, old(e.chain), old(src[..])[..8 * blocks])
    ensures dest[..] == Whole(e.cipher, e.mode, e.dir, old(e.chain), old(src[..]), old(dest[..]), 8 * blocks)
    ensures src != dest ==> unchanged(src)
  {
    ghost var iv, was := e.chain, dest[..];
    ghost var input, got: seq<Byte> := src[..][..8 * blocks], [];
    MidwayStart(e.cipher, e.mode, e.dir, iv, input);
    BuffersStart(src[..], dest[..], 8 * blocks);
    count, refused := 0, 0;
    while count < blocks
      invariant count <= blocks && e.Idle() && refused == 0
      invariant Buffers(src[..], dest[..], input, 8 * count, got, was)
      invariant Midway(e.cipher, e.mode, e.dir, iv, input, 8 * count, e.chain, got)
      invariant src != dest ==> src[..] == old(src[..])
    {
      ghost var written, read;
      got, written, read := ProcessBlock(e, src, dest, count, iv, input, got, was);
      refused := refused + (if written then 0 else 1) + if read then 0 else 1;
      count := count + 1;
    }
    MidwayEnd(e.cipher, e.mode, e.dir, iv, input, e.chain, got);
    BuffersEnd(src[..], dest[..], input, got, was);
  }

  /** The documented lengths are the multiples of eight; the code does the same as the AES driver with the others. */
  method DESDataProcess(e: Engine, src: array<Byte>, dest: array<Byte>, length: nat)
    returns (outcome: Outcome, ghost whole: seq<Byte>)
    requires e.Idle() && e.cipher.size == 8 && !e.mac && length < TWO32
    requires length <= src.Length && length <= dest.Length
    modifies e`chain, e`output, e`pending, e`wait, e`length, dest
    ensures e.Idle() && e.length == length
    ensures outcome == if Fits(8, length, src.Length) && Fits(8, length, dest.Length) then Done(true) else Overrun
    ensures outcome.Overrun? <==>
              && length % 8 != 0
              && var last := (length / 8) * (length / 8) % 0x1_0000_0000 + length % 8;
                 last > src.Length || last > dest.Length
    ensures outcome.Overrun? ==>
              dest[..] == Whole(e.cipher, e.mode, e.dir, old(e.chain), old(src[..]), old(dest[..]),
                                length - length % 8)
    ensures outcome.Done? ==>
              Processed(e.cipher, e.mode, e.dir, old(e.chain), old(src[..]), old(dest[..]), src == dest, length,
                        whole, dest[..], e.chain)
    ensures src != dest ==> unchanged(src)
  {
    e.WriteLength(length);
    var blocks := length / 8;
    var count, _ := ProcessBlocks(e, src, dest, blocks);
    whole := dest[..];
    var rest := length % 8;
    ghost var mid := e.chain;
    assert 8 * blocks == length - rest;
    if rest != 0 {
      var off := Address(count, blocks);
      if off + rest > src.Length || off + rest > dest.Length {
        return Overrun, whole;
      }
      var _, _ := Transfer(e, src, dest, off, rest);
    }
    outcome := Done(true);
    ProcessedInTwoSteps(e.cipher, e.mode, e.dir, old(e.chain), old(src[..]), old(dest[..]), src == dest, length,
                        8 * blocks, rest, whole, mid, dest[..], e.chain);
  }

  /** In whole blocks: the mode function of the message, even in place. */
  method ProcessWhole(e: Engine, src: array<Byte>, dest: array<Byte>, length: nat)
    requires e.Idle() && e.cipher.size == 8 && !e.mac && length < TWO32 && length % 8 == 0
    requires length <= src.Length && length <= dest.Length
    modifies e`chain, e`output, e`pending, e`wait, e`length, dest
    ensures e.Idle()
    ensures dest[..length] == Transform(e.cipher, e.mode, e.dir, old(e.chain), old(src[..length]))
    ensures forall pos :: 0 <= pos && pos % 8 == 0 && pos + 8 <= length ==>
              var x, y := Slice(old(src[..length]), pos, 8), Slice(dest[..length], pos, 8);
              var before := SliceBefore(old(e.chain), old(src[..length]), pos, 8);
              var after := SliceBefore(old(e.chain), dest[..length], pos, 8);
              && (e.mode.Ecb? && e.dir.Encrypt? ==> y == e.cipher.enc(x))
              && (e.mode.Ecb? && e.dir.Decrypt? ==> y == e.cipher.dec(x))
              && (e.mode.Cbc? && e.dir.Encrypt? ==> y == e.cipher.enc(XorBlock(x, after)))
              && (e.mode.Cbc? && e.dir.Decrypt? ==> y == XorBlock(e.cipher.dec(x), before))
              && (e.mode.Cfb? && e.dir.Encrypt? ==> y == XorBlock(x, e.cipher.enc(after)))
              && (e.mode.Cfb? && e.dir.Decrypt? ==> y == XorBlock(x, e.cipher.enc(before)))
              && (e.mode.Ctr? ==> y == XorBlock(x, e.cipher.enc(Counter(e.mode.inc, old(e.chain), pos / 8))))
    ensures dest[length..] == old(dest[length..])
    ensures src != dest ==> unchanged(src)
  {
    ghost var from, was, iv := src[..], dest[..], e.chain;
    assert from[..length] == src[..length] && was[length..] == dest[length..];
    TransformSize(e.cipher, e.mode, e.dir, iv, from[..length]);
    TransformModes(e.cipher, e.mode, e.dir, iv, from[..length],
                   Transform(e.cipher, e.mode, e.dir, iv, from[..length]));
    var _, whole := DESDataProcess(e, src, dest, length);
  }
}
