/** The data side of the AES and DES engines: one block in, one block out, announced by two ready flags. */
module BlockEngine {
  import opened Bits
  import opened BlockModes

  class Engine {
    const cipher: Cipher
    const mode: Mode
    /** In MAC modes no output block is produced; the tag is the feedback register. */
    const mac: bool
    var dir: Dir
    var chain: Block
    var output: Block
    var pending: bool
    var wait: nat
    var length: nat

    constructor (cipher: Cipher, mode: Mode, mac: bool, dir: Dir, iv: Block)
      requires Permutation(cipher) && Counts(mode, cipher.size) && |iv| == cipher.size
      ensures Idle() && this.cipher == cipher && this.mode == mode && this.mac == mac && this.dir == dir && chain == iv
    {
      this.cipher, this.mode, this.mac, this.dir, chain := cipher, mode, mac, dir, iv;
      output, pending, wait, length := [], false, 0, 0;
    }

    ghost predicate Valid() reads this {
      && Permutation(cipher) && Counts(mode, cipher.size) && |chain| == cipher.size
      && (pending ==> |output| == cipher.size)
    }

    ghost predicate Idle() reads this { Valid() && !pending }

    // the INPUT_READY and OUTPUT_READY bits of CTRL: either keeps its value until data moves

    predicate InputReady() reads this { wait == 0 && !pending }

    predicate OutputReady() reads this { wait == 0 && pending }

    method PollInput() returns (ready: bool)
      modifies `wait
      ensures ready == old(InputReady()) && (ready ==> wait == old(wait))
      ensures wait < old(wait) || wait == old(wait) == 0
    {
      ready := wait == 0 && !pending;
      if wait > 0 { wait := wait - 1; }
    }

    method PollOutput() returns (ready: bool)
      modifies `wait
      ensures ready == old(OutputReady()) && (ready ==> wait == old(wait))
      ensures wait < old(wait) || wait == old(wait) == 0
    {
      ready := wait == 0 && pending;
      if wait > 0 { wait := wait - 1; }
    }

    method AwaitInput()
      requires Idle()
      modifies `wait
      ensures InputReady()
    {
      var ready := PollInput();
      while !ready
        invariant ready ==> InputReady()
        decreases wait, !ready
      {
        ready := PollInput();
      }
    }

    method AwaitOutput()
      requires Valid() && pending
      modifies `wait
      ensures OutputReady()
    {
      var ready := PollOutput();
      while !ready
        invariant ready ==> OutputReady()
        decreases wait, !ready
      {
        ready := PollOutput();
      }
    }

    /** Writing the last data register starts the block. */
    method WriteData(x: Block)
      requires Idle() && InputReady() && |x| == cipher.size
      modifies `chain, `output, `pending, `wait
      ensures Valid() && pending == !mac
      ensures output == Apply(cipher, mode, dir, old(chain), x)
      ensures chain == Next(mode, dir, old(chain), x, output)
    {
      ApplySize(cipher, mode, dir, chain, x);
      output := Apply(cipher, mode, dir, chain, x);
      chain := Next(mode, dir, chain, x, output);
      pending := !mac;
      var polls: nat :| true;
      wait := polls;
    }

    method ReadData() returns (y: Block)
      requires Valid() && OutputReady()
      modifies `pending, `wait
      ensures Idle() && y == output
    {
      y := output;
      pending := false;
      var polls: nat :| true;
      wait := polls;
    }

    method WriteLength(n: nat)
      modifies `length
      ensures length == n
    {
      length := n;
    }
  }

  // ----- buffers, copied a byte at a time

  /** The zeroed local block, filled with the first bytes of the source. */
  method CopyIn(src: array<Byte>, off: nat, length: nat, size: nat) returns (x: Block)
    requires length <= size && off + length <= src.Length
    ensures x == Pad(size, src[..][off..off + length])
  {
    x := seq(size, i => 0);
    for i := 0 to length
      invariant |x| == size
      invariant forall j :: 0 <= j < size ==> x[j] == if j < i then src[off + j] else 0
    {
      x := x[i := src[off + i]];
    }
  }

  method CopyOut(y: Block, dest: array<Byte>, off: nat, length: nat)
    requires length <= |y| && off + length <= dest.Length
    modifies dest
    ensures dest[..] == Spliced(old(dest[..]), off, y[..length])
  {
    for i := 0 to length
      invariant forall j :: 0 <= j < off || off + i <= j < dest.Length ==> dest[j] == old(dest[j])
      invariant forall j :: off <= j < off + i ==> dest[j] == y[j - off]
    {
      dest[off + i] := y[i];
    }
  }

  function Spliced(s: seq<Byte>, off: nat, b: seq<Byte>): (r: seq<Byte>)
    requires off + |b| <= |s|
    ensures |r| == |s|
    ensures forall j :: 0 <= j < |s| ==> r[j] == if off <= j < off + |b| then b[j - off] else s[j]
  {
    s[..off] + b + s[off + |b|..]
  }

  // ----- a loop part way through a message

  /** `pos` bytes of the message are done: the engine and the output so far add up to the whole message's. */
  ghost predicate Midway(c: Cipher, m: Mode, d: Dir, iv: Block, input: seq<Byte>, pos: nat, chain: Block,
                         got: seq<Byte>)
  {
    && c.size > 0 && |got| == pos <= |input|
    && got + Transform(c, m, d, chain, input[pos..]) == Transform(c, m, d, iv, input)
    && ChainAfter(c, m, d, chain, input[pos..]) == ChainAfter(c, m, d, iv, input)
  }

  lemma MidwayStart(c: Cipher, m: Mode, d: Dir, iv: Block, input: seq<Byte>)
    requires c.size > 0
    ensures Midway(c, m, d, iv, input, 0, iv, [])
  {
    assert input[0..] == input;
    assert [] + Transform(c, m, d, iv, input) == Transform(c, m, d, iv, input);
  }

  lemma MidwayStep(c: Cipher, m: Mode, d: Dir, iv: Block, input: seq<Byte>, pos: nat, chain: Block, got: seq<Byte>)
    requires Midway(c, m, d, iv, input, pos, chain, got) && pos + c.size <= |input|
    requires Permutation(c) && Counts(m, c.size) && |chain| == c.size
    ensures var x := input[pos..pos + c.size];
            var y := Apply(c, m, d, chain, x);
            Midway(c, m, d, iv, input, pos + c.size, Next(m, d, chain, x, y), got + y)
  {
    var x, rest := input[pos..pos + c.size], input[pos + c.size..];
    assert input[pos..] == x + rest;
    var y := Apply(c, m, d, chain, x);
    ApplySize(c, m, d, chain, x);
    TransformFirst(c, m, d, chain, x, rest);
    Assoc(got, y, Transform(c, m, d, Next(m, d, chain, x, y), rest));
  }

  lemma MidwayEnd(c: Cipher, m: Mode, d: Dir, iv: Block, input: seq<Byte>, chain: Block, got: seq<Byte>)
    requires Midway(c, m, d, iv, input, |input|, chain, got)
    ensures got == Transform(c, m, d, iv, input) && chain == ChainAfter(c, m, d, iv, input)
  {
    assert input[|input|..] == [];
    assert Transform(c, m, d, chain, []) == [];
    assert got + [] == got;
  }

  /** One block through the engine: `rem` bytes from `off` of one buffer, padded; as many back to `off` of another. */
  ghost predicate OneBlock(c: Cipher, m: Mode, d: Dir, before: Block, from: seq<Byte>, to: seq<Byte>, off: nat,
                           rem: nat, final: seq<Byte>, after: Block)
    requires rem <= c.size && off + rem <= |from| && off + rem <= |to|
  {
    var x := Pad(c.size, from[off..off + rem]);
    var y := Apply(c, m, d, before, x);
    && |y| == c.size
    && final == Spliced(to, off, y[..rem])
    && after == Next(m, d, before, x, y)
  }

  /** Part way through, the source still holds the rest of the message, and the destination the output so far. */
  ghost predicate Buffers(src: seq<Byte>, dest: seq<Byte>, input: seq<Byte>, pos: nat, got: seq<Byte>, was: seq<Byte>) {
    && |got| == pos <= |input| <= |src| && |input| <= |dest| == |was|
    && (forall j :: pos <= j < |input| ==> src[j] == input[j])
    && (forall j :: 0 <= j < pos ==> dest[j] == got[j])
    && (forall j :: pos <= j < |was| ==> dest[j] == was[j])
  }

  lemma BuffersStart(src: seq<Byte>, dest: seq<Byte>, n: nat)
    requires n <= |src| && n <= |dest|
    ensures Buffers(src, dest, src[..n], 0, [], dest)
  {
  }

  lemma BuffersEnd(src: seq<Byte>, dest: seq<Byte>, input: seq<Byte>, got: seq<Byte>, was: seq<Byte>)
    requires Buffers(src, dest, input, |input|, got, was)
    ensures dest == got + was[|input|..]
  {
  }

  /** One round of a loop, after which the source is as it was or, if it is the same buffer, as the destination. */
  lemma RoundStep(c: Cipher, m: Mode, d: Dir, iv: Block, input: seq<Byte>, pos: nat, got: seq<Byte>, was: seq<Byte>,
                  src: seq<Byte>, dest: seq<Byte>, chain: Block, src': seq<Byte>, dest': seq<Byte>, chain': Block)
    returns (got': seq<Byte>)
    requires Permutation(c) && Counts(m, c.size) && |chain| == c.size && pos + c.size <= |input|
    requires Buffers(src, dest, input, pos, got, was) && Midway(c, m, d, iv, input, pos, chain, got)
    requires OneBlock(c, m, d, chain, src, dest, pos, c.size, dest', chain')
    requires src' == src || (src == dest && src' == dest')
    ensures Buffers(src', dest', input, pos + c.size, got', was)
    ensures Midway(c, m, d, iv, input, pos + c.size, chain', got')
  {
    var x := input[pos..pos + c.size];
    assert Pad(c.size, src[pos..pos + c.size]) == x;
    MidwayStep(c, m, d, iv, input, pos, chain, got);
    var y := Apply(c, m, d, chain, x);
    got' := got + y;
    SplicedBuffers(src, dest, input, pos, got, was, src', dest', y);
  }

  lemma SplicedBuffers(src: seq<Byte>, dest: seq<Byte>, input: seq<Byte>, pos: nat, got: seq<Byte>, was: seq<Byte>,
                       src': seq<Byte>, dest': seq<Byte>, y: Block)
    requires Buffers(src, dest, input, pos, got, was) && pos + |y| <= |input|
    requires dest' == Spliced(dest, pos, y[..|y|]) && (src' == src || (src == dest && src' == dest'))
    ensures Buffers(src', dest', input, pos + |y|, got + y, was)
  {
    assert y[..|y|] == y;
    forall j | 0 <= j < |dest'|
      ensures dest'[j] == if j < pos then got[j] else if j < pos + |y| then y[j - pos] else was[j]
    {
    }
  }
}
