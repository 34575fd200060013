/** Block-cipher modes of operation (NIST SP 800-38A, sections 6.1, 6.2, 6.3 and 6.5) over an abstract invertible
    cipher, as the standard's equations and as a chaining engine computes them. */
module BlockModes {
  import opened Bits
  import HashSpec

  type Block = seq<Byte>

  /** The block sizes of AES and DES. */
  predicate BlockSize(n: nat) { n == 16 || n == 8 }

  datatype Cipher = Cipher(size: nat, enc: Block -> Block, dec: Block -> Block)

  /** Forward and inverse cipher functions undo each other on blocks. */
  ghost predicate Permutation(c: Cipher) {
    && BlockSize(c.size)
    && (forall b: Block {:trigger c.enc(b)} :: |b| == c.size ==> |c.enc(b)| == c.size && c.dec(c.enc(b)) == b)
    && (forall b: Block {:trigger c.dec(b)} :: |b| == c.size ==> |c.dec(b)| == c.size && c.enc(c.dec(b)) == b)
  }

  datatype Mode = Ecb | Cbc | Cfb | Ctr(inc: Block -> Block)

  /** Incrementing a counter block gives a block. */
  ghost predicate Counts(m: Mode, size: nat) {
    m.Ctr? ==> forall b: Block :: |b| == size ==> |m.inc(b)| == size
  }

  datatype Dir = Encrypt | Decrypt

  function XorBlock(a: Block, b: Block): (r: Block)
    ensures |r| == |a|
  {
    seq(|a|, i requires 0 <= i < |a| => if i < |b| then HashSpec.XorByte(a[i], b[i]) else a[i])
  }

  /** Bit by bit, the exclusive or of the two blocks. */
  lemma XorBlockBits(a: Block, b: Block, i: nat, k: nat)
    requires i < |a| == |b|
    ensures Bit(XorBlock(a, b)[i], k) <==> (Bit(a[i], k) != Bit(b[i], k))
  {
    BitOfXor(a[i], b[i], k);
  }

  lemma XorByteTwice(x: Byte, y: Byte)
    ensures HashSpec.XorByte(HashSpec.XorByte(x, y), y) == x
  {
    forall i: nat ensures Bit(Xor(Xor(x, y), y), i) <==> Bit(x, i) {
      BitOfXor(Xor(x, y), y, i);
      BitOfXor(x, y, i);
    }
    SameBits(Xor(Xor(x, y), y), x);
  }

  lemma XorTwice(a: Block, b: Block)
    ensures XorBlock(XorBlock(a, b), b) == a
  {
    forall i | 0 <= i < |a| ensures XorBlock(XorBlock(a, b), b)[i] == a[i] {
      if i < |b| { XorByteTwice(a[i], b[i]); }
    }
  }

  // ----- the chaining engine

  /** One block through the engine, whose feedback register holds `chain`. */
  function Apply(c: Cipher, m: Mode, d: Dir, chain: Block, x: Block): Block {
    match m
    case Ecb => if d.Encrypt? then c.enc(x) else c.dec(x)
    case Cbc => if d.Encrypt? then c.enc(XorBlock(x, chain)) else XorBlock(c.dec(x), chain)
    case _ => XorBlock(x, c.enc(chain))
  }

  /** The feedback register after input x gave output y. */
  function Next(m: Mode, d: Dir, chain: Block, x: Block, y: Block): Block {
    match m
    case Ecb => chain
    case Ctr(inc) => inc(chain)
    case _ => if d.Encrypt? then y else x
  }

  function Process(c: Cipher, m: Mode, d: Dir, chain: Block, xs: seq<Block>): (ys: seq<Block>)
    ensures |ys| == |xs|
    decreases |xs|
  {
    if xs == [] then []
    else
      var y := Apply(c, m, d, chain, xs[0]);
      [y] + Process(c, m, d, Next(m, d, chain, xs[0], y), xs[1..])
  }

  /** The feedback register after a whole message. */
  function After(c: Cipher, m: Mode, d: Dir, chain: Block, xs: seq<Block>): Block
    decreases |xs|
  {
    if xs == [] then chain
    else After(c, m, d, Next(m, d, chain, xs[0], Apply(c, m, d, chain, xs[0])), xs[1..])
  }

  // ----- the standard's equations

  function Counter(inc: Block -> Block, first: Block, j: nat): Block
    decreases j
  {
    if j == 0 then first else Counter(inc, inc(first), j - 1)
  }

  /** Counter blocks are the first one and the increment of the one before. */
  lemma {:induction false} CounterSteps(inc: Block -> Block, first: Block, j: nat)
    ensures Counter(inc, first, 0) == first
    ensures Counter(inc, first, j + 1) == inc(Counter(inc, first, j))
    decreases j
  {
    if j > 0 { CounterSteps(inc, inc(first), j - 1); }
  }

  /** The block before block j of a sequence, or the initialization vector. */
  function Previous(iv: Block, bs: seq<Block>, j: nat): Block
    requires j <= |bs|
  {
    if j == 0 then iv else bs[j - 1]
  }

  /** Block j of the standard's ECB, CBC, CFB and CTR transformation of xs to ys. */
  predicate Equation(c: Cipher, m: Mode, d: Dir, iv: Block, xs: seq<Block>, ys: seq<Block>, j: nat)
    requires j < |xs| == |ys|
  {
    match m
    case Ecb => ys[j] == if d.Encrypt? then c.enc(xs[j]) else c.dec(xs[j])
    case Cbc =>
      ys[j] == if d.Encrypt? then c.enc(XorBlock(xs[j], Previous(iv, ys, j)))
               else XorBlock(c.dec(xs[j]), Previous(iv, xs, j))
    case Cfb => ys[j] == XorBlock(xs[j], c.enc(if d.Encrypt? then Previous(iv, ys, j) else Previous(iv, xs, j)))
    case Ctr(inc) => ys[j] == XorBlock(xs[j], c.enc(Counter(inc, iv, j)))
  }

  /** ys is xs transformed as the standard says, block by block. */
  ghost predicate Conforms(c: Cipher, m: Mode, d: Dir, iv: Block, xs: seq<Block>, ys: seq<Block>) {
    && |ys| == |xs|
    && forall j :: 0 <= j < |xs| ==> Equation(c, m, d, iv, xs, ys, j)
  }

  lemma {:induction false} ProcessConforms(c: Cipher, m: Mode, d: Dir, iv: Block, xs: seq<Block>)
    ensures Conforms(c, m, d, iv, xs, Process(c, m, d, iv, xs))
    decreases |xs|
  {
    if xs != [] {
      var ys := Process(c, m, d, iv, xs);
      var iv' := Next(m, d, iv, xs[0], ys[0]);
      ProcessConforms(c, m, d, iv', xs[1..]);
      forall j | 0 <= j < |xs| ensures Equation(c, m, d, iv, xs, ys, j) {
        if j > 0 {
          assert Equation(c, m, d, iv', xs[1..], ys[1..], j - 1);
          EquationShift(c, m, d, iv, iv', xs, ys, j);
        }
      }
    }
  }

  lemma EquationShift(c: Cipher, m: Mode, d: Dir, iv: Block, iv': Block, xs: seq<Block>, ys: seq<Block>, j: nat)
    requires 0 < j < |xs| == |ys| && iv' == Next(m, d, iv, xs[0], ys[0])
    requires Equation(c, m, d, iv', xs[1..], ys[1..], j - 1)
    ensures Equation(c, m, d, iv, xs, ys, j)
  {
    assert Previous(iv, xs, j) == if j == 1 then xs[0] else Previous(iv', xs[1..], j - 1);
    assert Previous(iv, ys, j) == if j == 1 then ys[0] else Previous(iv', ys[1..], j - 1);
  }

  /** The output of each mode in the standard's terms: the cipher, exclusive or, and the block before. */
  lemma ModeEquations(c: Cipher, m: Mode, d: Dir, iv: Block, xs: seq<Block>, j: nat)
    requires j < |xs|
    ensures var ys := Process(c, m, d, iv, xs);
            && (m.Ecb? && d.Encrypt? ==> ys[j] == c.enc(xs[j]))
            && (m.Ecb? && d.Decrypt? ==> ys[j] == c.dec(xs[j]))
            && (m.Cbc? && d.Encrypt? ==> ys[j] == c.enc(XorBlock(xs[j], if j == 0 then iv else ys[j - 1])))
            && (m.Cbc? && d.Decrypt? ==> ys[j] == XorBlock(c.dec(xs[j]), if j == 0 then iv else xs[j - 1]))
            && (m.Cfb? && d.Encrypt? ==> ys[j] == XorBlock(xs[j], c.enc(if j == 0 then iv else ys[j - 1])))
            && (m.Cfb? && d.Decrypt? ==> ys[j] == XorBlock(xs[j], c.enc(if j == 0 then iv else xs[j - 1])))
            && (m.Ctr? ==> ys[j] == XorBlock(xs[j], c.enc(Counter(m.inc, iv, j))))
  {
    ProcessConforms(c, m, d, iv, xs);
    assert Equation(c, m, d, iv, xs, Process(c, m, d, iv, xs), j);
  }

  lemma {:induction false} SameAt(c: Cipher, m: Mode, d: Dir, iv: Block, xs: seq<Block>, ys: seq<Block>,
                                  zs: seq<Block>, j: nat)
    requires Conforms(c, m, d, iv, xs, ys) && Conforms(c, m, d, iv, xs, zs) && j < |xs|
    ensures ys[j] == zs[j]
    decreases j
  {
    if j > 0 { SameAt(c, m, d, iv, xs, ys, zs, j - 1); }
    assert Equation(c, m, d, iv, xs, ys, j) && Equation(c, m, d, iv, xs, zs, j);
    assert Previous(iv, ys, j) == Previous(iv, zs, j);
  }

  /** The equations leave no choice: the engine's output is the only one. */
  lemma ConformsUnique(c: Cipher, m: Mode, d: Dir, iv: Block, xs: seq<Block>, ys: seq<Block>)
    requires Conforms(c, m, d, iv, xs, ys)
    ensures ys == Process(c, m, d, iv, xs)
  {
    ProcessConforms(c, m, d, iv, xs);
    forall j | 0 <= j < |xs| ensures ys[j] == Process(c, m, d, iv, xs)[j] {
      SameAt(c, m, d, iv, xs, ys, Process(c, m, d, iv, xs), j);
    }
  }

  // ----- decryption undoes encryption

  predicate AllBlocks(size: nat, xs: seq<Block>) {
    forall i :: 0 <= i < |xs| ==> |xs[i]| == size
  }

  lemma ApplySize(c: Cipher, m: Mode, d: Dir, chain: Block, x: Block)
    requires Permutation(c) && Counts(m, c.size) && |chain| == |x| == c.size
    ensures var y := Apply(c, m, d, chain, x); |y| == c.size && |Next(m, d, chain, x, y)| == c.size
  {
  }

  lemma {:induction false} ProcessSize(c: Cipher, m: Mode, d: Dir, chain: Block, xs: seq<Block>)
    requires Permutation(c) && Counts(m, c.size) && |chain| == c.size && AllBlocks(c.size, xs)
    ensures AllBlocks(c.size, Process(c, m, d, chain, xs)) && |After(c, m, d, chain, xs)| == c.size
    decreases |xs|
  {
    if xs != [] {
      ApplySize(c, m, d, chain, xs[0]);
      ProcessSize(c, m, d, Next(m, d, chain, xs[0], Apply(c, m, d, chain, xs[0])), xs[1..]);
    }
  }

  function Opposite(d: Dir): Dir {
    if d.Encrypt? then Decrypt else Encrypt
  }

  lemma UndoBlock(c: Cipher, m: Mode, d: Dir, chain: Block, x: Block)
    requires Permutation(c) && Counts(m, c.size) && |chain| == |x| == c.size
    ensures var y, o := Apply(c, m, d, chain, x), Opposite(d);
            && Apply(c, m, o, chain, y) == x
            && Next(m, o, chain, y, x) == Next(m, d, chain, x, y)
  {
    match m {
      case Ecb =>
      case Cbc =>
        if d.Encrypt? {
          XorTwice(x, chain);
        } else {
          XorTwice(c.dec(x), chain);
        }
      case _ => XorTwice(x, c.enc(chain));
    }
  }

  /** Either direction undoes the other, from the same initialization vector. */
  lemma {:induction false} UndoProcess(c: Cipher, m: Mode, d: Dir, iv: Block, xs: seq<Block>)
    requires Permutation(c) && Counts(m, c.size) && |iv| == c.size && AllBlocks(c.size, xs)
    ensures Process(c, m, Opposite(d), iv, Process(c, m, d, iv, xs)) == xs
    decreases |xs|
  {
    if xs != [] {
      var y := Apply(c, m, d, iv, xs[0]);
      ApplySize(c, m, d, iv, xs[0]);
      UndoBlock(c, m, d, iv, xs[0]);
      UndoProcess(c, m, d, Next(m, d, iv, xs[0], y), xs[1..]);
      assert Process(c, m, d, iv, xs)[1..] == Process(c, m, d, Next(m, d, iv, xs[0], y), xs[1..]);
    }
  }

  // ----- messages of bytes

  function Blocks(size: nat, bytes: seq<Byte>): (xs: seq<Block>)
    requires size > 0
    ensures AllBlocks(size, xs)
  {
    if |bytes| < size then [] else [bytes[..size]] + Blocks(size, bytes[size..])
  }

  function Flat(xs: seq<Block>): seq<Byte> {
    if xs == [] then [] else xs[0] + Flat(xs[1..])
  }

  lemma {:induction false} FlatOfBlocks(size: nat, bytes: seq<Byte>)
    requires BlockSize(size) && |bytes| % size == 0
    ensures Flat(Blocks(size, bytes)) == bytes
  {
    if |bytes| >= size {
      assert bytes == bytes[..size] + bytes[size..];
      FlatOfBlocks(size, bytes[size..]);
    }
  }

  lemma {:induction false} BlocksOfFlat(size: nat, xs: seq<Block>)
    requires size > 0 && AllBlocks(size, xs)
    ensures Blocks(size, Flat(xs)) == xs
    decreases |xs|
  {
    if xs != [] {
      BlocksOfFlat(size, xs[1..]);
      assert Flat(xs)[..size] == xs[0] && Flat(xs)[size..] == Flat(xs[1..]);
    }
  }

  /** The mode as a function of bytes. */
  function Transform(c: Cipher, m: Mode, d: Dir, iv: Block, bytes: seq<Byte>): seq<Byte>
    requires c.size > 0
  {
    Flat(Process(c, m, d, iv, Blocks(c.size, bytes)))
  }

  function ChainAfter(c: Cipher, m: Mode, d: Dir, iv: Block, bytes: seq<Byte>): Block
    requires c.size > 0
  {
    After(c, m, d, iv, Blocks(c.size, bytes))
  }

  lemma UndoTransform(c: Cipher, m: Mode, d: Dir, iv: Block, bytes: seq<Byte>)
    requires Permutation(c) && Counts(m, c.size) && |iv| == c.size && |bytes| % c.size == 0
    ensures Transform(c, m, Opposite(d), iv, Transform(c, m, d, iv, bytes)) == bytes
  {
    var xs := Blocks(c.size, bytes);
    ProcessSize(c, m, d, iv, xs);
    BlocksOfFlat(c.size, Process(c, m, d, iv, xs));
    UndoProcess(c, m, d, iv, xs);
    FlatOfBlocks(c.size, bytes);
  }

  /** The first block of a message, and the rest from the feedback it leaves. */
  lemma TransformFirst(c: Cipher, m: Mode, d: Dir, chain: Block, x: Block, rest: seq<Byte>)
    requires |x| == c.size > 0
    ensures var y := Apply(c, m, d, chain, x);
            && Transform(c, m, d, chain, x + rest) == y + Transform(c, m, d, Next(m, d, chain, x, y), rest)
            && ChainAfter(c, m, d, chain, x + rest) == ChainAfter(c, m, d, Next(m, d, chain, x, y), rest)
  {
    var xs, more := Blocks(c.size, x + rest), Blocks(c.size, rest);
    assert (x + rest)[..c.size] == x && (x + rest)[c.size..] == rest;
    assert xs == [x] + more;
    assert xs[0] == x && xs[1..] == more;
    var y := Apply(c, m, d, chain, x);
    var ys := Process(c, m, d, Next(m, d, chain, x, y), more);
    assert Process(c, m, d, chain, xs) == [y] + ys;
    assert ([y] + ys)[1..] == ys;
  }

  lemma {:induction false} BlocksConcat(size: nat, a: seq<Byte>, b: seq<Byte>)
    requires BlockSize(size) && |a| % size == 0
    ensures Blocks(size, a + b) == Blocks(size, a) + Blocks(size, b)
  {
    if |a| < size {
      assert a == [] && a + b == b;
    } else {
      assert (a + b)[..size] == a[..size] && (a + b)[size..] == a[size..] + b;
      BlocksConcat(size, a[size..], b);
    }
  }

  lemma {:induction false} FlatConcat(xs: seq<Block>, ys: seq<Block>)
    ensures Flat(xs + ys) == Flat(xs) + Flat(ys)
  {
    if xs == [] {
      assert xs + ys == ys;
    } else {
      FlatConcat(xs[1..], ys);
      assert (xs + ys)[1..] == xs[1..] + ys;
      Assoc(xs[0], Flat(xs[1..]), Flat(ys));
    }
  }

  lemma {:induction false} ProcessConcat(c: Cipher, m: Mode, d: Dir, iv: Block, xs: seq<Block>, ys: seq<Block>)
    ensures Process(c, m, d, iv, xs + ys) == Process(c, m, d, iv, xs) + Process(c, m, d, After(c, m, d, iv, xs), ys)
    ensures After(c, m, d, iv, xs + ys) == After(c, m, d, After(c, m, d, iv, xs), ys)
    decreases |xs|
  {
    if xs == [] {
      assert xs + ys == ys;
    } else {
      assert (xs + ys)[1..] == xs[1..] + ys;
      var y := Apply(c, m, d, iv, xs[0]);
      var iv' := Next(m, d, iv, xs[0], y);
      ProcessConcat(c, m, d, iv', xs[1..], ys);
      Assoc([y], Process(c, m, d, iv', xs[1..]), Process(c, m, d, After(c, m, d, iv', xs[1..]), ys));
    }
  }

  /** A message may be processed in parts of whole blocks. */
  lemma TransformConcat(c: Cipher, m: Mode, d: Dir, iv: Block, a: seq<Byte>, b: seq<Byte>)
    requires BlockSize(c.size) && |a| % c.size == 0
    ensures Transform(c, m, d, iv, a + b)
         == Transform(c, m, d, iv, a) + Transform(c, m, d, ChainAfter(c, m, d, iv, a), b)
    ensures ChainAfter(c, m, d, iv, a + b) == ChainAfter(c, m, d, ChainAfter(c, m, d, iv, a), b)
  {
    var xs, ys := Blocks(c.size, a), Blocks(c.size, b);
    BlocksConcat(c.size, a, b);
    ProcessConcat(c, m, d, iv, xs, ys);
    FlatConcat(Process(c, m, d, iv, xs), Process(c, m, d, After(c, m, d, iv, xs), ys));
  }

  lemma {:induction false} TransformSize(c: Cipher, m: Mode, d: Dir, iv: Block, bytes: seq<Byte>)
    requires Permutation(c) && Counts(m, c.size) && |iv| == c.size && |bytes| % c.size == 0
    ensures |Transform(c, m, d, iv, bytes)| == |bytes| && |ChainAfter(c, m, d, iv, bytes)| == c.size
    decreases |bytes|
  {
    if |bytes| >= c.size {
      var x, rest := bytes[..c.size], bytes[c.size..];
      assert bytes == x + rest;
      var y := Apply(c, m, d, iv, x);
      var chain := Next(m, d, iv, x, y);
      assert |y| == |chain| == c.size by { ApplySize(c, m, d, iv, x); }
      TransformFirst(c, m, d, iv, x, rest);
      TransformSize(c, m, d, chain, rest);
    }
  }

  /** A block padded with zeros, as the drivers' local buffers do. */
  function Pad(size: nat, bytes: seq<Byte>): (b: Block)
    requires |bytes| <= size
    ensures |b| == size && b[..|bytes|] == bytes
    ensures forall i :: |bytes| <= i < size ==> b[i] == 0
  {
    bytes + seq(size - |bytes|, i => 0)
  }

  // ----- the modes on bytes

  /** Where block j starts. */
  function Start(size: nat, j: nat): nat {
    if j == 0 then 0 else size + Start(size, j - 1)
  }

  lemma {:induction false} StartOf(size: nat, pos: nat)
    requires BlockSize(size) && pos % size == 0
    ensures Start(size, pos / size) == pos
  {
    if pos > 0 { StartOf(size, pos - size); }
  }

  lemma {:induction false} BlocksAt(size: nat, bytes: seq<Byte>, j: nat, pos: nat)
    requires size > 0 && pos == Start(size, j) && pos + size <= |bytes|
    ensures j < |Blocks(size, bytes)| && Blocks(size, bytes)[j] == bytes[pos..pos + size]
    decreases j
  {
    if j > 0 {
      BlocksAt(size, bytes[size..], j - 1, pos - size);
      SliceOfRest(bytes, size, pos - size, pos);
    }
  }

  lemma SliceOfRest(bytes: seq<Byte>, n: nat, lo: nat, hi: nat)
    requires lo <= hi && n + hi <= |bytes|
    ensures bytes[n..][lo..hi] == bytes[n + lo..n + hi]
  {
  }

  lemma BlockAndBefore(size: nat, bytes: seq<Byte>, j: nat, pos: nat)
    requires size > 0 && pos == Start(size, j) && pos + size <= |bytes|
    ensures var xs := Blocks(size, bytes);
            && j < |xs| && xs[j] == bytes[pos..pos + size]
            && (j == 0 <==> pos == 0)
            && (pos > 0 ==> pos >= size && xs[j - 1] == bytes[pos - size..pos])
  {
    BlocksAt(size, bytes, j, pos);
    if j > 0 { BlocksAt(size, bytes, j - 1, pos - size); }
  }

  lemma OutputBlocks(c: Cipher, m: Mode, d: Dir, iv: Block, bytes: seq<Byte>)
    requires Permutation(c) && Counts(m, c.size) && |iv| == c.size && |bytes| % c.size == 0
    ensures |Transform(c, m, d, iv, bytes)| == |bytes|
    ensures Blocks(c.size, Transform(c, m, d, iv, bytes)) == Process(c, m, d, iv, Blocks(c.size, bytes))
  {
    TransformSize(c, m, d, iv, bytes);
    ProcessSize(c, m, d, iv, Blocks(c.size, bytes));
    BlocksOfFlat(c.size, Process(c, m, d, iv, Blocks(c.size, bytes)));
  }

  /** The bytes at a block's place in the output, from the bytes there and one block before. */
  lemma ModeOnBytes(c: Cipher, m: Mode, d: Dir, iv: Block, bytes: seq<Byte>, pos: nat, out: seq<Byte>,
                    x: Block, y: Block, before: Block, after: Block)
    requires Permutation(c) && Counts(m, c.size) && |iv| == c.size && |bytes| % c.size == 0
    requires pos % c.size == 0 && pos + c.size <= |bytes|
    requires out == Transform(c, m, d, iv, bytes) && |out| == |bytes|
    requires x == bytes[pos..pos + c.size] && y == out[pos..pos + c.size]
    requires pos == 0 ==> before == after == iv
    requires pos > 0 ==> pos >= c.size && before == bytes[pos - c.size..pos] && after == out[pos - c.size..pos]
    ensures m.Ecb? && d.Encrypt? ==> y == c.enc(x)
    ensures m.Ecb? && d.Decrypt? ==> y == c.dec(x)
    ensures m.Cbc? && d.Encrypt? ==> y == c.enc(XorBlock(x, after))
    ensures m.Cbc? && d.Decrypt? ==> y == XorBlock(c.dec(x), before)
    ensures m.Cfb? && d.Encrypt? ==> y == XorBlock(x, c.enc(after))
    ensures m.Cfb? && d.Decrypt? ==> y == XorBlock(x, c.enc(before))
    ensures m.Ctr? ==> y == XorBlock(x, c.enc(Counter(m.inc, iv, pos / c.size)))
  {
    var xs, j := Blocks(c.size, bytes), pos / c.size;
    OutputBlocks(c, m, d, iv, bytes);
    StartOf(c.size, pos);
    BlockAndBefore(c.size, bytes, j, pos);
    BlockAndBefore(c.size, out, j, pos);
    ModeEquations(c, m, d, iv, xs, j);
  }

  function Slice(bytes: seq<Byte>, pos: nat, n: nat): (b: Block)
    requires pos + n <= |bytes|
    ensures b == bytes[pos..pos + n]
  {
    bytes[pos..pos + n]
  }

  /** The block before the one at `pos`, or the initialization vector. */
  function SliceBefore(iv: Block, bytes: seq<Byte>, pos: nat, n: nat): (b: Block)
    requires pos <= |bytes| && n > 0
    ensures pos == 0 ==> b == iv
    ensures pos >= n ==> b == bytes[pos - n..pos]
  {
    if pos < n then iv else bytes[pos - n..pos]
  }

  /** The standard's equations for every block of the output. */
  lemma TransformModes(c: Cipher, m: Mode, d: Dir, iv: Block, bytes: seq<Byte>, out: seq<Byte>)
    requires Permutation(c) && Counts(m, c.size) && |iv| == c.size && |bytes| % c.size == 0
    requires out == Transform(c, m, d, iv, bytes)
    ensures |out| == |bytes|
    ensures forall pos :: 0 <= pos && pos % c.size == 0 && pos + c.size <= |bytes| ==>
              var x, y := Slice(bytes, pos, c.size), Slice(out, pos, c.size);
              var before, after := SliceBefore(iv, bytes, pos, c.size), SliceBefore(iv, out, pos, c.size);
              && (m.Ecb? && d.Encrypt? ==> y == c.enc(x))
              && (m.Ecb? && d.Decrypt? ==> y == c.dec(x))
              && (m.Cbc? && d.Encrypt? ==> y == c.enc(XorBlock(x, after)))
              && (m.Cbc? && d.Decrypt? ==> y == XorBlock(c.dec(x), before))
              && (m.Cfb? && d.Encrypt? ==> y == XorBlock(x, c.enc(after)))
              && (m.Cfb? && d.Decrypt? ==> y == XorBlock(x, c.enc(before)))
              && (m.Ctr? ==> y == XorBlock(x, c.enc(Counter(m.inc, iv, pos / c.size))))
  {
    OutputBlocks(c, m, d, iv, bytes);
    forall pos | 0 <= pos && pos % c.size == 0 && pos + c.size <= |bytes|
      ensures var x, y := Slice(bytes, pos, c.size), Slice(out, pos, c.size);
              var before, after := SliceBefore(iv, bytes, pos, c.size), SliceBefore(iv, out, pos, c.size);
              && (m.Ecb? && d.Encrypt? ==> y == c.enc(x))
              && (m.Ecb? && d.Decrypt? ==> y == c.dec(x))
              && (m.Cbc? && d.Encrypt? ==> y == c.enc(XorBlock(x, after)))
              && (m.Cbc? && d.Decrypt? ==> y == XorBlock(c.dec(x), before))
              && (m.Cfb? && d.Encrypt? ==> y == XorBlock(x, c.enc(after)))
              && (m.Cfb? && d.Decrypt? ==> y == XorBlock(x, c.enc(before)))
              && (m.Ctr? ==> y == XorBlock(x, c.enc(Counter(m.inc, iv, pos / c.size))))
    {
      PosIsMultiple(pos, c.size);
      ModeOnBytes(c, m, d, iv, bytes, pos, out, Slice(bytes, pos, c.size), Slice(out, pos, c.size),
                  SliceBefore(iv, bytes, pos, c.size), SliceBefore(iv, out, pos, c.size));
    }
  }

  lemma PosIsMultiple(pos: nat, size: nat)
    requires BlockSize(size) && pos % size == 0
    ensures pos == 0 || pos >= size
  {
  }
}
