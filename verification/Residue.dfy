/** The bytes after the last whole block: where the AES and DES drivers take them from, and what that leaves undone. */
module Residue {
  import opened Bits
  import opened BlockModes
  import opened BlockEngine

  /** The drivers multiply the block count by itself, in 32 bits, to address the residue. */
  function Offset(blocks: nat): nat {
    blocks * blocks % TWO32
  }

  /** The accesses for a message of `length` bytes stay inside a buffer of `capacity` bytes. */
  predicate Fits(size: nat, length: nat, capacity: nat)
    requires size > 0
  {
    length <= capacity && (length % size != 0 ==> Offset(length / size) + length % size <= capacity)
  }

  /** How a call ends: it returns, or it comes to an access outside a buffer, beyond which nothing is modelled. */
  datatype Outcome = Done(ok: bool) | Overrun

  /** The destination after the loop over whole blocks. */
  function Whole(c: Cipher, m: Mode, d: Dir, iv: Block, src: seq<Byte>, was: seq<Byte>, n: nat): seq<Byte>
    requires c.size > 0 && n <= |src| && n <= |was|
  {
    Transform(c, m, d, iv, src[..n]) + was[n..]
  }

  /** The two steps of a processing call: `whole` is the destination after the whole blocks, `final` at the end. The
      residue comes from the source, or from the destination if that is the same buffer. */
  ghost predicate Processed(c: Cipher, m: Mode, d: Dir, iv: Block, src: seq<Byte>, was: seq<Byte>, same: bool,
                            length: nat, whole: seq<Byte>, final: seq<Byte>, chain: Block)
    requires Permutation(c) && Fits(c.size, length, |src|) && Fits(c.size, length, |was|)
  {
    var rem, off := length % c.size, Offset(length / c.size);
    var n := length - rem;
    var mid := ChainAfter(c, m, d, iv, src[..n]);
    && whole == Whole(c, m, d, iv, src, was, n) && |whole| == |was|
    && if rem == 0 then final == whole && chain == mid
       else OneBlock(c, m, d, mid, if same then whole else src, whole, off, rem, final, chain)
  }

  lemma ProcessedInTwoSteps(c: Cipher, m: Mode, d: Dir, iv: Block, src: seq<Byte>, was: seq<Byte>, same: bool,
                            length: nat, n: nat, rem: nat, whole: seq<Byte>, mid: Block, final: seq<Byte>, chain: Block)
    requires Permutation(c) && Fits(c.size, length, |src|) && Fits(c.size, length, |was|)
    requires rem == length % c.size && n == length - rem && mid == ChainAfter(c, m, d, iv, src[..n])
    requires whole == Whole(c, m, d, iv, src, was, n) && |whole| == |was|
    requires rem == 0 ==> final == whole && chain == mid
    requires rem != 0 ==>
               OneBlock(c, m, d, mid, if same then whole else src, whole, Offset(length / c.size), rem, final, chain)
    ensures Processed(c, m, d, iv, src, was, same, length, whole, final, chain)
  {
  }

  /** The C expression of the address, once the loop has counted all blocks. */
  method Address(count: nat, blocks: nat) returns (off: nat)
    requires count == blocks
    ensures off == Offset(blocks)
  {
    off := count * blocks % TWO32;
  }

  // ----- when the residue stays inside the message's own bytes

  /** In a buffer that ends with the message, for every length: the accesses stay inside if and only if the address
      is not beyond the end of the whole blocks; below 2^16 blocks, if and only if there are at most `size` of them,
      and otherwise the whole residue access lies outside. */
  lemma OverrunsExactly(size: nat, length: nat)
    requires BlockSize(size) && length < TWO32
    ensures Fits(size, length, length) <==> length % size == 0 || Offset(length / size) <= length - length % size
    ensures length / size < TWO16 ==> (Fits(size, length, length) <==> length % size == 0 || length / size <= size)
    ensures size < length / size < TWO16 ==> Offset(length / size) >= length
  {
    var blocks := length / size;
    WholeBlocks(length, size);
    if blocks < TWO16 {
      SquareFits(blocks);
      if blocks <= size {
        SmallSquare(size, blocks);
      } else {
        LargeSquare(size, blocks);
      }
    }
  }

  lemma SquareFits(b: nat)
    requires b < TWO16
    ensures Offset(b) == b * b
  {
    var most := TWO16 - 1;
    Grows(b, most, b);
    Grows(b, most, most);
  }

  lemma Grows(a: nat, b: nat, c: nat)
    requires a <= b
    ensures a * c <= b * c
  {
  }

  lemma SmallSquare(size: nat, b: nat)
    requires b <= size
    ensures b * b <= size * b
  {
    Grows(b, size, b);
  }

  lemma LargeSquare(size: nat, b: nat)
    requires b > size
    ensures b * b >= size * b + b > size * b + size
  {
    Grows(size + 1, b, b);
    assert (size + 1) * b == size * b + b;
  }

  /** For example, a message of 273 bytes: the last one is taken from, and put back at, address 289. */
  lemma Overrun273()
    ensures Offset(273 / 16) == 289 && !Fits(16, 273, 273)
  {
    OverrunsExactly(16, 273);
  }

  // ----- when the residue is the right one

  lemma {:induction false} TwoAdic(b: nat, s: nat, e: nat, k: int)
    requires 2 * s <= e && b < Pow2(e - s) && b * (b - Pow2(s)) == Pow2(e) * k
    ensures b == 0 || b == Pow2(s)
    decreases s
  {
    if s == 0 {
      Consecutive(b, e, k);
    } else {
      var half, c, p := Pow2(s - 1), b / 2, Pow2(e - 2);
      assert Pow2(e) == 4 * p && Pow2(s) == 2 * half && Pow2(e - s) == 2 * Pow2(e - 2 - (s - 1));
      EvenFactor(b, half, 2 * p * k) by { assert 2 * (2 * p * k) == Pow2(e) * k; }
      Halve(c, half, p, k);
      TwoAdic(c, s - 1, e - 2, k);
    }
  }

  lemma EvenFactor(b: nat, half: nat, q: int)
    requires b * (b - 2 * half) == 2 * q
    ensures b == 2 * (b / 2)
  {
    var c, r := b / 2, b % 2;
    assert b == 2 * c + r && r * r == r;
    assert b * (b - 2 * half) == 2 * (2 * c * c + 2 * c * r - b * half) + r;
  }

  lemma Halve(c: nat, half: nat, p: nat, k: int)
    requires 2 * c * (2 * c - 2 * half) == 4 * p * k
    ensures c * (c - half) == p * k
  {
    assert 2 * c * (2 * c - 2 * half) == 4 * (c * (c - half));
    assert 4 * p * k == 4 * (p * k);
  }

  /** Of two consecutive numbers one is odd, so all factors two are in the other. */
  lemma Consecutive(b: nat, e: nat, k: int)
    requires b < Pow2(e) && b * (b - 1) == Pow2(e) * k
    ensures b == 0 || b == 1
  {
    var p := Pow2(e);
    if b % 2 == 1 {
      var q := OddFactor(b, b - 1, e, k);
      SmallMultiple(b - 1, p, q);
    } else {
      var q := OddFactor(b - 1, b, e, k);
      SmallMultiple(b, p, q);
    }
  }

  lemma SmallMultiple(x: int, p: int, q: int)
    requires x == p * q && 0 <= x < p
    ensures x == 0
  {
    assert q >= 1 ==> p * q >= p;
    assert q <= -1 ==> p * q <= -p;
  }

  lemma {:induction false} OddFactor(a: int, b: int, e: nat, k: int) returns (q: int)
    requires a % 2 == 1 && a * b == Pow2(e) * k
    ensures b == Pow2(e) * q
    decreases e
  {
    if e == 0 {
      q := b;
    } else {
      var p, c := Pow2(e - 1), b / 2;
      assert Pow2(e) == 2 * p;
      OddTimes(a, b, p * k) by { assert Pow2(e) * k == 2 * (p * k); }
      assert a * c == p * k by { TwiceHalf(a, c, p, k); }
      q := OddFactor(a, c, e - 1, k);
      assert 2 * (p * q) == 2 * p * q;
    }
  }

  lemma OddTimes(a: int, b: int, q: int)
    requires a % 2 == 1 && a * b == 2 * q
    ensures b == 2 * (b / 2)
  {
    var h := a / 2;
    assert a * b == 2 * (h * b) + b;
  }

  lemma TwiceHalf(a: int, c: int, p: int, k: int)
    requires a * (2 * c) == 2 * p * k
    ensures a * c == p * k
  {
    assert a * (2 * c) == 2 * (a * c);
    assert 2 * p * k == 2 * (p * k);
  }

  /** The residue's address is the end of the whole blocks for two block counts only. */
  lemma OffsetRight(size: nat, blocks: nat)
    requires BlockSize(size) && size * blocks < TWO32
    ensures Offset(blocks) == size * blocks <==> blocks == 0 || blocks == size
  {
    var square := blocks * blocks;
    if blocks == size {
      assert square == size * blocks;
    } else if Offset(blocks) == size * blocks {
      var k := square / TWO32;
      assert square == TWO32 * k + size * blocks;
      assert blocks * (blocks - size) == square - size * blocks;
      Pow2At32();
      if size == 16 {
        Pow2At28();
        assert Pow2(4) == 16;
        TwoAdic(blocks, 4, 32, k);
      } else {
        Pow2At29();
        assert Pow2(3) == 8;
        TwoAdic(blocks, 3, 32, k);
      }
    }
  }

  lemma Pow2At28()
    ensures Pow2(28) == 0x1000_0000
  {
    Pow2Sum(14, 14);
    assert Pow2(14) == 0x4000 by { Pow2Sum(7, 7); assert Pow2(7) == 128; }
  }

  lemma Pow2At29()
    ensures Pow2(29) == 0x2000_0000
  {
    Pow2At28();
  }

  // ----- what that means for the output

  lemma WholePart(length: nat, size: nat)
    requires size > 0
    ensures var n := length - length % size; n >= 0 && n % size == 0 && (n + size) % size == 0
  {
    var q := length / size;
    ModUnique(length - length % size, size, q, 0);
    ModUnique(length - length % size + size, size, q + 1, 0);
  }

  /** The message padded with zeros to whole blocks. */
  function PaddedMessage(size: nat, src: seq<Byte>, length: nat): (bytes: seq<Byte>)
    requires size > 0 && length <= |src|
    ensures |bytes| % size == 0 && length <= |bytes| < length + size
    ensures bytes[..length] == src[..length]
    ensures forall i :: length <= i < |bytes| ==> bytes[i] == 0
  {
    WholePart(length, size);
    var rem := length % size;
    if rem == 0 then src[..length] else src[..length - rem] + Pad(size, src[length - rem..length])
  }

  /** With 0 or `size` whole blocks, the output is the mode function of the padded message, even in place. */
  lemma RightResidue(c: Cipher, m: Mode, d: Dir, iv: Block, src: seq<Byte>, was: seq<Byte>, same: bool, length: nat,
                     whole: seq<Byte>, final: seq<Byte>, chain: Block)
    requires Permutation(c) && Counts(m, c.size) && |iv| == c.size
    requires length < TWO32 && (length / c.size == 0 || length / c.size == c.size)
    requires Fits(c.size, length, |src|) && Fits(c.size, length, |was|) && (same ==> src == was)
    requires Processed(c, m, d, iv, src, was, same, length, whole, final, chain)
    requires length % c.size != 0
    ensures length <= |final| && final[..length] <= Transform(c, m, d, iv, PaddedMessage(c.size, src, length))
  {
    var rem := length % c.size;
    WholeBlocks(length, c.size);
    RightAddress(c.size, length);
    RightResidueAt(c, m, d, iv, src, was, same, length - rem, rem, length, final, chain);
  }

  lemma RightResidueAt(c: Cipher, m: Mode, d: Dir, iv: Block, src: seq<Byte>, was: seq<Byte>, same: bool, n: nat,
                       rem: nat, length: nat, final: seq<Byte>, chain: Block)
    requires Permutation(c) && Counts(m, c.size) && |iv| == c.size
    requires length == n + rem && length <= |src| && length <= |was| && (same ==> src == was)
    requires n % c.size == 0 && rem < c.size
    requires var whole := Whole(c, m, d, iv, src, was, n);
             && |whole| == |was|
             && OneBlock(c, m, d, ChainAfter(c, m, d, iv, src[..n]), if same then whole else src, whole, n, rem,
                         final, chain)
    ensures length <= |final| && final[..length] <= Transform(c, m, d, iv, src[..n] + Pad(c.size, src[n..length]))
  {
    var bytes, x := src[..n], Pad(c.size, src[n..length]);
    var whole := Whole(c, m, d, iv, src, was, n);
    TransformSize(c, m, d, iv, bytes);
    if same { WholeTail(Transform(c, m, d, iv, bytes), was, n, length); }
    TransformOneMore(c, m, d, iv, bytes, x);
    SplicedAtEnd(Transform(c, m, d, iv, bytes), was, n, Apply(c, m, d, ChainAfter(c, m, d, iv, bytes), x), rem, final);
  }

  lemma WholeTail(out: seq<Byte>, was: seq<Byte>, n: nat, length: nat)
    requires |out| == n <= length <= |was|
    ensures (out + was[n..])[n..length] == was[n..length]
  {
  }

  lemma SplicedAtEnd(out: seq<Byte>, was: seq<Byte>, n: nat, y: Block, rem: nat, final: seq<Byte>)
    requires |out| == n && n + rem <= |was| && rem <= |y|
    requires final == Spliced(out + was[n..], n, y[..rem])
    ensures n + rem <= |final| && final[..n + rem] <= out + y
  {
    assert final[..n + rem] == out + y[..rem];
  }

  lemma TransformOneMore(c: Cipher, m: Mode, d: Dir, iv: Block, bytes: seq<Byte>, x: Block)
    requires BlockSize(c.size) && |bytes| % c.size == 0 && |x| == c.size
    ensures Transform(c, m, d, iv, bytes + x)
         == Transform(c, m, d, iv, bytes) + Apply(c, m, d, ChainAfter(c, m, d, iv, bytes), x)
    ensures var mid := ChainAfter(c, m, d, iv, bytes);
            ChainAfter(c, m, d, iv, bytes + x) == Next(m, d, mid, x, Apply(c, m, d, mid, x))
  {
    TransformConcat(c, m, d, iv, bytes, x);
    OneBlockAlone(c, m, d, ChainAfter(c, m, d, iv, bytes), x);
  }

  lemma OneBlockAlone(c: Cipher, m: Mode, d: Dir, chain: Block, x: Block)
    requires |x| == c.size > 0
    ensures Transform(c, m, d, chain, x) == Apply(c, m, d, chain, x)
    ensures ChainAfter(c, m, d, chain, x) == Next(m, d, chain, x, Apply(c, m, d, chain, x))
  {
    TransformFirst(c, m, d, chain, x, []);
    assert x + [] == x;
    var y := Apply(c, m, d, chain, x);
    assert Transform(c, m, d, Next(m, d, chain, x, y), []) == [] && y + [] == y;
  }

  lemma WholeBlocks(length: nat, size: nat)
    requires BlockSize(size)
    ensures (length - length % size) % size == 0 && length - length % size == size * (length / size)
  {
  }

  /** A byte of the residue that a wrong address misses. */
  function Missed(size: nat, length: nat): (j: nat)
    requires BlockSize(size) && length % size != 0
    ensures length - length % size <= j < length
  {
    if Offset(length / size) < length - length % size then length - 1 else length - length % size
  }

  /** With any other number of whole blocks that byte of the destination keeps its old value. */
  lemma WrongResidue(c: Cipher, m: Mode, d: Dir, iv: Block, src: seq<Byte>, was: seq<Byte>, same: bool, length: nat,
                     whole: seq<Byte>, final: seq<Byte>, chain: Block)
    requires Permutation(c) && Counts(m, c.size) && |iv| == c.size
    requires length < TWO32 && length / c.size != 0 && length / c.size != c.size && length % c.size != 0
    requires Fits(c.size, length, |src|) && Fits(c.size, length, |was|)
    requires Processed(c, m, d, iv, src, was, same, length, whole, final, chain)
    ensures |final| == |was| && final[Missed(c.size, length)] == was[Missed(c.size, length)]
  {
    WrongAddress(c.size, length);
    var rem := length % c.size;
    WholeBlocks(length, c.size);
    WrongResidueAt(c, m, d, iv, src, was, length - rem, rem, Offset(length / c.size),
                   if same then whole else src, final, chain);
  }

  lemma WrongAddress(size: nat, length: nat)
    requires BlockSize(size) && length < TWO32 && length / size != 0 && length / size != size
    ensures Offset(length / size) != length - length % size
  {
    WholeBlocks(length, size);
    OffsetRight(size, length / size);
  }

  lemma WrongResidueAt(c: Cipher, m: Mode, d: Dir, iv: Block, src: seq<Byte>, was: seq<Byte>, n: nat, rem: nat,
                       off: nat, from: seq<Byte>, final: seq<Byte>, chain: Block)
    requires Permutation(c) && Counts(m, c.size) && |iv| == c.size && n % c.size == 0 && off != n
    requires n <= |src| && 0 < rem < c.size && n + rem <= |was| && off + rem <= |was| && off + rem <= |from|
    requires var whole := Whole(c, m, d, iv, src, was, n);
             && |whole| == |was|
             && OneBlock(c, m, d, ChainAfter(c, m, d, iv, src[..n]), from, whole, off, rem, final, chain)
    ensures var j := if off < n then n + rem - 1 else n; |final| == |was| && final[j] == was[j]
  {
    TransformSize(c, m, d, iv, src[..n]);
    var x := Pad(c.size, from[off..off + rem]);
    MissedByte(Transform(c, m, d, iv, src[..n]), was, n, rem, off,
               Apply(c, m, d, ChainAfter(c, m, d, iv, src[..n]), x)[..rem], final);
  }

  lemma MissedByte(out: seq<Byte>, was: seq<Byte>, n: nat, rem: nat, off: nat, b: seq<Byte>, final: seq<Byte>)
    requires |out| == n && |b| == rem > 0 && n + rem <= |was| && off + rem <= |was| && off != n
    requires final == Spliced(out + was[n..], off, b)
    ensures var j := if off < n then n + rem - 1 else n; |final| == |was| && final[j] == was[j]
  {
  }

  // ----- exactly when the driver delivers the message

  /** Whatever the destination held, the call returns and leaves the mode function of the padded message in it. */
  ghost predicate Delivers(c: Cipher, m: Mode, d: Dir, iv: Block, src: seq<Byte>, capacity: nat, length: nat)
    requires Permutation(c) && length <= |src|
  {
    && Fits(c.size, length, |src|) && Fits(c.size, length, capacity)
    && forall was, whole, final, chain ::
         |was| == capacity && Processed(c, m, d, iv, src, was, false, length, whole, final, chain) ==>
           length <= |final| && final[..length] <= Transform(c, m, d, iv, PaddedMessage(c.size, src, length))
  }

  /** For every cipher, mode, message and length, and separate buffers of any size: the driver delivers if and only if
      the message is whole blocks, or has 0 or `size` of them. */
  lemma DeliversExactly(c: Cipher, m: Mode, d: Dir, iv: Block, src: seq<Byte>, capacity: nat, length: nat)
    requires Permutation(c) && Counts(m, c.size) && |iv| == c.size
    requires length < TWO32 && length <= |src| && length <= capacity
    ensures Delivers(c, m, d, iv, src, capacity, length)
            <==> length % c.size == 0 || length / c.size == 0 || length / c.size == c.size
  {
    if length % c.size == 0 {
      DeliversWhole(c, m, d, iv, src, capacity, length);
    } else if length / c.size == 0 || length / c.size == c.size {
      DeliversFew(c, m, d, iv, src, capacity, length);
    } else if Fits(c.size, length, |src|) && Fits(c.size, length, capacity) {
      NotDelivered(c, m, d, iv, src, capacity, length);
    }
  }

  lemma DeliversWhole(c: Cipher, m: Mode, d: Dir, iv: Block, src: seq<Byte>, capacity: nat, length: nat)
    requires Permutation(c) && Counts(m, c.size) && |iv| == c.size
    requires length <= |src| && length <= capacity && length % c.size == 0
    ensures Delivers(c, m, d, iv, src, capacity, length)
  {
    TransformSize(c, m, d, iv, src[..length]);
  }

  lemma DeliversFew(c: Cipher, m: Mode, d: Dir, iv: Block, src: seq<Byte>, capacity: nat, length: nat)
    requires Permutation(c) && Counts(m, c.size) && |iv| == c.size && length < TWO32
    requires length <= |src| && length <= capacity && length % c.size != 0
    requires length / c.size == 0 || length / c.size == c.size
    ensures Delivers(c, m, d, iv, src, capacity, length)
  {
    RightAddress(c.size, length);
    forall was, whole, final, chain
      | |was| == capacity && Processed(c, m, d, iv, src, was, false, length, whole, final, chain)
      ensures length <= |final| && final[..length] <= Transform(c, m, d, iv, PaddedMessage(c.size, src, length))
    {
      RightResidue(c, m, d, iv, src, was, false, length, whole, final, chain);
    }
  }

  lemma RightAddress(size: nat, length: nat)
    requires BlockSize(size) && length < TWO32 && (length / size == 0 || length / size == size)
    ensures Offset(length / size) == length - length % size
  {
    WholeBlocks(length, size);
    OffsetRight(size, length / size);
  }

  /** A destination in which the missed byte is not what it should become. */
  lemma NotDelivered(c: Cipher, m: Mode, d: Dir, iv: Block, src: seq<Byte>, capacity: nat, length: nat)
    requires Permutation(c) && Counts(m, c.size) && |iv| == c.size
    requires length < TWO32 && Fits(c.size, length, |src|) && Fits(c.size, length, capacity)
    requires length / c.size != 0 && length / c.size != c.size && length % c.size != 0
    ensures !Delivers(c, m, d, iv, src, capacity, length)
  {
    var j, out := Missed(c.size, length), Transform(c, m, d, iv, PaddedMessage(c.size, src, length));
    var other: Byte := if j < |out| && out[j] == 0 then 1 else 0;
    var was: seq<Byte> := seq(capacity, i => other);
    var whole, final, chain := SomeProcessed(c, m, d, iv, src, was, length);
    WrongResidue(c, m, d, iv, src, was, false, length, whole, final, chain);
    NotPrefix(final, length, out, j);
  }

  lemma NotPrefix(a: seq<Byte>, n: nat, b: seq<Byte>, j: nat)
    requires j < n <= |a| && (j < |b| ==> a[j] != b[j])
    ensures !(a[..n] <= b)
  {
    assert a[..n][j] == a[j];
  }

  /** Every call that stays inside its buffers ends somehow. */
  lemma SomeProcessed(c: Cipher, m: Mode, d: Dir, iv: Block, src: seq<Byte>, was: seq<Byte>, length: nat)
    returns (whole: seq<Byte>, final: seq<Byte>, chain: Block)
    requires Permutation(c) && Counts(m, c.size) && |iv| == c.size && length % c.size != 0
    requires Fits(c.size, length, |src|) && Fits(c.size, length, |was|)
    ensures Processed(c, m, d, iv, src, was, false, length, whole, final, chain)
  {
    var rem, off := length % c.size, Offset(length / c.size);
    var n := length - rem;
    var mid := ChainAfter(c, m, d, iv, src[..n]);
    WholeBlocks(length, c.size);
    TransformSize(c, m, d, iv, src[..n]);
    whole := Whole(c, m, d, iv, src, was, n);
    final, chain := SomeOneBlock(c, m, d, mid, src, whole, off, rem);
    ProcessedInTwoSteps(c, m, d, iv, src, was, false, length, n, rem, whole, mid, final, chain);
  }

  lemma SomeOneBlock(c: Cipher, m: Mode, d: Dir, before: Block, from: seq<Byte>, to: seq<Byte>, off: nat, rem: nat)
    returns (final: seq<Byte>, after: Block)
    requires Permutation(c) && Counts(m, c.size) && |before| == c.size
    requires rem <= c.size && off + rem <= |from| && off + rem <= |to|
    ensures OneBlock(c, m, d, before, from, to, off, rem, final, after)
  {
    var x := Pad(c.size, from[off..off + rem]);
    ApplySize(c, m, d, before, x);
    var y := Apply(c, m, d, before, x);
    final, after := Spliced(to, off, y[..rem]), Next(m, d, before, x, y);
  }

  // ----- what a call does, byte by byte

  /** A message in whole blocks: its mode function, and after it the old bytes. */
  lemma ProcessedWhole(c: Cipher, m: Mode, d: Dir, iv: Block, src: seq<Byte>, was: seq<Byte>, same: bool, length: nat,
                       whole: seq<Byte>, final: seq<Byte>, chain: Block)
    requires Permutation(c) && Counts(m, c.size) && |iv| == c.size && length % c.size == 0
    requires length <= |src| && length <= |was|
    requires Processed(c, m, d, iv, src, was, same, length, whole, final, chain)
    ensures var out := Transform(c, m, d, iv, src[..length]);
            && |out| == length && |final| == |was|
            && forall j :: 0 <= j < |was| ==> final[j] == if j < length then out[j] else was[j]
  {
    TransformSize(c, m, d, iv, src[..length]);
  }

  /** Any other: the residue's output lands at its address; the other bytes are those of the whole blocks, or the old
      ones. */
  lemma ProcessedBytes(c: Cipher, m: Mode, d: Dir, iv: Block, src: seq<Byte>, was: seq<Byte>, same: bool, length: nat,
                       whole: seq<Byte>, final: seq<Byte>, chain: Block, n: nat, rem: nat, off: nat)
    requires Permutation(c) && Counts(m, c.size) && |iv| == c.size
    requires Fits(c.size, length, |src|) && Fits(c.size, length, |was|)
    requires Processed(c, m, d, iv, src, was, same, length, whole, final, chain)
    requires rem == length % c.size != 0 && n == length - rem && off == Offset(length / c.size)
    ensures var out := Transform(c, m, d, iv, src[..n]);
            && |out| == n && |final| == |was|
            && (forall j :: 0 <= j < |was| && (j < off || off + rem <= j) ==>
                  final[j] == if j < n then out[j] else was[j])
            && var x := Pad(c.size, (if same then out + was[n..] else src)[off..off + rem]);
               var more := Transform(c, m, d, iv, src[..n] + x);
               |more| == n + c.size && forall i :: off <= i < off + rem ==> final[i] == more[n + (i - off)]
  {
    WholeBlocks(length, c.size);
    ResidueBytes(c, m, d, iv, src, was, n, rem, off, if same then whole else src, final, chain);
  }

  lemma ResidueBytes(c: Cipher, m: Mode, d: Dir, iv: Block, src: seq<Byte>, was: seq<Byte>, n: nat, rem: nat, off: nat,
                     from: seq<Byte>, final: seq<Byte>, chain: Block)
    requires Permutation(c) && Counts(m, c.size) && |iv| == c.size && n % c.size == 0
    requires n <= |src| && 0 < rem < c.size && n + rem <= |was| && off + rem <= |was| && off + rem <= |from|
    requires var whole := Whole(c, m, d, iv, src, was, n);
             && |whole| == |was|
             && OneBlock(c, m, d, ChainAfter(c, m, d, iv, src[..n]), from, whole, off, rem, final, chain)
    ensures var out, x := Transform(c, m, d, iv, src[..n]), Pad(c.size, from[off..off + rem]);
            var more := Transform(c, m, d, iv, src[..n] + x);
            && |out| == n && |final| == |was| && |more| == n + c.size
            && (forall j :: 0 <= j < |was| && (j < off || off + rem <= j) ==>
                  final[j] == if j < n then out[j] else was[j])
            && forall i :: off <= i < off + rem ==> final[i] == more[n + (i - off)]
  {
    TransformSize(c, m, d, iv, src[..n]);
    TransformOneMore(c, m, d, iv, src[..n], Pad(c.size, from[off..off + rem]));
  }
}
