/** Bitwise operations on naturals, as the C sources apply them to registers, and the
    lemmas that turn masks, shifts and ORs into arithmetic. */
module Bits {

  const TWO16: nat := 0x1_0000
  const TWO32: nat := 0x1_0000_0000
  const TWO64: nat := 0x1_0000_0000_0000_0000

  type Byte = n: nat | n < 256 witness 0
  type Half = n: nat | n < TWO16 witness 0
  type Word = n: nat | n < TWO32 witness 0

  function Pow2(k: nat): (p: nat)
    ensures p > 0
  {
    if k == 0 then 1 else 2 * Pow2(k - 1)
  }

  /** Bit i of x is set. */
  predicate Bit(x: nat, i: nat) {
    if i == 0 then x % 2 == 1 else Bit(x / 2, i - 1)
  }

  function And(x: nat, y: nat): nat {
    if x == 0 || y == 0 then 0
    else (if x % 2 == 1 && y % 2 == 1 then 1 else 0) + 2 * And(x / 2, y / 2)
  }

  function Or(x: nat, y: nat): nat {
    if x == 0 then y else if y == 0 then x
    else (if x % 2 == 1 || y % 2 == 1 then 1 else 0) + 2 * Or(x / 2, y / 2)
  }

  function Xor(x: nat, y: nat): nat {
    if x == 0 then y else if y == 0 then x
    else (if x % 2 != y % 2 then 1 else 0) + 2 * Xor(x / 2, y / 2)
  }

  /** x & ~y, whatever the width of the complement. */
  function AndNot(x: nat, y: nat): nat {
    if x == 0 then 0 else if y == 0 then x
    else (if x % 2 == 1 && y % 2 == 0 then 1 else 0) + 2 * AndNot(x / 2, y / 2)
  }

  lemma {:induction false} ZeroHasNoBit(i: nat)
    ensures !Bit(0, i)
  {
    if i > 0 { ZeroHasNoBit(i - 1); }
  }

  lemma {:induction false} BitOfAnd(x: nat, y: nat, i: nat)
    ensures Bit(And(x, y), i) <==> Bit(x, i) && Bit(y, i)
  {
    if x == 0 || y == 0 { ZeroHasNoBit(i); }
    else if i > 0 { BitOfAnd(x / 2, y / 2, i - 1); }
  }

  lemma {:induction false} BitOfOr(x: nat, y: nat, i: nat)
    ensures Bit(Or(x, y), i) <==> Bit(x, i) || Bit(y, i)
  {
    if x == 0 || y == 0 { ZeroHasNoBit(i); }
    else if i > 0 { BitOfOr(x / 2, y / 2, i - 1); }
  }

  lemma {:induction false} BitOfXor(x: nat, y: nat, i: nat)
    ensures Bit(Xor(x, y), i) <==> Bit(x, i) != Bit(y, i)
  {
    if x == 0 || y == 0 { ZeroHasNoBit(i); }
    else if i > 0 { BitOfXor(x / 2, y / 2, i - 1); }
  }

  lemma {:induction false} BitOfAndNot(x: nat, y: nat, i: nat)
    ensures Bit(AndNot(x, y), i) <==> Bit(x, i) && !Bit(y, i)
  {
    if x == 0 || y == 0 { ZeroHasNoBit(i); }
    else if i > 0 { BitOfAndNot(x / 2, y / 2, i - 1); }
  }

  lemma {:induction false} BitOfPow2(k: nat, i: nat)
    ensures Bit(Pow2(k), i) <==> i == k
  {
    if k == 0 {
      if i > 0 { ZeroHasNoBit(i - 1); }
    } else if i > 0 {
      BitOfPow2(k - 1, i - 1);
    }
  }

  /** Two naturals with the same bits are equal. */
  lemma {:induction false} SameBits(x: nat, y: nat)
    requires forall i: nat :: Bit(x, i) <==> Bit(y, i)
    ensures x == y
    decreases x + y
  {
    assert Bit(x, 0) <==> Bit(y, 0);
    if x + y > 0 {
      forall i: nat ensures Bit(x / 2, i) <==> Bit(y / 2, i) {
        assert Bit(x, i + 1) <==> Bit(y, i + 1);
      }
      SameBits(x / 2, y / 2);
    }
  }

  lemma {:induction false} Pow2Sum(a: nat, b: nat)
    ensures Pow2(a + b) == Pow2(a) * Pow2(b)
  {
    if b > 0 {
      Pow2Sum(a, b - 1);
      assert Pow2(a + b) == 2 * Pow2(a + (b - 1));
    }
  }

  lemma {:induction false} Pow2Grows(a: nat, b: nat)
    requires a <= b
    ensures Pow2(a) <= Pow2(b)
  {
    if a < b { Pow2Grows(a, b - 1); }
  }

  lemma Pow2At10()
    ensures Pow2(10) == 1024
  {
    assert Pow2(5) == 32;
    Pow2Sum(5, 5);
  }

  lemma Pow2At8()
    ensures Pow2(8) == 256
  {
    assert Pow2(4) == 16;
    Pow2Sum(4, 4);
  }

  lemma Pow2At15()
    ensures Pow2(15) == 0x8000
  {
    Pow2At10();
    assert Pow2(5) == 32;
    Pow2Sum(10, 5);
  }

  lemma Pow2At32()
    ensures Pow2(32) == TWO32
  {
    Pow2At15();
    assert Pow2(16) == 2 * Pow2(15);
    Pow2Sum(16, 16);
  }

  lemma Pow2At42()
    ensures Pow2(42) == TWO32 * 1024
  {
    Pow2At10();
    Pow2At32();
    Pow2Sum(32, 10);
  }

  /** The number made of the k low bits of x. */
  function Low(x: nat, k: nat): nat {
    if k == 0 then 0 else x % 2 + 2 * Low(x / 2, k - 1)
  }

  lemma {:induction false} LowIsMod(x: nat, k: nat)
    ensures Low(x, k) == x % Pow2(k)
  {
    if k > 0 {
      LowIsMod(x / 2, k - 1);
      HalfMod(x, Pow2(k - 1));
    }
  }

  lemma {:induction false} MaskIsLow(x: nat, k: nat)
    ensures And(x, Pow2(k) - 1) == Low(x, k)
    ensures AndNot(x, Pow2(k) - 1) + Low(x, k) == x
  {
    if k == 0 {
      assert And(x, 0) == 0 && AndNot(x, 0) == x;
    } else if x == 0 {
      MaskIsLow(0, k - 1);
    } else {
      MaskIsLow(x / 2, k - 1);
      MaskStep(x, Pow2(k - 1));
    }
  }

  lemma MaskStep(x: nat, p: nat)
    requires x > 0 && p > 0
    ensures And(x, 2 * p - 1) == x % 2 + 2 * And(x / 2, p - 1)
    ensures AndNot(x, 2 * p - 1) == 2 * AndNot(x / 2, p - 1)
  {
    var y: nat := 2 * p - 1;
    assert y % 2 == 1 && y / 2 == p - 1;
  }

  /** Masking with k ones is the remainder modulo 2^k. */
  lemma AndMask(x: nat, k: nat)
    ensures And(x, Pow2(k) - 1) == x % Pow2(k)
  {
    MaskIsLow(x, k);
    LowIsMod(x, k);
  }

  lemma AndNotMask(x: nat, k: nat)
    ensures AndNot(x, Pow2(k) - 1) == x - x % Pow2(k)
  {
    MaskIsLow(x, k);
    LowIsMod(x, k);
  }

  lemma AndMask10(x: nat)
    ensures And(x, 0x3FF) == x % 1024
  {
    Pow2At10();
    AndMask(x, 10);
  }

  lemma HalfMod(x: nat, p: nat)
    requires p > 0
    ensures x % (2 * p) == x % 2 + 2 * (x / 2 % p)
  {
    var h := x / 2;
    var q := h / p;
    assert h == p * q + h % p;
    assert x == 2 * p * q + (x % 2 + 2 * (h % p)) by {
      assert x == 2 * h + x % 2;
      assert 2 * (p * q) == 2 * p * q;
    }
    ModUnique(x, 2 * p, q, x % 2 + 2 * (h % p));
  }

  lemma ModUnique(x: int, m: int, q: int, r: int)
    requires 0 <= r < m
    requires x == m * q + r
    ensures x % m == r && x / m == q
  {
    var q', r' := x / m, x % m;
    assert x == m * q' + r';
    assert q' < q ==> m * q' <= m * (q - 1);
    assert q' > q ==> m * q' >= m * (q + 1);
  }

  /** OR of a multiple of 2^k with something below 2^k is their sum. */
  lemma {:induction false} OrDisjoint(h: nat, lo: nat, k: nat)
    requires lo < Pow2(k)
    ensures Or(h * Pow2(k), lo) == h * Pow2(k) + lo
  {
    if k > 0 && h > 0 && lo > 0 {
      var p := Pow2(k - 1);
      assert h * (2 * p) == 2 * (h * p);
      assert h * p > 0;
      OrDisjoint(h, lo / 2, k - 1);
    }
  }

  lemma {:induction false} BitIsDiv(x: nat, i: nat)
    ensures Bit(x, i) <==> x / Pow2(i) % 2 == 1
  {
    if i > 0 {
      BitIsDiv(x / 2, i - 1);
      HalfDiv(x, Pow2(i - 1));
    }
  }

  lemma HalfDiv(x: nat, p: nat)
    requires p > 0
    ensures x / (2 * p) == x / 2 / p
  {
    var h := x / 2;
    assert 2 * (p * (h / p)) == 2 * p * (h / p);
    ModUnique(x, 2 * p, h / p, x % 2 + 2 * (h % p));
  }

  /** Testing, setting and clearing with masks. */
  lemma {:induction false} AndPow2(x: nat, k: nat)
    ensures And(x, Pow2(k)) == if Bit(x, k) then Pow2(k) else 0
  {
    if x == 0 { ZeroHasNoBit(k); }
    else if k > 0 { AndPow2(x / 2, k - 1); }
    else { assert And(x / 2, 0) == 0; }
  }

  lemma {:induction false} OrPow2(x: nat, k: nat)
    ensures Or(x, Pow2(k)) == if Bit(x, k) then x else x + Pow2(k)
  {
    if x == 0 { ZeroHasNoBit(k); }
    else if k > 0 { OrPow2(x / 2, k - 1); }
    else { assert Or(x / 2, 0) == x / 2; }
  }

  /** Concatenation associates. */
  lemma Assoc<T>(a: seq<T>, b: seq<T>, c: seq<T>)
    ensures a + b + c == a + (b + c)
  {
  }
}
