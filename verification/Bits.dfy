/** Bitwise operations on natural numbers, bit by bit. */
module Bits {
  function Pow2(n: nat): (p: nat)
    ensures p > 0
  {
    if n == 0 then 1 else 2 * Pow2(n - 1)
  }

  /** Bit 0 of x. */
  predicate Odd(x: nat) { x % 2 == 1 }

  function Bit(b: bool): nat { if b then 1 else 0 }

  /** The number whose bit i is op of the bits i of x and y; op of two zeros must be zero. */
  function Bitwise(op: (bool, bool) -> bool, x: nat, y: nat): nat
    decreases x + y
  {
    if x == 0 && y == 0 then 0 else Bit(op(Odd(x), Odd(y))) + 2 * Bitwise(op, x / 2, y / 2)
  }

  function And(x: nat, y: nat): nat { Bitwise((a, b) => a && b, x, y) }
  function AndNot(x: nat, y: nat): nat { Bitwise((a, b) => a && !b, x, y) }
  function Or(x: nat, y: nat): nat { Bitwise((a, b) => a || b, x, y) }
  function Xor(x: nat, y: nat): nat { Bitwise((a, b) => a != b, x, y) }

  /** Results are no wider than their operands. */
  lemma {:induction false} BitwiseWidth(op: (bool, bool) -> bool, x: nat, y: nat, n: nat)
    requires x < Pow2(n) && y < Pow2(n)
    ensures Bitwise(op, x, y) < Pow2(n)
    decreases n
  {
    if n > 0 && !(x == 0 && y == 0) { BitwiseWidth(op, x / 2, y / 2, n - 1); }
  }

  lemma Pow2At8And32()
    ensures Pow2(8) == 0x100 && Pow2(32) == 0x1_0000_0000
  {
    assert Pow2(4) == 16;
    assert Pow2(12) == 0x1000;
    assert Pow2(16) == 0x1_0000;
    assert Pow2(20) == 0x10_0000;
    assert Pow2(24) == 0x100_0000;
    assert Pow2(28) == 0x1000_0000;
  }

  lemma Width32(x: nat, y: nat)
    requires x < 0x1_0000_0000 && y < 0x1_0000_0000
    ensures And(x, y) < 0x1_0000_0000 && AndNot(x, y) < 0x1_0000_0000
    ensures Or(x, y) < 0x1_0000_0000 && Xor(x, y) < 0x1_0000_0000
  {
    Pow2At8And32();
    BitwiseWidth((a, b) => a && b, x, y, 32);
    BitwiseWidth((a, b) => a && !b, x, y, 32);
    BitwiseWidth((a, b) => a || b, x, y, 32);
    BitwiseWidth((a, b) => a != b, x, y, 32);
  }

  lemma XorWidth8(x: nat, y: nat)
    requires x < 0x100 && y < 0x100
    ensures Xor(x, y) < 0x100
  {
    Pow2At8And32();
    BitwiseWidth((a, b) => a != b, x, y, 8);
  }

  /** The low bit and the remaining bits of a number. */
  ghost predicate Splits(r: nat, low: bool, high: nat) { Odd(r) == low && r / 2 == high }

  lemma AndSplits(x: nat, y: nat)
    ensures Splits(And(x, y), Odd(x) && Odd(y), And(x / 2, y / 2))
  {
  }

  lemma AndNotSplits(x: nat, y: nat)
    ensures Splits(AndNot(x, y), Odd(x) && !Odd(y), AndNot(x / 2, y / 2))
  {
  }

  lemma OrSplits(x: nat, y: nat)
    ensures Splits(Or(x, y), Odd(x) || Odd(y), Or(x / 2, y / 2))
  {
  }

  lemma XorSplits(x: nat, y: nat)
    ensures Splits(Xor(x, y), Odd(x) != Odd(y), Xor(x / 2, y / 2))
  {
  }

  lemma {:induction false} XorCommutes(x: nat, y: nat)
    ensures Xor(x, y) == Xor(y, x)
    decreases x + y
  {
    XorSplits(x, y);
    XorSplits(y, x);
    if x + y > 0 { XorCommutes(x / 2, y / 2); }
  }

  function SelectXor(x: nat, y: nat, z: nat): nat { Xor(And(Xor(y, z), x), z) }
  function SelectOr(x: nat, y: nat, z: nat): nat { Or(And(x, y), AndNot(z, x)) }

  lemma SelectsSplit(x: nat, y: nat, z: nat)
    ensures Splits(SelectXor(x, y, z), if Odd(x) then Odd(y) else Odd(z), SelectXor(x / 2, y / 2, z / 2))
    ensures Splits(SelectOr(x, y, z), if Odd(x) then Odd(y) else Odd(z), SelectOr(x / 2, y / 2, z / 2))
  {
    XorSplits(y, z);
    AndSplits(Xor(y, z), x);
    XorSplits(And(Xor(y, z), x), z);
    AndSplits(x, y);
    AndNotSplits(z, x);
    OrSplits(And(x, y), AndNot(z, x));
  }

  /** ((y ^ z) & x) ^ z picks y where x has a one and z where it has a zero. */
  lemma {:induction false} SelectByXor(x: nat, y: nat, z: nat)
    ensures SelectXor(x, y, z) == SelectOr(x, y, z)
    decreases x + y + z
  {
    SelectsSplit(x, y, z);
    if x + y + z > 0 { SelectByXor(x / 2, y / 2, z / 2); }
  }

  // ----- single bits -----

  /** Bit i of x, the lowest being bit 0. */
  predicate BitAt(x: nat, i: nat) { if i == 0 then x % 2 == 1 else BitAt(x / 2, i - 1) }

  /** Bit i of the result of an operation is the operation on the bits i. */
  lemma {:induction false} BitOfBitwise(op: (bool, bool) -> bool, x: nat, y: nat, i: nat)
    requires !op(false, false)
    ensures BitAt(Bitwise(op, x, y), i) == op(BitAt(x, i), BitAt(y, i))
    decreases i
  {
    var r := Bitwise(op, x, y);
    assert r % 2 == Bit(op(Odd(x), Odd(y))) && r / 2 == Bitwise(op, x / 2, y / 2);
    if i > 0 { BitOfBitwise(op, x / 2, y / 2, i - 1); }
  }

  lemma AndBit(x: nat, y: nat, i: nat)
    ensures BitAt(And(x, y), i) == (BitAt(x, i) && BitAt(y, i))
  {
    BitOfBitwise((a, b) => a && b, x, y, i);
  }

  lemma AndNotBit(x: nat, y: nat, i: nat)
    ensures BitAt(AndNot(x, y), i) == (BitAt(x, i) && !BitAt(y, i))
  {
    BitOfBitwise((a, b) => a && !b, x, y, i);
  }

  lemma OrBit(x: nat, y: nat, i: nat)
    ensures BitAt(Or(x, y), i) == (BitAt(x, i) || BitAt(y, i))
  {
    BitOfBitwise((a, b) => a || b, x, y, i);
  }

  lemma XorBit(x: nat, y: nat, i: nat)
    ensures BitAt(Xor(x, y), i) == (BitAt(x, i) != BitAt(y, i))
  {
    BitOfBitwise((a, b) => a != b, x, y, i);
  }

  /** The bits of high * 2^s + low, for a low part of s bits. */
  lemma {:induction false} BitsOfParts(high: nat, low: nat, s: nat, j: nat)
    requires low < Pow2(s)
    ensures BitAt(high * Pow2(s) + low, j) == if j < s then BitAt(low, j) else BitAt(high, j - s)
    decreases s
  {
    if s > 0 {
      DoubledPart(high, low, Pow2(s - 1));
      if j > 0 { BitsOfParts(high, low / 2, s - 1, j - 1); }
    }
  }

  lemma DoubledPart(high: nat, low: nat, p: nat)
    ensures var x := high * (2 * p) + low; x % 2 == low % 2 && x / 2 == high * p + low / 2
  {
    assert high * (2 * p) == 2 * (high * p);
  }

  lemma {:induction false} Pow2Adds(m: nat, n: nat)
    ensures Pow2(m + n) == Pow2(m) * Pow2(n)
  {
    if m > 0 {
      Pow2Adds(m - 1, n);
      DoubleProduct(Pow2(m - 1), Pow2(n));
    }
  }

  lemma DoubleProduct(a: nat, b: nat)
    ensures 2 * (a * b) == (2 * a) * b
  {
  }

  lemma Times(e: int, d: nat)
    ensures (e >= 1 ==> e * d >= d) && (e <= -1 ==> e * d <= -1 * d)
  {
    if e >= 1 { assert (e - 1) * d >= 0; }
    if e <= -1 { assert (e + 1) * d <= 0; }
  }

  /** There is one quotient and one remainder. */
  lemma Quotient(x: nat, d: nat, q: nat, r: nat)
    requires d > 0 && x == q * d + r && r < d
    ensures x / d == q && x % d == r
  {
    var e := x / d - q;
    assert e * d == (x / d) * d - q * d;
    Times(e, d);
  }

  // ----- the low part of an exclusive or -----

  lemma {:induction false} XorZero(x: nat)
    ensures Xor(x, 0) == x
    decreases x
  {
    XorSplits(x, 0);
    if x > 0 { XorZero(x / 2); }
  }

  lemma {:induction false} XorLow(high: nat, low: nat, k: nat, n: nat)
    requires low < Pow2(n) && k < Pow2(n)
    ensures Xor(high * Pow2(n) + low, k) == high * Pow2(n) + Xor(low, k)
    decreases n
  {
    if n == 0 {
      XorZero(high);
      XorZero(0);
    } else {
      var x := high * Pow2(n) + low;
      DoubledPart(high, low, Pow2(n - 1));
      XorSplits(x, k);
      XorSplits(low, k);
      XorLow(high, low / 2, k / 2, n - 1);
      DoubledPart(high, Xor(low, k), Pow2(n - 1));
      assert Xor(x, k) / 2 == (high * Pow2(n) + Xor(low, k)) / 2;
      assert Xor(x, k) % 2 == (high * Pow2(n) + Xor(low, k)) % 2;
    }
  }
}
