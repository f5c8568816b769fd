/** MD4 (internal/md4): the compression of RFC 1320 as its forty-eight listed steps, and the rotating
    loops that compute it. Streaming is in BlockHash.
  */
module Md4 {
  import opened Bytes
  import opened Bits
  import opened BlockHash

  /** A 32-bit word; sums wrap around. */
  type word = u32

  function Add(a: word, b: word): word { Wrap32(a + b) }

  datatype Regs<W> = Regs(a: W, b: W, c: W, d: W)

  // ----- RFC 1320, section 3.4: the steps as listed -----

  function F(x: word, y: word, z: word): word {
    Width32(x, y);
    Width32(z, x);
    Width32(And(x, y), AndNot(z, x));
    Or(And(x, y), AndNot(z, x))
  }

  function G(x: word, y: word, z: word): word {
    Width32(x, y);
    Width32(x, z);
    Width32(y, z);
    Width32(And(x, y), And(x, z));
    Width32(Or(And(x, y), And(x, z)), And(y, z));
    Or(Or(And(x, y), And(x, z)), And(y, z))
  }

  function H(x: word, y: word, z: word): word {
    Width32(x, y);
    Width32(Xor(x, y), z);
    Xor(Xor(x, y), z)
  }

  type shift = s: nat | s < 32

  /** x <<< s */
  function Rot(x: word, s: shift): (r: word) {
    Wrap32(x * Pow2(s) + x / Pow2(32 - s))
  }

  /** What a step puts in its first register, from the four registers in the order it names them, a
      message word and a shift. */
  type Update<!W> = (W, W, W, W, W, shift) -> W

  /** (a + g + x + k) <<< s */
  function Step(a: word, g: word, x: word, k: word, s: shift): word { Rot(Add(Add(Add(a, g), x), k), s) }

  function Update1(a: word, b: word, c: word, d: word, x: word, s: shift): word {
    Rot(Add(Add(a, F(b, c, d)), x), s)
  }
  function Update2(a: word, b: word, c: word, d: word, x: word, s: shift): word {
    Step(a, G(b, c, d), x, 0x5a827999, s)
  }
  function Update3(a: word, b: word, c: word, d: word, x: word, s: shift): word {
    Step(a, H(b, c, d), x, 0x6ed9eba1, s)
  }

  // ----- what the functions compute, bit by bit -----

  /** F picks a bit of y or z. */
  lemma FPicks(x: word, y: word, z: word, i: nat)
    ensures BitAt(F(x, y, z), i) == if BitAt(x, i) then BitAt(y, i) else BitAt(z, i)
  {
    AndBit(x, y, i);
    AndNotBit(z, x, i);
    OrBit(And(x, y), AndNot(z, x), i);
  }

  /** G takes the majority. */
  lemma GIsMajority(x: word, y: word, z: word, i: nat)
    ensures BitAt(G(x, y, z), i) <==> Ones(BitAt(x, i), BitAt(y, i), BitAt(z, i)) >= 2
  {
    AndBit(x, y, i);
    AndBit(x, z, i);
    AndBit(y, z, i);
    OrBit(And(x, y), And(x, z), i);
    OrBit(Or(And(x, y), And(x, z)), And(y, z), i);
  }

  /** H takes the parity. */
  lemma HIsParity(x: word, y: word, z: word, i: nat)
    ensures BitAt(H(x, y, z), i) <==> Ones(BitAt(x, i), BitAt(y, i), BitAt(z, i)) in [1, 3]
  {
    XorBit(x, y, i);
    XorBit(Xor(x, y), z, i);
  }

  function Ones(a: bool, b: bool, c: bool): nat {
    (if a then 1 else 0) + (if b then 1 else 0) + if c then 1 else 0
  }

  /** A rotation puts the two parts of a word the other way round. */
  lemma RotSwapsParts(x: word, s: shift) returns (high: nat, low: nat)
    ensures x == high * Pow2(32 - s) + low && low < Pow2(32 - s) && high < Pow2(s)
    ensures Rot(x, s) == low * Pow2(s) + high
  {
    Pow2Adds(s, 32 - s);
    Pow2At8And32();
    high, low := SwapParts(x, Pow2(s), Pow2(32 - s));
  }

  lemma SwapParts(x: nat, p: nat, q: nat) returns (high: nat, low: nat)
    requires p > 0 && q > 0 && x < p * q == 0x1_0000_0000
    ensures x == high * q + low && low < q && high < p
    ensures (x * p + x / q) % 0x1_0000_0000 == low * p + high
  {
    high, low := x / q, x % q;
    Times(high - p + 1, q);
    assert (high - p + 1) * q == high * q - p * q + q;
    assert x * p == high * q * p + low * p;
    assert high * q * p == high * (p * q);
    Times(q - low, p);
    assert (q - low) * p == p * q - low * p;
    Quotient(x * p + high, p * q, high, low * p + high);
  }

  /** Bit i goes to bit i + s, around the end of the word. */
  lemma RotMovesBits(x: word, s: shift, i: nat)
    requires i < 32
    ensures BitAt(Rot(x, s), (i + s) % 32) == BitAt(x, i)
  {
    var high, low := RotSwapsParts(x, s);
    var j := Around(i, s);
    PartsSwapBits(high, low, 32 - s, s, i, j);
  }

  function Around(i: nat, s: shift): (j: nat)
    requires i < 32
    ensures j == (i + s) % 32 && j == if i < 32 - s then i + s else i + s - 32
  {
    (i + s) % 32
  }

  lemma PartsSwapBits(high: nat, low: nat, m: nat, n: nat, i: nat, j: nat)
    requires high < Pow2(n) && low < Pow2(m) && i < m + n && j == if i < m then i + n else i - m
    ensures BitAt(low * Pow2(n) + high, j) == BitAt(high * Pow2(m) + low, i)
  {
    BitsOfParts(high, low, m, i);
    BitsOfParts(low, high, n, j);
  }

  /** Sums are taken modulo 2^32. */
  lemma SumsWrap(a: word, g: word, x: word, k: word)
    ensures Add(Add(a, g), x) == (a + g + x) % 0x1_0000_0000
    ensures Add(Add(Add(a, g), x), k) == (a + g + x + k) % 0x1_0000_0000
  {
    WrapDrops(a + g, x);
    WrapDrops(a + g + x, k);
  }

  /** The operations of the three rounds: none, 5A827999 and 6ED9EBA1 are their constants. */
  lemma UpdatesAsListed(a: word, b: word, c: word, d: word, x: word, s: shift)
    ensures Update1(a, b, c, d, x, s) == Rot(Add(Add(a, F(b, c, d)), x), s)
    ensures Update2(a, b, c, d, x, s) == Step(a, G(b, c, d), x, 1518500249, s)
    ensures Update3(a, b, c, d, x, s) == Step(a, H(b, c, d), x, 1859775393, s)
  {
  }

  // ----- a block -----

  type index = k: nat | k < 16

  /** A row of the listing: [ABCD k0 s0] [DABC k1 s1] [CDAB k2 s2] [BCDA k3 s3]. */
  function Row<W>(f: Update<W>, r: Regs<W>, x: seq<W>, k0: index, k1: index, k2: index, k3: index,
    s0: shift, s1: shift, s2: shift, s3: shift): Regs<W>
    requires |x| == 16
  {
    var a := f(r.a, r.b, r.c, r.d, x[k0], s0);
    var d := f(r.d, a, r.b, r.c, x[k1], s1);
    var c := f(r.c, d, a, r.b, x[k2], s2);
    var b := f(r.b, c, d, a, x[k3], s3);
    Regs(a, b, c, d)
  }

  function Round1<W>(f: Update<W>, r: Regs<W>, x: seq<W>): Regs<W>
    requires |x| == 16
  {
    var r1 := Row(f, r, x, 0, 1, 2, 3, 3, 7, 11, 19);
    var r2 := Row(f, r1, x, 4, 5, 6, 7, 3, 7, 11, 19);
    var r3 := Row(f, r2, x, 8, 9, 10, 11, 3, 7, 11, 19);
    Row(f, r3, x, 12, 13, 14, 15, 3, 7, 11, 19)
  }

  function Round2<W>(f: Update<W>, r: Regs<W>, x: seq<W>): Regs<W>
    requires |x| == 16
  {
    var r1 := Row(f, r, x, 0, 4, 8, 12, 3, 5, 9, 13);
    var r2 := Row(f, r1, x, 1, 5, 9, 13, 3, 5, 9, 13);
    var r3 := Row(f, r2, x, 2, 6, 10, 14, 3, 5, 9, 13);
    Row(f, r3, x, 3, 7, 11, 15, 3, 5, 9, 13)
  }

  function Round3<W>(f: Update<W>, r: Regs<W>, x: seq<W>): Regs<W>
    requires |x| == 16
  {
    var r1 := Row(f, r, x, 0, 8, 4, 12, 3, 9, 11, 15);
    var r2 := Row(f, r1, x, 2, 10, 6, 14, 3, 9, 11, 15);
    var r3 := Row(f, r2, x, 1, 9, 5, 13, 3, 9, 11, 15);
    Row(f, r3, x, 3, 11, 7, 15, 3, 9, 11, 15)
  }

  type Block = x: seq<word> | |x| == 16 witness seq(16, _ => 0)

  function AddRegs(r: Regs<word>, s: Regs<word>): Regs<word> {
    Regs(Add(r.a, s.a), Add(r.b, s.b), Add(r.c, s.c), Add(r.d, s.d))
  }

  function Compress(r: Regs<word>, x: Block): Regs<word> {
    var one := Round1(Update1, r, x);
    var two := Round2(Update2, one, x);
    var three := Round3(Update3, two, x);
    AddRegs(three, r)
  }

  // ----- RFC 1320, sections 3.3 and 3.5 -----

  const INIT: Regs<word> := Regs(0x67452301, 0xEFCDAB89, 0x98BADCFE, 0x10325476)

  /** Four bytes as a word, low-order byte first. */
  function Word(p: bytes, j: nat): word
    requires j + 4 <= |p|
  {
    U32At(p, j)
  }

  function Words(p: bytes): Block
    requires |p| == 64
  {
    seq(16, i requires 0 <= i < 16 => Word(p, 4 * i))
  }

  function CompressBytes(r: Regs<word>, p: bytes): Regs<word> {
    if |p| == 64 then Compress(r, Words(p)) else r
  }

  function WordBytes(w: word): bytes { Le(w, 4) }

  function RegBytes(r: Regs<word>): bytes {
    WordBytes(r.a) + WordBytes(r.b) + WordBytes(r.c) + WordBytes(r.d)
  }

  /** The starting registers, lowest byte first, as section 3.3 lists them. */
  lemma StartsAsListed()
    ensures RegBytes(INIT) == [0x01, 0x23, 0x45, 0x67, 0x89, 0xab, 0xcd, 0xef, 0xfe, 0xdc, 0xba, 0x98, 0x76, 0x54, 0x32, 0x10]
  {
    FourBytes(0x6745_2301);
    FourBytes(0xEFCD_AB89);
    FourBytes(0x98BA_DCFE);
    FourBytes(0x1032_5476);
  }

  lemma FourBytes(w: word)
    ensures var b := WordBytes(w);
      w == b[0] as int + 0x100 * b[1] as int + 0x1_0000 * b[2] as int + 0x100_0000 * b[3] as int
  {
    var b := WordBytes(w);
    Le32(w);
    NumOfFour(b);
  }

  /** Message words are read lowest byte first, four bytes each; the result is added to the registers. */
  lemma WordsAndSums(r: Regs<word>, q: Regs<word>, p: bytes, k: nat)
    requires |p| == 64 && k < 16
    ensures Words(p)[k] == p[4 * k] as int + 0x100 * p[4 * k + 1] as int + 0x1_0000 * p[4 * k + 2] as int
      + 0x100_0000 * p[4 * k + 3] as int
    ensures AddRegs(r, q) == Regs((r.a + q.a) % 0x1_0000_0000, (r.b + q.b) % 0x1_0000_0000,
      (r.c + q.c) % 0x1_0000_0000, (r.d + q.d) % 0x1_0000_0000)
  {
    var f := Field(p, 4 * k, 4);
    assert f[0] == p[4 * k] && f[1] == p[4 * k + 1] && f[2] == p[4 * k + 2] && f[3] == p[4 * k + 3];
    NumOfFour(f);
  }

  const MD4: Scheme<Regs<word>> := Scheme(INIT, CompressBytes, RegBytes)

  /** The digest of a message, all at once. */
  function Md4(m: bytes): bytes { Hash(MD4, m) }

  // ----- _Block: rotating registers -----

  const SHIFT1: seq<shift> := [3, 7, 11, 19]
  const SHIFT2: seq<shift> := [3, 5, 9, 13]
  const SHIFT3: seq<shift> := [3, 9, 11, 15]
  const XINDEX1: seq<index> := [0, 1, 2, 3, 4, 5, 6, 7, 8, 9, 10, 11, 12, 13, 14, 15]
  const XINDEX2: seq<index> := [0, 4, 8, 12, 1, 5, 9, 13, 2, 6, 10, 14, 3, 7, 11, 15]
  const XINDEX3: seq<index> := [0, 8, 4, 12, 2, 10, 6, 14, 1, 9, 5, 13, 3, 11, 7, 15]

  /** The first round selects with ((c ^ d) & b) ^ d instead of F. */
  function Select(b: word, c: word, d: word): word {
    Width32(c, d);
    Width32(Xor(c, d), b);
    Width32(And(Xor(c, d), b), d);
    Xor(And(Xor(c, d), b), d)
  }

  /** What the loop of each round assigns to a. */
  function Turn1(a: word, b: word, c: word, d: word, x: word, s: shift): word {
    Rot(Add(a, Add(Select(b, c, d), x)), s)
  }
  function Turn2(a: word, b: word, c: word, d: word, x: word, s: shift): word {
    Rot(Add(a, Add(Add(G(b, c, d), x), 0x5a827999)), s)
  }
  function Turn3(a: word, b: word, c: word, d: word, x: word, s: shift): word {
    Rot(Add(a, Add(Add(H(b, c, d), x), 0x6ed9eba1)), s)
  }

  lemma SelectIsF(b: word, c: word, d: word)
    ensures Select(b, c, d) == F(b, c, d)
  {
    SelectByXor(b, c, d);
  }

  lemma AddAssociates(a: word, b: word, c: word)
    ensures Add(Add(a, b), c) == Add(a, Add(b, c))
  {
    var s := a + b + c;
    WrapDrops(a + b, c);
    WrapDrops(b + c, a);
  }

  lemma WrapDrops(n: nat, m: nat)
    ensures Wrap32(Wrap32(n) + m) == Wrap32(n + m)
  {
    assert n == 0x1_0000_0000 * (n / 0x1_0000_0000) + Wrap32(n);
    WrapPeriod(Wrap32(n) + m, n / 0x1_0000_0000);
  }

  lemma WrapPeriod(m: nat, q: nat)
    ensures Wrap32(0x1_0000_0000 * q + m) == Wrap32(m)
  {
  }

  lemma Turn1IsUpdate(a: word, b: word, c: word, d: word, x: word, s: shift)
    ensures Turn1(a, b, c, d, x, s) == Update1(a, b, c, d, x, s)
  {
    SelectIsF(b, c, d);
    AddAssociates(a, F(b, c, d), x);
  }

  lemma Turn2IsUpdate(a: word, b: word, c: word, d: word, x: word, s: shift)
    ensures Turn2(a, b, c, d, x, s) == Update2(a, b, c, d, x, s)
  {
    AddAssociates(a, Add(G(b, c, d), x), 0x5a827999);
    AddAssociates(a, G(b, c, d), x);
  }

  lemma Turn3IsUpdate(a: word, b: word, c: word, d: word, x: word, s: shift)
    ensures Turn3(a, b, c, d, x, s) == Update3(a, b, c, d, x, s)
  {
    AddAssociates(a, Add(H(b, c, d), x), 0x6ed9eba1);
    AddAssociates(a, H(b, c, d), x);
  }

  lemma TurnsAreUpdates()
    ensures forall a, b, c, d, y, s :: Turn1(a, b, c, d, y, s) == Update1(a, b, c, d, y, s)
    ensures forall a, b, c, d, y, s :: Turn2(a, b, c, d, y, s) == Update2(a, b, c, d, y, s)
    ensures forall a, b, c, d, y, s :: Turn3(a, b, c, d, y, s) == Update3(a, b, c, d, y, s)
  {
    forall a, b, c, d, y, s { Turn1IsUpdate(a, b, c, d, y, s); }
    forall a, b, c, d, y, s { Turn2IsUpdate(a, b, c, d, y, s); }
    forall a, b, c, d, y, s { Turn3IsUpdate(a, b, c, d, y, s); }
  }

  /** n turns of the loop of a round: the new value goes to b and the registers move on by one. */
  function Turns<W>(f: Update<W>, r: Regs<W>, x: seq<W>, xindex: seq<index>, shifts: seq<shift>, n: nat): Regs<W>
    requires |x| == |xindex| == 16 && |shifts| == 4 && n <= 16
  {
    if n == 0 then r
    else
      var q := Turns(f, r, x, xindex, shifts, n - 1);
      Regs(q.d, f(q.a, q.b, q.c, q.d, x[xindex[n - 1]], shifts[(n - 1) % 4]), q.b, q.c)
  }

  /** Four turns bring every register back to its place: they are one row of the listing. */
  lemma FourTurnsAreARow<W>(f: Update<W>, r: Regs<W>, x: seq<W>, xindex: seq<index>, shifts: seq<shift>, n: nat)
    requires |x| == |xindex| == 16 && |shifts| == 4 && n <= 12 && n % 4 == 0
    ensures Turns(f, r, x, xindex, shifts, n + 4)
      == Row(f, Turns(f, r, x, xindex, shifts, n), x, xindex[n], xindex[n + 1], xindex[n + 2], xindex[n + 3],
        shifts[0], shifts[1], shifts[2], shifts[3])
  {
    var q1 := Turns(f, r, x, xindex, shifts, n + 1);
    var q2 := Turns(f, r, x, xindex, shifts, n + 2);
    var q3 := Turns(f, r, x, xindex, shifts, n + 3);
  }

  lemma SixteenTurns<W>(f: Update<W>, r: Regs<W>, x: seq<W>)
    requires |x| == 16
    ensures Turns(f, r, x, XINDEX1, SHIFT1, 16) == Round1(f, r, x)
    ensures Turns(f, r, x, XINDEX2, SHIFT2, 16) == Round2(f, r, x)
    ensures Turns(f, r, x, XINDEX3, SHIFT3, 16) == Round3(f, r, x)
  {
    FourTurnsAreARow(f, r, x, XINDEX1, SHIFT1, 0);
    FourTurnsAreARow(f, r, x, XINDEX1, SHIFT1, 4);
    FourTurnsAreARow(f, r, x, XINDEX1, SHIFT1, 8);
    FourTurnsAreARow(f, r, x, XINDEX1, SHIFT1, 12);
    FourTurnsAreARow(f, r, x, XINDEX2, SHIFT2, 0);
    FourTurnsAreARow(f, r, x, XINDEX2, SHIFT2, 4);
    FourTurnsAreARow(f, r, x, XINDEX2, SHIFT2, 8);
    FourTurnsAreARow(f, r, x, XINDEX2, SHIFT2, 12);
    FourTurnsAreARow(f, r, x, XINDEX3, SHIFT3, 0);
    FourTurnsAreARow(f, r, x, XINDEX3, SHIFT3, 4);
    FourTurnsAreARow(f, r, x, XINDEX3, SHIFT3, 8);
    FourTurnsAreARow(f, r, x, XINDEX3, SHIFT3, 12);
  }

  /** Rounds depend on the update only through its values. */
  lemma RoundsCongruent<W(!new)>(f: Update<W>, g: Update<W>, r: Regs<W>, x: seq<W>)
    requires |x| == 16
    requires forall a, b, c, d, y, s :: f(a, b, c, d, y, s) == g(a, b, c, d, y, s)
    ensures Round1(f, r, x) == Round1(g, r, x)
    ensures Round2(f, r, x) == Round2(g, r, x)
    ensures Round3(f, r, x) == Round3(g, r, x)
  {
  }

  /** The loop of one round. */
  method RunRound<W>(turn: Update<W>, xindex: seq<index>, shifts: seq<shift>, r: Regs<W>, x: seq<W>) returns (r': Regs<W>)
    requires |x| == |xindex| == 16 && |shifts| == 4
    ensures r' == Turns(turn, r, x, xindex, shifts, 16)
  {
    var a, b, c, d := r.a, r.b, r.c, r.d;
    for i := 0 to 16
      invariant Regs(a, b, c, d) == Turns(turn, r, x, xindex, shifts, i)
    {
      a := turn(a, b, c, d, x[xindex[i]], shifts[i % 4]);
      a, b, c, d := d, a, b, c;
    }
    r' := Regs(a, b, c, d);
  }

  /** The sixteen message words of a block. */
  method LoadWords(p: bytes) returns (x: Block)
    requires |p| == 64
    ensures x == Words(p)
  {
    var X := new word[16](_ => 0);
    for i := 0 to 16
      invariant forall k :: 0 <= k < i ==> X[k] == Words(p)[k]
    {
      X[i] := Word(p, 4 * i);
    }
    x := X[..];
  }

  method FirstRound(r: Regs<word>, x: Block) returns (r': Regs<word>)
    ensures r' == Round1(Update1, r, x)
  {
    r' := RunRound(Turn1, XINDEX1, SHIFT1, r, x);
    SixteenTurns(Turn1, r, x);
    TurnsAreUpdates();
    RoundsCongruent(Turn1, Update1, r, x);
  }

  method SecondRound(r: Regs<word>, x: Block) returns (r': Regs<word>)
    ensures r' == Round2(Update2, r, x)
  {
    r' := RunRound(Turn2, XINDEX2, SHIFT2, r, x);
    SixteenTurns(Turn2, r, x);
    TurnsAreUpdates();
    RoundsCongruent(Turn2, Update2, r, x);
  }

  method ThirdRound(r: Regs<word>, x: Block) returns (r': Regs<word>)
    ensures r' == Round3(Update3, r, x)
  {
    r' := RunRound(Turn3, XINDEX3, SHIFT3, r, x);
    SixteenTurns(Turn3, r, x);
    TurnsAreUpdates();
    RoundsCongruent(Turn3, Update3, r, x);
  }

  /** The body of _Block's outer loop: three rounds and the addition of the old registers. */
  method OneBlock(r: Regs<word>, p: bytes) returns (r': Regs<word>)
    requires |p| == 64
    ensures r' == CompressBytes(r, p)
  {
    var x := LoadWords(p);
    var one := FirstRound(r, x);
    var two := SecondRound(one, x);
    var three := ThirdRound(two, x);
    r' := Regs(Add(three.a, r.a), Add(three.b, r.b), Add(three.c, r.c), Add(three.d, r.d));
  }

  /** Writes and sums in any order: each sum is the one-shot digest of what was written before it. */
  method Md4Stream(ops: seq<Op>) returns (sums: seq<bytes>)
    ensures sums == Sums(MD4, [], ops)
  {
    sums := Stream(MD4, ops);
  }
}
