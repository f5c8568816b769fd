/** AES-CMAC (internal/smb/crypto.go): the definition of RFC 4493 over any 16-byte block function, and
    the server's chunked computation through a CBC encrypter with a reused scratch buffer.
  */
module Cmac {
  import opened Bytes
  import opened Bits

  type Block = b: bytes | |b| == 16 witness Zeros(16)
  type Cipher = Block -> Block

  function XorByte(a: byte, b: byte): byte {
    XorWidth8(a, b);
    Xor(a, b)
  }

  function XorBlock(a: Block, b: Block): Block {
    seq(16, i requires 0 <= i < 16 => XorByte(a[i], b[i]))
  }

  lemma XorBlockCommutes(a: Block, b: Block)
    ensures XorBlock(a, b) == XorBlock(b, a)
  {
    forall i | 0 <= i < 16 ensures XorBlock(a, b)[i] == XorBlock(b, a)[i] {
      XorCommutes(a[i], b[i]);
    }
  }

  // ----- RFC 4493, section 2.3: subkeys -----

  /** A block as a 128-bit big-endian number. */
  function Be(b: bytes): nat {
    if b == [] then 0 else b[0] * Pow256(|b| - 1) + Be(b[1..])
  }

  lemma DigitBound(b: byte, p: nat, rest: nat)
    requires rest < p
    ensures b * p + rest < 0x100 * p
  {
    assert b * p <= 0xff * p;
  }

  lemma {:induction false} BeBound(b: bytes)
    ensures Be(b) < Pow256(|b|)
  {
    if b != [] {
      BeBound(b[1..]);
      DigitBound(b[0], Pow256(|b| - 1), Be(b[1..]));
    }
  }

  /** A byte shifted left by one, and the bit that falls out. */
  function Up(b: byte): (r: byte)
    ensures r % 2 == 0
  {
    2 * (b as int) % 0x100
  }

  function TopBit(b: byte): (r: nat)
    ensures r <= 1 && 2 * (b as int) == Up(b) + r * 0x100
  {
    b / 0x80
  }

  /** Every byte moved up one bit, taking in the top bit of the next. */
  function ShiftLeft(b: bytes): (r: bytes)
    ensures |r| == |b|
  {
    seq(|b|, i requires 0 <= i < |b| => Up(b[i]) + (if i + 1 < |b| then TopBit(b[i + 1]) else 0))
  }

  /** What the shift loses: the top bit, worth 256^|b|. */
  function Lost(b: bytes): nat {
    if b == [] || b[0] < 0x80 then 0 else Pow256(|b|)
  }

  /** The byte-wise shift doubles the number, losing its top bit. */
  lemma {:induction false} ShiftLeftDoubles(b: bytes)
    ensures Be(ShiftLeft(b)) + Lost(b) == 2 * Be(b)
  {
    if b != [] {
      var rest, p := b[1..], Pow256(|b| - 1);
      ShiftLeftDoubles(rest);
      ShiftLeftTail(b);
      BeHead(ShiftLeft(b), ShiftLeft(rest));
      var carry := if rest == [] then 0 else TopBit(rest[0]);
      CarryValue(rest, carry, p);
      CarryMoves(b[0], carry, p, Be(rest), Be(ShiftLeft(rest)));
      LostValue(b, p);
    }
  }

  lemma CarryValue(rest: bytes, carry: nat, p: nat)
    requires p == Pow256(|rest|) && carry == if rest == [] then 0 else TopBit(rest[0])
    ensures carry * p == Lost(rest)
  {
    if carry == 0 { assert carry * p == 0; } else { assert carry == 1 && carry * p == p; }
  }

  lemma LostValue(b: bytes, p: nat)
    requires b != [] && p == Pow256(|b| - 1)
    ensures TopBit(b[0]) * (0x100 * p) == Lost(b)
  {
    CarryValue(b, TopBit(b[0]), 0x100 * p);
  }

  lemma ShiftLeftTail(b: bytes)
    requires b != []
    ensures ShiftLeft(b)[1..] == ShiftLeft(b[1..])
  {
  }

  lemma BeHead(b: bytes, rest: bytes)
    requires b != [] && b[1..] == rest
    ensures Be(b) == b[0] * Pow256(|b| - 1) + Be(rest)
  {
  }

  lemma CarryMoves(b: byte, carry: nat, p: nat, rest: nat, shifted: nat)
    requires shifted + carry * p == 2 * rest
    ensures (Up(b) + carry) * p + shifted + TopBit(b) * (0x100 * p) == 2 * (b * p + rest)
  {
    calc {
      (Up(b) + carry) * p + shifted + TopBit(b) * (0x100 * p);
      (Up(b) + TopBit(b) * 0x100) * p + (shifted + carry * p);
      2 * (b * p) + 2 * rest;
    }
  }

  const RB: byte := 0x87

  /** Doubling in GF(2^128): the shift, and the constant when the top bit was set. */
  function Double(b: Block): (r: Block) {
    var s := ShiftLeft(b);
    if b[0] < 0x80 then s else s[15 := XorByte(s[15], RB)]
  }

  lemma TopBitOfNumber(b: bytes)
    requires b != []
    ensures b[0] < 0x80 <==> Be(b) < Pow256(|b|) / 2
  {
    BeBound(b[1..]);
    TopBitIsHalf(b[0], Pow256(|b| - 1), Be(b[1..]));
  }

  /** Doubling on 128-bit numbers: (L << 1) modulo 2^128, xored with 0x87 exactly when the most significant bit
      of L is one. */
  lemma DoubleOnNumbers(b: Block)
    ensures var n, top := Be(b), 0x1_0000_0000_0000_0000_0000_0000_0000_0000;
      n < top && Be(Double(b)) == if 2 * n < top then 2 * n else Xor(2 * n - top, 0x87)
  {
    BeBound(b);
    Sixteen();
    TopBitOfNumber(b);
    ShiftLeftDoubles(b);
    var s := ShiftLeft(b);
    if b[0] >= 0x80 {
      BeSnoc(s[..15], s[15]);
      assert s == s[..15] + [s[15]];
      BeSnoc(s[..15], XorByte(s[15], 0x87));
      assert Double(b) == s[..15] + [XorByte(s[15], 0x87)];
      Pow2At8And32();
      XorLow(Be(s[..15]), s[15] as int, 0x87, 8);
    }
  }

  lemma Sixteen()
    ensures Pow256(16) == 0x1_0000_0000_0000_0000_0000_0000_0000_0000
  {
    assert Pow256(4) == 0x1_0000_0000;
    assert Pow256(8) == 0x1_0000_0000_0000_0000;
    assert Pow256(12) == 0x1_0000_0000_0000_0000_0000_0000;
  }

  lemma {:induction false} BeSnoc(b: bytes, low: byte)
    ensures Be(b + [low]) == 0x100 * Be(b) + low as int
  {
    if b == [] {
      assert b + [low] == [low];
      assert [low][1..] == [];
    } else {
      assert (b + [low])[1..] == b[1..] + [low];
      BeSnoc(b[1..], low);
      Weight(b[0] as int, Pow256(|b| - 1), Be(b[1..]), low as int);
    }
  }

  lemma Weight(first: int, p: int, rest: int, low: int)
    ensures first * (0x100 * p) + (0x100 * rest + low) == 0x100 * (first * p + rest) + low
  {
  }

  /** Bytes are xored bit by bit. */
  lemma XorByteBits(a: byte, b: byte, i: nat)
    ensures BitAt(XorByte(a, b), i) == (BitAt(a, i) != BitAt(b, i))
  {
    XorBit(a, b, i);
  }

  lemma TopBitIsHalf(b: byte, p: nat, rest: nat)
    requires rest < p
    ensures b < 0x80 <==> b * p + rest < 0x100 * p / 2
  {
    if b < 0x80 {
      assert b * p <= 0x7f * p;
    } else {
      assert b * p >= 0x80 * p;
    }
  }

  // ----- RFC 4493, section 2.4 -----

  /** Block number i of a message. */
  function BlockAt(m: bytes, i: nat): (b: Block)
    requires 16 * i + 16 <= |m|
  {
    m[16 * i..][..16]
  }

  /** The chain value X after the first k blocks, starting from x. */
  function Chain(e: Cipher, x: Block, m: bytes, k: nat): Block
    requires 16 * k <= |m|
  {
    if k == 0 then x else e(XorBlock(Chain(e, x, m, k - 1), BlockAt(m, k - 1)))
  }

  /** n, the number of blocks: at least one. */
  function BlockCount(len: nat): (n: nat)
    ensures n >= 1 && 16 * (n - 1) <= len <= 16 * n && (len > 0 ==> 16 * (n - 1) < len)
  {
    if len == 0 then 1 else (len + 15) / 16
  }

  /** The last block: xored with K1 when complete, else padded with 10...0 and xored with K2. */
  function LastBlock(e: Cipher, last: bytes): Block
    requires |last| <= 16
  {
    var k1 := Double(e(Zeros(16)));
    var k2 := Double(k1);
    if |last| == 16 then XorBlock(last, k1)
    else XorBlock(last + [0x80] + Zeros(15 - |last|), k2)
  }

  function Cmac(e: Cipher, m: bytes): Block {
    var n := BlockCount(|m|);
    e(XorBlock(LastBlock(e, m[16 * (n - 1)..]), Chain(e, Zeros(16), m, n - 1)))
  }

  /** The last block, byte by byte as section 2.4 has it: padded by a one bit and zeros unless it is whole, and
      xored with K1 when it is whole, with K2 when not. */
  lemma LastBlockAsListed(e: Cipher, last: bytes, i: nat)
    requires |last| <= 16 && i < 16
    ensures var k1 := Double(e(Zeros(16)));
      LastBlock(e, last)[i] ==
        if |last| == 16 then XorByte(last[i], k1[i])
        else XorByte(if i < |last| then last[i] else if i == |last| then 0x80 else 0, Double(k1)[i])
  {
  }

  /** The code: the chain of all blocks before the last, which starts where a whole block or the rest of the
      message is left, xored with the last block and enciphered. */
  lemma CmacAsListed(e: Cipher, m: bytes, k: nat)
    requires 16 * k <= |m| <= 16 * k + 16 && (m != [] ==> 16 * k < |m|)
    ensures Cmac(e, m) == e(XorBlock(LastBlock(e, m[16 * k..]), Chain(e, Zeros(16), m, k)))
  {
    LastStart(|m|, k, |m| - 16 * k);
  }

  lemma ChainStep(e: Cipher, x: Block, m: bytes, k: nat)
    requires 16 * k + 16 <= |m|
    ensures Chain(e, x, m, 0) == x && Chain(e, x, m, k + 1) == e(XorBlock(Chain(e, x, m, k), m[16 * k..16 * k + 16]))
  {
    assert m[16 * k..][..16] == m[16 * k..16 * k + 16];
  }

  // ----- the chain in pieces -----

  lemma {:induction false} ChainPrefix(e: Cipher, x: Block, m: bytes, n: bytes, k: nat)
    requires 16 * k <= |m|
    ensures Chain(e, x, m + n, k) == Chain(e, x, m, k)
  {
    if k > 0 {
      ChainPrefix(e, x, m, n, k - 1);
      assert BlockAt(m + n, k - 1) == BlockAt(m, k - 1);
    }
  }

  /** A chain can be resumed from any block boundary, with the chain value so far as its start. */
  lemma {:induction false} ChainResumes(e: Cipher, x: Block, m: bytes, j: nat, k: nat)
    requires 16 * (j + k) <= |m|
    ensures Chain(e, x, m, j + k) == Chain(e, Chain(e, x, m, j), m[16 * j..], k)
  {
    if k > 0 {
      ChainResumes(e, x, m, j, k - 1);
      assert BlockAt(m[16 * j..], k - 1) == BlockAt(m, j + k - 1);
    }
  }

  // ----- the server's computation -----

  /** gfMulX, with its carry running from the last byte to the first. */
  method GfMulX(out: array<byte>, input: array<byte>)
    requires out.Length == 16 == input.Length && out != input
    modifies out
    ensures out[..] == Double(old(input[..]))
  {
    var carry := 0;
    var i := 16;
    while i > 0
      invariant 0 <= i <= 16 && input[..] == old(input[..])
      invariant carry == if i < 16 then TopBit(input[i]) else 0
      invariant forall k :: i <= k < 16 ==> out[k] == ShiftLeft(input[..])[k]
    {
      i := i - 1;
      out[i] := Up(input[i]) + carry;  // in[i]<<1 | carry: the low bit of the shift is free
      carry := TopBit(input[i]);
    }
    assert out[..] == ShiftLeft(input[..]);
    if carry != 0 {
      out[15] := XorByte(out[15], RB);
    }
  }

  /** xor16 */
  method Xor16(dst: array<byte>, src: array<byte>)
    requires dst.Length == 16 == src.Length && dst != src
    modifies dst
    ensures dst[..] == XorBlock(old(dst[..]), src[..])
  {
    for i := 0 to 16
      invariant forall k :: 0 <= k < i ==> dst[k] == XorByte(old(dst[k]), src[k])
      invariant forall k :: i <= k < 16 ==> dst[k] == old(dst[k])
    {
      dst[i] := XorByte(dst[i], src[i]);
    }
  }

  /** CBC ciphertext of the first k blocks: the chain values, one after the other. */
  function Cbc(e: Cipher, iv: Block, m: bytes, k: nat): (c: bytes)
    requires 16 * k <= |m|
    ensures |c| == 16 * k
    ensures k > 0 ==> c[16 * k - 16..] == Chain(e, iv, m, k)
  {
    if k == 0 then [] else Cbc(e, iv, m, k - 1) + Chain(e, iv, m, k)
  }

  /** A CBC encrypter's CryptBlocks: the ciphertext of src goes to the front of dst. */
  method CryptBlocks(e: Cipher, iv: Block, dst: array<byte>, src: bytes)
    requires |src| % 16 == 0 && |src| <= dst.Length
    modifies dst
    ensures dst[..|src|] == Cbc(e, iv, src, |src| / 16)
  {
    var x, off := iv, 0;
    ghost var k := 0;
    while off < |src|
      invariant off == 16 * k <= |src|
      invariant x == Chain(e, iv, src, k)
      invariant dst[..off] == Cbc(e, iv, src, k)
    {
      assert BlockAt(src, k) == src[off..][..16];
      x := e(XorBlock(x, src[off..][..16]));
      StoreBlock(dst, off, x);
      off, k := off + 16, k + 1;
    }
  }

  method StoreBlock(dst: array<byte>, off: nat, x: Block)
    requires off + 16 <= dst.Length
    modifies dst
    ensures dst[..off + 16] == old(dst[..off]) + x
  {
    forall i | 0 <= i < 16 { dst[off + i] := x[i]; }
  }

  /** The whole blocks before the last one, in pieces of at most the scratch buffer's size. */
  method ChainInChunks(e: Cipher, msg: bytes, full: nat, scratch: array<byte>) returns (x: Block)
    requires 16 * full <= |msg| && scratch.Length > 0 && scratch.Length % 16 == 0
    modifies scratch
    ensures x == Chain(e, Zeros(16), msg, full)
  {
    x := Zeros(16);
    var off, end := 0, 16 * full;
    ghost var done := 0;
    while off < end
      invariant off == 16 * done <= end
      invariant x == Chain(e, Zeros(16), msg, done)
    {
      var n := Min(end - off, scratch.Length);
      ghost var k := n / 16;
      CryptBlocks(e, x, scratch, msg[off..][..n]);
      PieceOfChain(e, Zeros(16), msg, done, k, n);
      assert scratch[n - 16..n] == scratch[..n][n - 16..];
      x := scratch[n - 16..n];
      off, done := off + n, done + k;
    }
  }

  lemma PieceOfChain(e: Cipher, x: Block, msg: bytes, done: nat, k: nat, n: nat)
    requires n == 16 * k && 16 * done + n <= |msg|
    ensures Chain(e, x, msg, done + k) == Chain(e, Chain(e, x, msg, done), msg[16 * done..][..n], k)
  {
    var rest := msg[16 * done..];
    ChainResumes(e, x, msg, done, k);
    ChainPrefix(e, Chain(e, x, msg, done), rest[..n], rest[n..], k);
    assert rest == rest[..n] + rest[n..];
  }

  /** aesCMAC. A key the cipher refuses (None) gives sixteen zero bytes. The old contents of the
      scratch buffer and its size do not matter. */
  method AesCmac(cipher: Option<Cipher>, msg: bytes, scratch: array<byte>) returns (mac: Block)
    requires scratch.Length > 0 && scratch.Length % 16 == 0
    modifies scratch
    ensures mac == match cipher case None => Zeros(16) case Some(e) => Cmac(e, msg)
  {
    if cipher == None { return Zeros(16); }
    mac := MacWith(cipher.value, msg, scratch);
  }

  lemma LastStart(len: nat, full: nat, rem: nat)
    requires len == 16 * full + rem && rem <= 16 && (full > 0 ==> rem > 0)
    ensures full == BlockCount(len) - 1
  {
  }

  method MacWith(e: Cipher, msg: bytes, scratch: array<byte>) returns (mac: Block)
    requires scratch.Length > 0 && scratch.Length % 16 == 0
    modifies scratch
    ensures mac == Cmac(e, msg)
  {
    var full, rem := |msg| / 16, |msg| % 16;
    if rem == 0 && full > 0 {
      full, rem := full - 1, 16;
    }
    LastStart(|msg|, full, rem);
    var chain := ChainInChunks(e, msg, full, scratch);
    var last := TweakLast(e, msg[16 * full..], rem);
    mac := CloseChain(e, chain, last);
  }

  method CloseChain(e: Cipher, chain: Block, last: array<byte>) returns (mac: Block)
    requires last.Length == 16
    ensures mac == e(XorBlock(last[..], chain))
  {
    var x := new byte[16](_ => 0);
    CopyBlock(x, chain);
    Xor16(x, last);
    XorBlockCommutes(chain, last[..]);
    mac := e(x[..]);
  }

  method Subkeys(e: Cipher) returns (k1: array<byte>, k2: array<byte>)
    ensures fresh(k1) && fresh(k2) && k1.Length == 16 == k2.Length
    ensures k1[..] == Double(e(Zeros(16))) && k2[..] == Double(k1[..])
  {
    var l := new byte[16](_ => 0);
    k1, k2 := new byte[16](_ => 0), new byte[16](_ => 0);
    CopyBlock(l, e(Zeros(16)));
    GfMulX(k1, l);
    GfMulX(k2, k1);
  }

  /** The last block, padded if it is not whole and xored with the subkey that goes with it. */
  method TweakLast(e: Cipher, tail: bytes, rem: nat) returns (last: array<byte>)
    requires |tail| == rem <= 16
    ensures fresh(last) && last.Length == 16 && last[..] == LastBlock(e, tail)
  {
    var k1, k2 := Subkeys(e);
    last := new byte[16](_ => 0);
    CopyBlock(last, tail);
    if rem == 16 {
      Xor16(last, k1);
    } else {
      PadBlock(last, tail);
      Xor16(last, k2);
    }
  }

  /** The single bit behind the last bytes. */
  method PadBlock(last: array<byte>, tail: bytes)
    requires last.Length == 16 && |tail| < 16 && last[..] == tail + Zeros(16 - |tail|)
    modifies last
    ensures last[..] == tail + [0x80] + Zeros(15 - |tail|)
  {
    last[|tail|] := 0x80;
  }

  /** copy into a zeroed block. */
  method CopyBlock(dst: array<byte>, src: bytes)
    requires dst.Length == 16 && |src| <= 16 && forall i :: 0 <= i < 16 ==> dst[i] == 0
    modifies dst
    ensures dst[..] == src + Zeros(16 - |src|)
    ensures |src| == 16 ==> dst[..] == src
  {
    forall i | 0 <= i < |src| { dst[i] := src[i]; }
  }
}
