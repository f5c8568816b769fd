/** Bytes and the little-endian fields of the SMB2 wire format. */
module Bytes {
  type byte = b: int | 0 <= b < 0x100
  type bytes = seq<byte>

  type u16 = v: int | 0 <= v < 0x1_0000
  type u32 = v: int | 0 <= v < 0x1_0000_0000
  type u64 = v: int | 0 <= v < 0x1_0000_0000_0000_0000

  /** Unsigned wrap-around and truncation. */
  function Wrap32(n: int): u32 { n % 0x1_0000_0000 }
  function Wrap64(n: int): u64 { n % 0x1_0000_0000_0000_0000 }

  datatype Option<+T> = None | Some(value: T) {
    function GetOr(default: T): T { if Some? then value else default }
  }

  function Zeros(n: nat): (z: bytes)
    ensures |z| == n && forall i :: 0 <= i < n ==> z[i] == 0
  {
    seq(n, _ => 0)
  }

  function Min(a: int, b: int): int { if a <= b then a else b }

  function Max(a: int, b: int): int { if a <= b then b else a }

  lemma Assoc<T>(a: seq<T>, b: seq<T>, c: seq<T>)
    ensures (a + b) + c == a + (b + c)
  {
  }

  // ----- little-endian numbers -----

  /** The n low-order bytes of v, lowest first; higher bytes are cut off as by Go's conversions. */
  function Le(v: nat, n: nat): (b: bytes)
    ensures |b| == n
    decreases n, v
  {
    if n == 0 then [] else [v % 0x100] + Le(v / 0x100, n - 1)
  }

  function Pow256(n: nat): (p: nat)
    ensures p > 0
  {
    if n == 0 then 1 else 0x100 * Pow256(n - 1)
  }

  /** The number that bytes stand for, lowest byte first. */
  function Num(f: bytes): (n: nat)
    ensures n < Pow256(|f|)
  {
    if f == [] then 0 else f[0] as int + 0x100 * Num(f[1..])
  }

  function Num2(f: bytes): (n: u16)
    requires |f| == 2
  {
    assert Pow256(2) == 0x1_0000;
    Num(f)
  }

  function Num4(f: bytes): (n: u32)
    requires |f| == 4
  {
    assert Pow256(4) == 0x1_0000_0000;
    Num(f)
  }

  function Num8(f: bytes): (n: u64)
    requires |f| == 8
  {
    assert Pow256(8) == 0x1_0000_0000_0000_0000;
    Num(f)
  }

  /** The weights of the bytes. */
  lemma NumOfTwo(f: bytes)
    requires |f| == 2
    ensures Num2(f) == f[0] as int + 0x100 * f[1] as int
  {
    assert Num(f[1..]) == f[1] as int + 0x100 * Num(f[1..][1..]);
  }

  lemma NumOfFour(f: bytes)
    requires |f| == 4
    ensures Num4(f) == f[0] as int + 0x100 * f[1] as int + 0x1_0000 * f[2] as int + 0x100_0000 * f[3] as int
  {
    assert f[1..][1..] == f[2..] && f[2..][1..] == f[3..] && f[3..][1..] == [];
    assert Num(f[3..]) == f[3] as int + 0x100 * Num(f[3..][1..]);
    assert Num(f[2..]) == f[2] as int + 0x100 * Num(f[3..]);
    assert Num(f[1..]) == f[1] as int + 0x100 * Num(f[2..]);
  }

  lemma NumOfEight(f: bytes)
    requires |f| == 8
    ensures Num8(f) == Num4(f[..4]) + 0x1_0000_0000 * Num4(f[4..])
  {
    NumOfParts(f[..4], f[4..]);
    assert f[..4] + f[4..] == f;
    assert Pow256(4) == 0x1_0000_0000;
  }

  lemma {:induction false} NumOfParts(a: bytes, b: bytes)
    ensures Num(a + b) == Num(a) + Pow256(|a|) * Num(b)
  {
    if a == [] {
      assert a + b == b;
    } else {
      assert (a + b)[1..] == a[1..] + b;
      NumOfParts(a[1..], b);
      Weights(a[0] as int, Num(a[1..]), Pow256(|a| - 1), Num(b));
    }
  }

  lemma Weights(first: int, rest: int, p: int, n: int)
    ensures first + 0x100 * (rest + p * n) == first + 0x100 * rest + 0x100 * p * n
  {
  }

  /** Writing a number and reading it back gives the number, when it fits. */
  lemma {:induction false} NumOfLe(v: nat, n: nat)
    requires v < Pow256(n)
    ensures Num(Le(v, n)) == v
  {
    if n > 0 { NumOfLe(v / 0x100, n - 1); }
  }

  lemma Le16(v: u16)
    ensures Num2(Le(v, 2)) == v
  {
    assert Pow256(2) == 0x1_0000;
    NumOfLe(v, 2);
  }

  lemma Le32(v: u32)
    ensures Num4(Le(v, 4)) == v
  {
    assert Pow256(4) == 0x1_0000_0000;
    NumOfLe(v, 4);
  }

  lemma Le64(v: u64)
    ensures Num8(Le(v, 8)) == v
  {
    assert Pow256(8) == 0x1_0000_0000_0000_0000;
    NumOfLe(v, 8);
  }

  // ----- fields -----

  /** The n bytes of b at off. */
  function Field(b: bytes, off: nat, n: nat): (f: bytes)
    requires off + n <= |b|
    ensures |f| == n
  {
    b[off..off + n]
  }

  function U16At(b: bytes, off: nat): (v: u16)
    requires off + 2 <= |b|
  {
    Num2(Field(b, off, 2))
  }

  function U32At(b: bytes, off: nat): (v: u32)
    requires off + 4 <= |b|
  {
    Num4(Field(b, off, 4))
  }

  function U64At(b: bytes, off: nat): (v: u64)
    requires off + 8 <= |b|
  {
    Num8(Field(b, off, 8))
  }

  /** b with the field at off overwritten. */
  function Put(b: bytes, off: nat, f: bytes): (r: bytes)
    requires off + |f| <= |b|
    ensures |r| == |b|
    ensures forall i :: 0 <= i < |b| ==> r[i] == if off <= i < off + |f| then f[i - off] else b[i]
  {
    b[..off] + f + b[off + |f|..]
  }

  lemma FieldOfPut(b: bytes, off: nat, f: bytes)
    requires off + |f| <= |b|
    ensures Field(Put(b, off, f), off, |f|) == f
  {
  }

  lemma FieldBesidePut(b: bytes, off: nat, f: bytes, off': nat, n: nat)
    requires off + |f| <= |b| && off' + n <= |b|
    requires off' + n <= off || off + |f| <= off'
    ensures Field(Put(b, off, f), off', n) == Field(b, off', n)
  {
  }

  // ----- filling a zeroed buffer -----

  /** p, then n bytes still zero. */
  function Buffer(p: bytes, n: nat): bytes { p + Zeros(n) }

  lemma Fill(p: bytes, n: nat, f: bytes)
    requires |f| <= n
    ensures Put(Buffer(p, n), |p|, f) == Buffer(p + f, n - |f|)
  {
  }

  lemma Skip(p: bytes, n: nat, k: nat)
    requires k <= n
    ensures Buffer(p, n) == Buffer(p + Zeros(k), n - k)
  {
  }

  /** Rounds n up to the next multiple of 8. */
  function RoundUp8(n: nat): (r: nat)
    ensures r % 8 == 0 && n <= r < n + 8
  {
    (n + 7) / 8 * 8
  }
}
