/** The streaming half of internal/md4: a digest that takes its input in arbitrary pieces, buffers a
    partial block, and pads as RFC 1320 does (sections 3.1 and 3.2). It is stated for any compression
    of 64-byte blocks; Md4 supplies the one of RFC 1320.
  */
module BlockHash {
  import opened Bytes

  /** Starting registers, compression of one block, and the output of the final registers. */
  datatype Scheme<!R> = Scheme(init: R, compress: (R, bytes) -> R, output: R -> bytes)

  // ----- the definition -----

  /** Folds a compression over the first k 64-byte blocks of p. */
  function Fold<R>(f: (R, bytes) -> R, r: R, p: bytes, k: nat): R
    requires 64 * k <= |p|
  {
    if k == 0 then r else f(Fold(f, r, p, k - 1), BlockAt(p, k - 1))
  }

  /** Block number i of p. */
  function BlockAt(p: bytes, i: nat): (b: bytes)
    requires 64 * i + 64 <= |p|
    ensures |b| == 64
  {
    p[64 * i..][..64]
  }

  /** How many whole blocks n bytes make, and how many bytes are left over. */
  function Count(n: nat): (k: nat)
    ensures 64 * k <= n < 64 * k + 64
  {
    n / 64
  }

  function Rest(n: nat): (r: nat)
    ensures n == 64 * Count(n) + r && r < 64
  {
    n - 64 * Count(n)
  }

  /** The registers after every whole block of p; a partial block is left over. */
  function State<R>(h: Scheme<R>, p: bytes): R { Fold(h.compress, h.init, p, Count(|p|)) }

  /** A one bit, zeros up to 56 bytes modulo 64, and the bit length as 64 bits, low-order first. */
  function Padding(len: nat): (p: bytes)
    ensures (len + |p|) % 64 == 0
  {
    [0x80] + Zeros(ZerosNeeded(len)) + BitLength(len)
  }

  /** 8 * len modulo 2^64, low-order byte first. */
  function BitLength(len: nat): (b: bytes)
    ensures |b| == 8
  {
    Le(Wrap64(8 * len), 8)
  }

  function ZerosNeeded(len: nat): (z: nat)
    ensures z < 64 && (len + z + 9) % 64 == 0
  {
    if len % 64 < 56 then 55 - len % 64 else 119 - len % 64
  }

  /** The digest of a message, all at once. */
  function Hash<R>(h: Scheme<R>, m: bytes): bytes { h.output(State(h, m + Padding(|m|))) }

  /** The padding of RFC 1320, sections 3.1 and 3.2: a one bit, as few zeros as fill up the block, and the
      length in bits. */
  lemma PaddingAsListed(len: nat)
    ensures var p := Padding(len); var n := |p|;
      && 9 <= n <= 72 && (len + n) % 64 == 0
      && p[0] == 0x80 && (forall i :: 1 <= i < n - 8 ==> p[i] == 0)
      && Num8(p[n - 8..]) == 8 * len % 0x1_0000_0000_0000_0000
  {
    var p := Padding(len);
    assert p[|p| - 8..] == BitLength(len);
    Le64(Wrap64(8 * len));
  }

  /** The digest is what compressing all blocks of the padded message, first to last, leaves in the registers. */
  lemma HashAsDefined<R>(h: Scheme<R>, m: bytes)
    ensures |m + Padding(|m|)| % 64 == 0
    ensures Hash(h, m) == h.output(Fold(h.compress, h.init, m + Padding(|m|), |m + Padding(|m|)| / 64))
  {
  }

  lemma FoldStep<R>(f: (R, bytes) -> R, r: R, p: bytes, k: nat)
    requires 64 * k + 64 <= |p|
    ensures Fold(f, r, p, 0) == r && Fold(f, r, p, k + 1) == f(Fold(f, r, p, k), p[64 * k..64 * k + 64])
  {
    assert p[64 * k..][..64] == p[64 * k..64 * k + 64];
  }

  // ----- folding -----

  /** Bytes past the folded blocks do not matter. */
  lemma {:induction false} FoldPrefix<R>(f: (R, bytes) -> R, r: R, p: bytes, q: bytes, k: nat)
    requires 64 * k <= |p|
    ensures Fold(f, r, p + q, k) == Fold(f, r, p, k)
  {
    if k > 0 {
      FoldPrefix(f, r, p, q, k - 1);
      assert BlockAt(p + q, k - 1) == BlockAt(p, k - 1);
    }
  }

  /** Folding can be split at a block boundary. */
  lemma {:induction false} FoldAppend<R>(f: (R, bytes) -> R, r: R, p: bytes, j: nat, q: bytes, k: nat)
    requires |p| == 64 * j && 64 * k <= |q|
    ensures Fold(f, r, p + q, j + k) == Fold(f, Fold(f, r, p, j), q, k)
  {
    if k == 0 {
      FoldPrefix(f, r, p, q, j);
    } else {
      FoldAppend(f, r, p, j, q, k - 1);
      assert BlockAt(p + q, j + k - 1) == BlockAt(q, k - 1);
    }
  }

  lemma CountAdds(n: nat, m: nat)
    requires Rest(n) == 0
    ensures Count(n + m) == Count(n) + Count(m) && Rest(n + m) == Rest(m)
  {
  }

  lemma CountIgnores(n: nat, m: nat)
    requires Rest(n) + m < 64
    ensures Count(n + m) == Count(n) && Rest(n + m) == Rest(n) + m
  {
  }

  /** After a whole number of blocks, more bytes are folded from where the state stands. */
  lemma StateTakesBlocks<R>(h: Scheme<R>, p: bytes, q: bytes)
    requires Rest(|p|) == 0
    ensures State(h, p + q) == Fold(h.compress, State(h, p), q, Count(|q|))
    ensures Rest(|p + q|) == Rest(|q|)
  {
    FoldAppend(h.compress, h.init, p, Count(|p|), q, Count(|q|));
    CountAdds(|p|, |q|);
    assert |p + q| == |p| + |q|;
  }

  /** Bytes that do not complete a block leave the state alone. */
  lemma StateIgnoresTail<R>(h: Scheme<R>, p: bytes, q: bytes)
    requires Rest(|p|) + |q| < 64
    ensures State(h, p + q) == State(h, p)
    ensures Rest(|p + q|) == Rest(|p|) + |q|
  {
    FoldPrefix(h.compress, h.init, p, q, Count(|p|));
    CountIgnores(|p|, |q|);
    assert |p + q| == |p| + |q|;
  }

  lemma EmptyState<R>(h: Scheme<R>, p: bytes)
    requires |p| == 0
    ensures State(h, p) == h.init && Rest(|p|) == 0
  {
  }

  // ----- the digest object -----

  /** _Block: compresses every whole 64-byte block of p and returns how many bytes that was. */
  method Blocks<R>(h: Scheme<R>, r: R, p: bytes) returns (r': R, n: nat)
    ensures n == 64 * Count(|p|)
    ensures r' == Fold(h.compress, r, p, Count(|p|))
  {
    r', n := r, 0;
    ghost var k := 0;
    while |p| - n >= 64
      invariant n == 64 * k <= |p|
      invariant r' == Fold(h.compress, r, p, k)
    {
      assert BlockAt(p, k) == p[n..n + 64];
      r' := h.compress(r', p[n..n + 64]);
      n, k := n + 64, k + 1;
    }
  }

  /** A hash in progress: registers, a partial block in x[..nx], and the length so far modulo 2^64. */
  class Digest<R> {
    const h: Scheme<R>
    var s: R
    const x: array<byte>
    var nx: nat
    var len: u64
    ghost var written: bytes

    /** The digest has taken in exactly `written`. */
    ghost predicate Valid()
      reads this, x
    {
      Holds() && len == Wrap64(|written|)
    }

    constructor (h: Scheme<R>)
      ensures Valid() && this.h == h && written == [] && fresh(x)
    {
      this.h := h;
      s, nx, len, written := h.init, 0, 0, [];
      x := new byte[64](_ => 0);
      new;
      EmptyState(h, written);
    }

    /** *d = *d0, with a buffer of its own. */
    constructor Copy(from: Digest<R>)
      requires from.Valid()
      ensures Valid() && written == from.written && fresh(this) && fresh(x)
      ensures h == from.h && s == from.s && nx == from.nx && len == from.len
    {
      h := from.h;
      s, nx, len, written := from.s, from.nx, from.len, from.written;
      var data := from.x[..];
      x := new byte[64](i requires 0 <= i < 64 => data[i]);
      new;
      assert x[..] == data;
      assert x[..nx] == data[..nx];
    }

    /** Reset starts over. */
    method Reset()
      requires x.Length == 64
      modifies this
      ensures Valid() && written == []
    {
      s, nx, len, written := h.init, 0, 0, [];
      EmptyState(h, written);
    }

    /** s and x hold `written`, whatever the length counter says. */
    ghost predicate Holds()
      reads this, x
    {
      && x.Length == 64 && nx == Rest(|written|) && s == State(h, written)
      && x[..nx] == written[|written| - nx..]
    }

    /** Write takes in all of p, whatever the split into calls. */
    method Write(p: bytes) returns (nn: nat)
      requires Valid()
      modifies this, x
      ensures Valid() && written == old(written) + p && nn == |p|
    {
      nn := |p|;
      CounterAdds(|written|, nn);
      len := Wrap64(len + nn);
      var rest := p;
      if nx > 0 {
        var n := TopUp(p);
        rest := p[n..];
        assert p == p[..n] + rest;
        Assoc(old(written), p[..n], rest);
      }
      TakeBlocks(rest);
    }

    /** The first part of Write: fill up the pending block and compress it when it is full. */
    method TopUp(p: bytes) returns (n: nat)
      requires Holds() && nx > 0
      modifies this`s, this`nx, this`written, x
      ensures n <= |p| && Holds() && written == old(written) + p[..n]
      ensures nx == 0 || n == |p|
    {
      n := FillBuffer(p);
      if nx == 64 {
        FlushBuffer(p[..n]);
      } else {
        StateIgnoresTail(h, written, p[..n]);
        written := written + p[..n];
      }
    }

    /** Tops up the partial block from the front of p. */
    method FillBuffer(p: bytes) returns (n: nat)
      requires x.Length == 64 && 0 < nx < 64
      modifies this`nx, x
      ensures n == Min(|p|, 64 - old(nx)) && nx == old(nx) + n && n <= |p|
      ensures x[..nx] == old(x[..nx]) + p[..n]
    {
      n := Min(|p|, 64 - nx);
      for i := 0 to n
        invariant nx == old(nx) && x[..nx] == old(x[..nx])
        invariant forall k :: 0 <= k < i ==> x[nx + k] == p[k]
      {
        x[nx + i] := p[i];
      }
      assert x[..nx + n] == x[..nx] + p[..n];
      nx := nx + n;
    }

    /** Compresses the full buffer, which holds the pending bytes and `more`. */
    method FlushBuffer(ghost more: bytes)
      requires x.Length == 64 == nx && s == State(h, written)
      requires Rest(|written|) + |more| == 64
      requires x[..] == written[|written| - Rest(|written|)..] + more
      modifies this`s, this`nx, this`written
      ensures nx == 0 && written == old(written) + more && s == State(h, written)
    {
      ghost var whole := written[..|written| - Rest(|written|)];
      ghost var pending := written[|written| - Rest(|written|)..];
      assert written == whole + pending;
      StateIgnoresTail(h, whole, pending);
      StateTakesBlocks(h, whole, x[..]);
      var k;
      s, k := Blocks(h, s, x[..]);
      nx := 0;
      assert whole + x[..] == written + more;
      written := written + more;
    }

    /** Compresses the whole blocks of `rest` and keeps the remainder; anything still pending means
        there is nothing left to take. */
    method TakeBlocks(rest: bytes)
      requires Holds()
      requires nx == 0 || rest == []
      modifies this`s, this`nx, this`written, x
      ensures Holds()
      ensures written == old(written) + rest
    {
      var n;
      if rest == [] { assert written + rest == written; } else { StateTakesBlocks(h, written, rest); }
      s, n := Blocks(h, s, rest);
      var left := rest[n..];
      if |left| > 0 {
        forall i | 0 <= i < |left| { x[i] := left[i]; }
        nx := |left|;
        assert x[..nx] == left;
      }
      written := written + rest;
    }

    /** Sum appends the digest of everything written to `prefix` and leaves the receiver as it was. */
    method Sum(prefix: bytes) returns (out: bytes)
      requires Valid()
      ensures out == prefix + Hash(h, written)
    {
      var d := new Digest<R>.Copy(this);
      d.Finish();
      assert d.nx == 0;  // the source panics otherwise
      out := prefix + h.output(d.s);
    }

    /** The padding and the length field, as Sum writes them to its copy. */
    method Finish()
      requires Valid()
      modifies this, x
      ensures Valid() && written == old(written) + Padding(|old(written)|) && nx == 0
    {
      LengthField(|written|, len);
      var zeros := if len % 64 < 56 then 55 - len % 64 else 119 - len % 64;
      assert zeros == ZerosNeeded(|written|);
      ghost var before := written;
      var mark, bits := [0x80] + Zeros(zeros), Le(Wrap64(len * 8), 8);
      Assoc(before, mark, bits);
      var n := Write(mark);
      n := Write(bits);
    }
  }

  lemma CounterAdds(m: nat, n: nat)
    ensures Wrap64(Wrap64(m) + n) == Wrap64(m + n)
  {
    ModDrops(Wrap64(m) + n, m / 0x1_0000_0000_0000_0000);
  }

  /** Counting bytes modulo 2^64 loses nothing the padding looks at. */
  lemma LengthField(n: nat, len: u64)
    requires len == Wrap64(n)
    ensures len % 64 == n % 64
    ensures Le(Wrap64(len * 8), 8) == BitLength(n)
  {
    WrapOctets(n);
  }

  lemma WrapOctets(n: nat)
    ensures Wrap64(n) % 64 == n % 64
    ensures Wrap64(Wrap64(n) * 8) == Wrap64(8 * n)
  {
    var q := n / 0x1_0000_0000_0000_0000;
    assert n == 0x1_0000_0000_0000_0000 * q + Wrap64(n);
    ModDrops(8 * Wrap64(n), 8 * q);
  }

  lemma ModDrops(m: nat, q: nat)
    ensures Wrap64(0x1_0000_0000_0000_0000 * q + m) == Wrap64(m)
  {
  }

  // ----- any split into writes, sums anywhere -----

  datatype Op = Write(p: bytes) | Sum(prefix: bytes)

  /** What has been written after an operation, and what the operation returns. */
  function Written(m: bytes, op: Op): bytes {
    match op
    case Write(p) => m + p
    case Sum(_) => m
  }

  function Returned<R>(h: Scheme<R>, m: bytes, op: Op): seq<bytes> {
    match op
    case Write(_) => []
    case Sum(prefix) => [prefix + Hash(h, m)]
  }

  /** What the sums of a run return, given what was written before it. */
  function Sums<R>(h: Scheme<R>, m: bytes, ops: seq<Op>): seq<bytes>
    decreases |ops|
  {
    if ops == [] then [] else Returned(h, m, ops[0]) + Sums(h, Written(m, ops[0]), ops[1..])
  }

  lemma SumsHead<R>(h: Scheme<R>, m: bytes, ops: seq<Op>, i: nat)
    requires i < |ops|
    ensures Sums(h, m, ops[i..]) == Returned(h, m, ops[i]) + Sums(h, Written(m, ops[i]), ops[i + 1..])
  {
    assert ops[i..][1..] == ops[i + 1..];
  }

  method Perform<R>(d: Digest<R>, op: Op) returns (out: seq<bytes>)
    requires d.Valid()
    modifies d, d.x
    ensures d.Valid()
    ensures out == Returned(d.h, old(d.written), op) && d.written == Written(old(d.written), op)
  {
    match op
    case Write(p) =>
      var n := d.Write(p);
      return [];
    case Sum(prefix) =>
      var sum := d.Sum(prefix);
      return [sum];
  }

  /** Every Sum of a run is the one-shot digest of the concatenation of the writes before it. */
  method Stream<R>(h: Scheme<R>, ops: seq<Op>) returns (sums: seq<bytes>)
    ensures sums == Sums(h, [], ops)
  {
    var d := new Digest<R>(h);
    sums := [];
    for i := 0 to |ops|
      invariant d.Valid() && d.h == h && fresh(d) && fresh(d.x)
      invariant sums + Sums(h, d.written, ops[i..]) == Sums(h, [], ops)
    {
      SumsHead(h, d.written, ops, i);
      Assoc(sums, Returned(h, d.written, ops[i]), Sums(h, Written(d.written, ops[i]), ops[i + 1..]));
      var out := Perform(d, ops[i]);
      sums := sums + out;
    }
  }

  /** Splitting a write in two changes nothing a later Sum can see. */
  lemma SplitIsInvisible<R>(h: Scheme<R>, m: bytes, p: bytes, q: bytes, rest: seq<Op>)
    ensures Sums(h, m, [Write(p), Write(q)] + rest) == Sums(h, m, [Write(p + q)] + rest)
  {
    assert ([Write(p), Write(q)] + rest)[1..] == [Write(q)] + rest;
    assert ([Write(q)] + rest)[1..] == rest && ([Write(p + q)] + rest)[1..] == rest;
    Assoc(m, p, q);
  }
}
